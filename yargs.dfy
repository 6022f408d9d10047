/**
 * The `Yargs` class of lib/yargs.rb: an untouched copy of the argument
 * tokens and the pool of tokens not yet consumed by a query.
 */
module Parser {
  import opened Wrappers
  import opened Sequences
  import opened Matching
  import opened Consumption

  class Yargs {
    /** `@argv`: the tokens as given, never assigned after construction. */
    const argv: seq<string>
    /** `@remaining`: the pool that `flag` and `value` consume from. */
    var remaining: seq<string>

    /** The pool is always what is left of `argv` after deletions. */
    ghost predicate Valid()
      reads this
    {
      (forall i :: 0 <= i < |argv| ==> PlainToken(argv[i])) && IsSubsequence(remaining, argv)
    }

    /** `Yargs.new(argv)`: both fields start as copies of the tokens. */
    constructor (args: seq<string>)
      requires forall i :: 0 <= i < |args| ==> PlainToken(args[i])
      ensures Valid()
      ensures argv == args && remaining == args
    {
      argv := args;
      remaining := args;
      new;
      SubsequenceReflexive(args);
    }

    /** `#argv`, as a value: callers read a snapshot and cannot change the field through it. */
    function Argv(): seq<string>
      reads this
    {
      argv
    }

    /** `#remaining`, as a value; whatever was consumed, it is drawn from `argv` in order. */
    function Remaining(): (r: seq<string>)
      reads this
      requires Valid()
      ensures IsSubsequence(r, Argv()) && |r| <= |Argv()|
    {
      SubsequenceLength(remaining, argv);
      remaining
    }

    /**
     * `flag(*names)` (also `flag?`): walks the pool left to right; at the
     * first token that is exactly `-n` or `--n` for an alias `n` it deletes
     * every copy of that token and answers true.
     */
    method Flag(names: seq<string>) returns (found: bool)
      requires Valid() && ValidNames(names)
      modifies this`remaining
      ensures Valid()
      ensures (found, remaining) == FlagStep(old(remaining), names)
    {
      var i := 0;
      while i < |remaining|
        invariant 0 <= i <= |remaining| && remaining == old(remaining)
        invariant forall j :: 0 <= j < i ==> !FlagMatches(remaining[j], names)
      {
        var arg := remaining[i];
        if FlagMatches(arg, names) {
          assert FirstFlag(remaining, names) == Some(i);
          remaining := RemoveAll(remaining, arg);
          SubsequenceTransitive(remaining, old(remaining), argv);
          return true;
        }
        i := i + 1;
      }
      return false;
    }

    /**
     * `value(*names)`: walks the pool left to right to the first token that
     * matches the value pattern. Joined, it deletes that token and answers
     * the text after the `=`; bare and followed by a token, it deletes both
     * and answers the following one; bare and last, it answers nil.
     */
    method Value(names: seq<string>) returns (v: Option<string>)
      requires Valid() && ValidNames(names)
      modifies this`remaining
      ensures Valid()
      ensures (v, remaining) == ValueStep(old(remaining), names)
    {
      ghost var pool := remaining;
      var index := 0;
      while index < |remaining|
        invariant 0 <= index <= |remaining| && remaining == pool
        invariant forall j :: 0 <= j < index ==> PassedOver(pool, names, j)
      {
        var m := ValueMatch(remaining[index], names);
        if m.Some? {
          var key := m.value;
          ValueStepAt(pool, names, index, key);
          if key.joined {
            remaining := DeleteAt(remaining, index);
            ValueStepStaysWithin(pool, names, argv);
            return Some(key.text);
          } else if index + 1 < |remaining| {
            var val := remaining[index + 1];
            remaining := DeleteAt(remaining, index + 1);
            remaining := DeleteAt(remaining, index);
            ValueStepStaysWithin(pool, names, argv);
            return Some(val);
          }
        }
        NoAnswerPassesOver(pool, names, index);
        index := index + 1;
      }
      ValueStepPassesAll(pool, names);
      return None;
    }
  }
}
