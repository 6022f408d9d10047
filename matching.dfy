/**
 * The two regular expressions of lib/yargs.rb restated as string functions.
 *
 * `flag` tests a token against `^(-){1,2}(?:n1|n2|...)$` and `value` against
 * `^(?:-{1,2})(?:n1|n2|...)(=?)(.*)`, with the aliases interpolated as they
 * are. Read as string predicates, these equal Ruby's regexes only when the
 * aliases are plain literals (`PlainName`) and the tokens hold no line break
 * (`PlainToken`): Ruby's `^`, `$` and `.` stop at line breaks.
 */
module Matching {
  import opened Wrappers
  import opened Sequences

  /** Characters that would change the meaning of an interpolated alias, and the line break. */
  const Metacharacters: set<char> :=
    {'.', '*', '+', '?', '(', ')', '[', ']', '{', '}', '|', '\\', '^', '$', '\n'}

  /** An alias that the regexes read as the literal text it is. */
  predicate PlainName(n: string)
  {
    |n| > 0 && forall i :: 0 <= i < |n| ==> n[i] !in Metacharacters
  }

  /** A token on which `^` only matches at the start and `$` and `.*` at and up to the end. */
  predicate PlainToken(t: string)
  {
    forall i :: 0 <= i < |t| ==> t[i] != '\n'
  }

  /** The alias list of a query: at least one alias, each a plain literal. */
  predicate ValidNames(names: seq<string>)
  {
    |names| > 0 && forall k :: 0 <= k < |names| ==> PlainName(names[k])
  }

  /**
   * `^(-){1,2}(?:n1|n2|...)$`: the whole token is one or two dashes
   * followed by one of the aliases, and nothing else.
   */
  function FlagMatches(t: string, names: seq<string>): (b: bool)
    ensures b <==> exists k :: 0 <= k < |names| && (t == "-" + names[k] || t == "--" + names[k])
  {
    if names == [] then false
    else if t == "-" + names[0] || t == "--" + names[0] then true
    else
      var rest := FlagMatches(t, names[1..]);
      assert forall k :: 1 <= k < |names| ==> names[k] == names[1..][k - 1];
      rest
  }

  /** The length of the dash run `-{1,2}` in front of an alias. */
  type DashCount = d: nat | d == 1 || d == 2 witness 1

  /** The dash run of a key of the given length. */
  function Dashes(d: DashCount): string
  {
    if d == 2 then "--" else "-"
  }

  /**
   * What `^(?:-{1,2})(?:...)(=?)(.*)` captured: how many dashes, which alias
   * (its index in the query's list), whether `$1` is `=`, and `$2`.
   */
  datatype KeyMatch = KeyMatch(dashes: DashCount, alias: nat, joined: bool, text: string)

  /** `(=?)(.*)` after the alias, with the capture groups as Ruby fills them. */
  function ReadKey(t: string, d: DashCount, names: seq<string>, k: nat): KeyMatch
    requires k < |names| && d + |names[k]| <= |t|
  {
    var rest := t[d + |names[k]|..];
    if rest != [] && rest[0] == '=' then KeyMatch(d, k, true, rest[1..]) else KeyMatch(d, k, false, rest)
  }

  lemma DashedPrefix(t: string, d: string, n: string)
    ensures d + n <= t <==> |d| <= |t| && t[..|d|] == d && n <= t[|d|..]
  {
    if d + n <= t {
      assert t[..|d|] == (d + n)[..|d|] == d;
      assert t[|d|..][..|n|] == t[..|d| + |n|][|d|..];
    }
    if |d| <= |t| && t[..|d|] == d && n <= t[|d|..] {
      assert t[..|d| + |n|] == t[..|d|] + t[|d|..][..|n|];
    }
  }

  lemma ReadKeySpells(t: string, d: DashCount, names: seq<string>, k: nat)
    requires k < |names| && d + |names[k]| <= |t|
    requires Dashes(d) + names[k] <= t
    ensures var m := ReadKey(t, d, names, k);
      t == Dashes(m.dashes) + names[m.alias] + (if m.joined then "=" else "") + m.text &&
      (!m.joined ==> !("=" <= m.text))
  {
    var key := Dashes(d) + names[k];
    assert |key| == d + |names[k]|;
    var m := ReadKey(t, d, names, k);
    SpellBack(t, key, m.joined, m.text);
  }

  /** A token that `key` starts, followed by `=` and `text` or by `text` alone, is spelled by them. */
  lemma SpellBack(t: string, key: string, joined: bool, text: string)
    requires key <= t
    requires t[|key|..] == if joined then "=" + text else text
    ensures t == key + (if joined then "=" else "") + text
  {
    assert t == t[..|key|] + t[|key|..];
  }

  /** The alternation `(?:n1|n2|...)` tried on `rest`: the first alias, in order, that starts it. */
  function FirstStarting(names: seq<string>, rest: string): Option<nat>
  {
    FirstWhere(names, (n: string) => n <= rest)
  }

  lemma FirstStartingMeaning(names: seq<string>, rest: string)
    ensures FirstStarting(names, rest).None? <==> forall k :: 0 <= k < |names| ==> !(names[k] <= rest)
    ensures FirstStarting(names, rest).Some? ==>
      FirstStarting(names, rest).value < |names| && names[FirstStarting(names, rest).value] <= rest &&
      forall k :: 0 <= k < FirstStarting(names, rest).value ==> !(names[k] <= rest)
  {
  }

  /**
   * The capture of `^(?:-{1,2})(?:n1|n2|...)(=?)(.*)`, as Ruby's backtracking
   * finds it: two dashes before one, then the aliases in the order given,
   * taking the first alias that starts what follows the dashes. Nothing
   * anchors the end of the alias, so an alias that is a mere start of the
   * key (`t` in `--test`) matches. The three lemmas below state what it finds.
   */
  function ValueMatch(t: string, names: seq<string>): Option<KeyMatch>
  {
    var long := if |t| >= 2 && t[..2] == "--" then FirstStarting(names, t[2..]) else None;
    if long.Some? then Some(ReadKey(t, 2, names, long.value))
    else
      var short := if |t| >= 1 && t[..1] == "-" then FirstStarting(names, t[1..]) else None;
      if short.Some? then Some(ReadKey(t, 1, names, short.value)) else None
  }

  /** The value pattern matches exactly when one or two dashes and an alias start the token. */
  lemma ValueMatchFound(t: string, names: seq<string>)
    ensures ValueMatch(t, names).None? <==>
      forall k :: 0 <= k < |names| ==> !("--" + names[k] <= t) && !("-" + names[k] <= t)
  {
    DashedPrefixes(t, names);
    if |t| >= 2 && t[..2] == "--" {
      FirstStartingMeaning(names, t[2..]);
    }
    if |t| >= 1 && t[..1] == "-" {
      FirstStartingMeaning(names, t[1..]);
    }
  }

  /**
   * The capture spells the token back: its dashes, its alias, then `$1`,
   * which is `=` exactly when an `=` follows the alias, then `$2`.
   */
  lemma ValueMatchCapture(t: string, names: seq<string>)
    requires ValueMatch(t, names).Some?
    ensures var m := ValueMatch(t, names).value;
      (m.dashes == 1 || m.dashes == 2) && m.alias < |names| &&
      t == Dashes(m.dashes) + names[m.alias] + (if m.joined then "=" else "") + m.text &&
      (!m.joined ==> !("=" <= m.text))
  {
    DashedPrefixes(t, names);
    if |t| >= 2 && t[..2] == "--" && FirstStarting(names, t[2..]).Some? {
      FirstStartingMeaning(names, t[2..]);
      ReadKeySpells(t, 2, names, FirstStarting(names, t[2..]).value);
    } else {
      FirstStartingMeaning(names, t[1..]);
      ReadKeySpells(t, 1, names, FirstStarting(names, t[1..]).value);
    }
  }

  /**
   * The match is the first candidate in Ruby's order: no alias with two
   * dashes tried before it, and, when it has one dash, no alias with two
   * dashes at all and no earlier alias with one, starts the token.
   */
  lemma ValueMatchOrder(t: string, names: seq<string>)
    requires ValueMatch(t, names).Some?
    ensures var m := ValueMatch(t, names).value;
      (forall k :: 0 <= k < |names| && (m.dashes == 1 || k < m.alias) ==> !("--" + names[k] <= t)) &&
      (m.dashes == 1 ==> forall k :: 0 <= k < m.alias ==> !("-" + names[k] <= t))
  {
    DashedPrefixes(t, names);
    if |t| >= 2 && t[..2] == "--" {
      FirstStartingMeaning(names, t[2..]);
    }
    if |t| >= 1 && t[..1] == "-" {
      FirstStartingMeaning(names, t[1..]);
    }
  }

  lemma DashedPrefixes(t: string, names: seq<string>)
    ensures forall k :: 0 <= k < |names| ==>
      ("--" + names[k] <= t <==> |t| >= 2 && t[..2] == "--" && names[k] <= t[2..])
    ensures forall k :: 0 <= k < |names| ==>
      ("-" + names[k] <= t <==> |t| >= 1 && t[..1] == "-" && names[k] <= t[1..])
  {
    forall k | 0 <= k < |names|
      ensures "--" + names[k] <= t <==> |t| >= 2 && t[..2] == "--" && names[k] <= t[2..]
      ensures "-" + names[k] <= t <==> |t| >= 1 && t[..1] == "-" && names[k] <= t[1..]
    {
      DashedPrefix(t, "--", names[k]);
      DashedPrefix(t, "-", names[k]);
    }
  }

  /**
   * After stripping one or two leading dashes the token is exactly an alias:
   * the flag test seen from the token's side.
   */
  lemma FlagMatchesStripped(t: string, names: seq<string>)
    ensures FlagMatches(t, names) <==>
      (|t| >= 1 && t[0] == '-' && t[1..] in names) || (|t| >= 2 && t[..2] == "--" && t[2..] in names)
  {
    if FlagMatches(t, names) {
      var k :| 0 <= k < |names| && (t == "-" + names[k] || t == "--" + names[k]);
      if t == "-" + names[k] {
        assert t[1..] == names[k];
      } else {
        assert t[2..] == names[k] && t[..2] == "--";
      }
    }
    if |t| >= 1 && t[0] == '-' && t[1..] in names {
      var k :| 0 <= k < |names| && names[k] == t[1..];
      assert t == "-" + names[k];
    } else if |t| >= 2 && t[..2] == "--" && t[2..] in names {
      var k :| 0 <= k < |names| && names[k] == t[2..];
      assert t == t[..2] + t[2..];
      assert t == "--" + names[k];
    }
  }

  /** Every flag token also matches the value pattern, with nothing after the alias. */
  lemma FlagTokenIsKey(t: string, names: seq<string>)
    requires FlagMatches(t, names)
    ensures ValueMatch(t, names).Some?
  {
    var k :| 0 <= k < |names| && (t == "-" + names[k] || t == "--" + names[k]);
    assert "-" + names[k] <= t || "--" + names[k] <= t;
    ValueMatchFound(t, names);
  }
}
