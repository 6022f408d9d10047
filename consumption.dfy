/**
 * What one `flag` or `value` query of lib/yargs.rb answers and what it
 * leaves in the pool of remaining tokens, as functions of the pool before
 * the call; and the properties of a sequence of such queries.
 */
module Consumption {
  import opened Wrappers
  import opened Sequences
  import opened Matching

  /** The token matches the value pattern for one of the aliases. */
  predicate IsKey(t: string, names: seq<string>)
  {
    ValueMatch(t, names).Some?
  }

  /** Where `flag` stops: the leftmost flag token. */
  function FirstFlag(s: seq<string>, names: seq<string>): Option<nat>
  {
    FirstWhere(s, (t: string) => FlagMatches(t, names))
  }

  /** Where `value` looks: the leftmost token that matches the value pattern. */
  function FirstKey(s: seq<string>, names: seq<string>): Option<nat>
  {
    FirstWhere(s, (t: string) => IsKey(t, names))
  }

  /**
   * One call of `flag(*names)` on the pool `s`: the answer, and the pool
   * after `Array#delete` has removed every copy of the leftmost flag token.
   */
  function FlagStep(s: seq<string>, names: seq<string>): (bool, seq<string>)
  {
    match FirstFlag(s, names)
    case None => (false, s)
    case Some(i) => (true, RemoveAll(s, s[i]))
  }

  /**
   * One call of `value(*names)` on the pool `s`. Only the leftmost key counts:
   * joined (`--k=v`) it gives the text after the `=` and goes alone; bare, it
   * takes the next token with it as the value; bare and last, nothing happens.
   */
  function ValueStep(s: seq<string>, names: seq<string>): (Option<string>, seq<string>)
  {
    match FirstKey(s, names)
    case None => (None, s)
    case Some(i) =>
      var m := ValueMatch(s[i], names).value;
      if m.joined then (Some(m.text), s[..i] + s[i + 1..])
      else if i + 1 < |s| then (Some(s[i + 1]), s[..i] + s[i + 2..])
      else (None, s)
  }

  /** No key of the pool consumes another: there is at most one key token. */
  predicate AtMostOneKey(s: seq<string>, names: seq<string>)
  {
    forall i, j :: 0 <= i < |s| && 0 <= j < |s| && IsKey(s[i], names) && IsKey(s[j], names) ==> i == j
  }

  /** `flag` answers true exactly when some token of the pool is a flag token. */
  lemma FlagFound(s: seq<string>, names: seq<string>)
    ensures FlagStep(s, names).0 <==> exists i :: 0 <= i < |s| && FlagMatches(s[i], names)
  {
    if FlagStep(s, names).0 {
      var i := FirstFlag(s, names).value;
      assert FlagMatches(s[i], names);
    }
  }

  /**
   * When `flag` answers true it removes every copy of the leftmost flag
   * token and keeps all other tokens, in order; when it answers false the
   * pool is unchanged.
   */
  lemma FlagStepMeaning(s: seq<string>, names: seq<string>)
    ensures !FlagStep(s, names).0 ==> FlagStep(s, names).1 == s
    ensures FlagStep(s, names).0 ==>
      exists i :: 0 <= i < |s| && FlagMatches(s[i], names) &&
        (forall j :: 0 <= j < i ==> !FlagMatches(s[j], names)) &&
        s[i] !in FlagStep(s, names).1 &&
        multiset(FlagStep(s, names).1) == multiset(s)[s[i] := 0]
    ensures IsSubsequence(FlagStep(s, names).1, s)
  {
    if FlagStep(s, names).0 {
      var i := FirstFlag(s, names).value;
      assert FlagMatches(s[i], names);
    } else {
      SubsequenceReflexive(s);
    }
  }

  /**
   * A second `flag` for the same aliases finds something exactly when the
   * pool held a flag token spelled differently from the one the first call
   * consumed (`-f` after `--f`, or another alias).
   */
  lemma FlagAgain(s: seq<string>, names: seq<string>)
    requires FlagStep(s, names).0
    ensures FlagStep(FlagStep(s, names).1, names).0 <==>
      exists i :: 0 <= i < |s| && FlagMatches(s[i], names) && s[i] != s[FirstFlag(s, names).value]
  {
    var x := s[FirstFlag(s, names).value];
    var rest := RemoveAll(s, x);
    assert FlagStep(s, names).1 == rest;
    FlagFound(rest, names);
    if j :| 0 <= j < |rest| && FlagMatches(rest[j], names) {
      InRemoveAll(s, x, rest[j]);
      var i :| 0 <= i < |s| && s[i] == rest[j];
      assert FlagMatches(s[i], names) && s[i] != x;
    }
    if i :| 0 <= i < |s| && FlagMatches(s[i], names) && s[i] != x {
      InRemoveAll(s, x, s[i]);
      var j :| 0 <= j < |rest| && rest[j] == s[i];
      assert FlagMatches(rest[j], names);
    }
  }

  /**
   * `value` answers nil exactly when no token is a key, or when the only
   * leftmost key is the bare last token; then the pool is unchanged.
   * Otherwise the pool is one token shorter for a joined key and two
   * shorter for a separate value.
   */
  lemma ValueStepMeaning(s: seq<string>, names: seq<string>)
    ensures ValueStep(s, names).0.None? <==>
      (forall i :: 0 <= i < |s| ==> !IsKey(s[i], names)) ||
      (IsKey(s[|s| - 1], names) && !ValueMatch(s[|s| - 1], names).value.joined &&
       forall j :: 0 <= j < |s| - 1 ==> !IsKey(s[j], names))
    ensures ValueStep(s, names).0.None? ==> ValueStep(s, names).1 == s
    ensures ValueStep(s, names).0.Some? ==>
      |ValueStep(s, names).1| == |s| - (if ValueMatch(s[FirstKey(s, names).value], names).value.joined then 1 else 2)
  {
    match FirstKey(s, names)
    case None =>
    case Some(i) =>
      assert IsKey(s[i], names);
      if !ValueMatch(s[i], names).value.joined && i + 1 < |s| {
        assert !(IsKey(s[|s| - 1], names) && !ValueMatch(s[|s| - 1], names).value.joined &&
                 forall j :: 0 <= j < |s| - 1 ==> !IsKey(s[j], names));
      }
  }

  /**
   * A token that `value`'s scan passes over without answering: not a key,
   * or a bare key with no token after it.
   */
  predicate PassedOver(s: seq<string>, names: seq<string>, j: nat)
    requires j < |s|
  {
    !IsKey(s[j], names) || (j + 1 == |s| && !ValueMatch(s[j], names).value.joined)
  }

  /** A token at which the scan does not answer is one it passes over. */
  lemma NoAnswerPassesOver(s: seq<string>, names: seq<string>, j: nat)
    requires j < |s|
    requires ValueMatch(s[j], names).None? || (!ValueMatch(s[j], names).value.joined && j + 1 >= |s|)
    ensures PassedOver(s, names, j)
  {
  }

  /** The first key that the scan does not pass over is the leftmost key. */
  lemma FirstKeyAfterPassedOver(s: seq<string>, names: seq<string>, i: nat)
    requires i < |s| && IsKey(s[i], names)
    requires forall j :: 0 <= j < i ==> PassedOver(s, names, j)
    ensures FirstKey(s, names) == Some(i)
  {
    forall j | 0 <= j < i
      ensures !IsKey(s[j], names)
    {
      assert PassedOver(s, names, j);
    }
  }

  /** The scan answers at the first key that it does not pass over, by deletion at that index. */
  lemma ValueStepAt(s: seq<string>, names: seq<string>, i: nat, m: KeyMatch)
    requires i < |s| && ValueMatch(s[i], names) == Some(m)
    requires forall j :: 0 <= j < i ==> PassedOver(s, names, j)
    ensures m.joined ==> ValueStep(s, names) == (Some(m.text), DeleteAt(s, i))
    ensures !m.joined && i + 1 < |s| ==> ValueStep(s, names) == (Some(s[i + 1]), DeleteAt(DeleteAt(s, i + 1), i))
    ensures !m.joined && i + 1 == |s| ==> ValueStep(s, names) == (None, s)
  {
    FirstKeyAfterPassedOver(s, names, i);
    if !m.joined && i + 1 < |s| {
      DeleteTwo(s, i);
    }
  }

  /** A scan that passes over every token answers nil and changes nothing. */
  lemma ValueStepPassesAll(s: seq<string>, names: seq<string>)
    requires forall j :: 0 <= j < |s| ==> PassedOver(s, names, j)
    ensures ValueStep(s, names) == (None, s)
  {
    match FirstKey(s, names)
    case None =>
    case Some(i) =>
      assert PassedOver(s, names, i);
  }

  /** A pool drawn from `argv` stays drawn from it after a `value` call. */
  lemma ValueStepStaysWithin(s: seq<string>, names: seq<string>, argv: seq<string>)
    requires IsSubsequence(s, argv)
    ensures IsSubsequence(ValueStep(s, names).1, argv)
  {
    ValueStepShrinks(s, names);
    SubsequenceTransitive(ValueStep(s, names).1, s, argv);
  }

  /** Whatever `value` answers, the new pool is a subsequence of the old one. */
  lemma ValueStepShrinks(s: seq<string>, names: seq<string>)
    ensures IsSubsequence(ValueStep(s, names).1, s)
  {
    match FirstKey(s, names)
    case None =>
      SubsequenceReflexive(s);
    case Some(i) =>
      assert IsKey(s[i], names);
      if ValueMatch(s[i], names).value.joined {
        CutIsSubsequence(s, i, i + 1);
      } else if i + 1 < |s| {
        CutIsSubsequence(s, i, i + 2);
      } else {
        SubsequenceReflexive(s);
      }
  }

  /**
   * A successful `value` leaves the tokens before its key where they were,
   * so a repeated query can only find a key at or after that position:
   * repeated queries return progressively later matches.
   */
  lemma ValueAgainLooksLater(s: seq<string>, names: seq<string>)
    requires ValueStep(s, names).0.Some?
    ensures FirstKey(s, names).Some?
    ensures ValueStep(s, names).1[..FirstKey(s, names).value] == s[..FirstKey(s, names).value]
    ensures FirstKey(ValueStep(s, names).1, names).None? ||
      FirstKey(s, names).value <= FirstKey(ValueStep(s, names).1, names).value
  {
    var i := FirstKey(s, names).value;
    var rest := ValueStep(s, names).1;
    assert rest[..i] == s[..i];
    assert forall j :: 0 <= j < i ==> rest[j] == s[j];
  }

  /**
   * How the value pattern reads `Dashes(d) + n + rest` for the single alias
   * `n`: with `d` dashes (a single dash only when `--n` does not also start
   * the token), the capture groups reading `rest`.
   */
  lemma KeyOfSingleAlias(t: string, d: DashCount, n: string, rest: string)
    requires t == Dashes(d) + n + rest
    requires d == 1 ==> !("--" + n <= t)
    ensures d + |n| <= |t| && t[d + |n|..] == rest
    ensures ValueMatch(t, [n]) == Some(ReadKey(t, d, [n], 0))
  {
    assert t[..d] == Dashes(d);
    assert t[d..] == n + rest;
    PrefixOfConcat(n, rest);
    assert t[d + |n|..] == rest;
    SingleAliasStarting(n, t[d..]);
    if d == 1 {
      DashedPrefix(t, "--", n);
      if |t| >= 2 && t[..2] == "--" {
        SingleAliasStarting(n, t[2..]);
      }
    }
  }

  /** The alternation of a single alias starts `u` exactly when the alias does. */
  lemma SingleAliasStarting(n: string, u: string)
    ensures FirstStarting([n], u) == if n <= u then Some(0) else None
  {
    FirstStartingMeaning([n], u);
  }

  /**
   * `--n` never starts `-n=v`: it would need every character of `n` to be a
   * dash, and then the `=` breaks the match.
   */
  lemma OneDashJoinedNotTwoDash(n: string, v: string)
    ensures !("--" + n <= "-" + n + "=" + v)
  {
    var p, t := "--" + n, "-" + n + "=" + v;
    var k: nat;
    match FirstWhere(n, (c: char) => c != '-')
    case None =>
      k := |n| + 1;
      assert p[k] == '-' by {
        if |n| > 0 {
          assert p[k] == n[|n| - 1];
        }
      }
      assert t[k] == '=';
    case Some(i) =>
      k := i + 1;
      assert p[k] == '-' by {
        if i > 0 {
          assert p[k] == n[i - 1];
        }
      }
      assert t[k] == n[i];
    assert k < |p| <= |t| && p[k] != t[k];
    assert p != t[..|p|] by {
      assert t[..|p|][k] == t[k];
    }
  }

  /** `-n=v` or `--n=v` is read as the joined key `n` with the text `v`, for every alias `n`. */
  lemma JoinedKey(d: DashCount, n: string, v: string)
    ensures ValueMatch(Dashes(d) + n + "=" + v, [n]) == Some(KeyMatch(d, 0, true, v))
  {
    var t := Dashes(d) + n + "=" + v;
    assert t == Dashes(d) + n + ("=" + v);
    if d == 1 {
      OneDashJoinedNotTwoDash(n, v);
    }
    KeyOfSingleAlias(t, d, n, "=" + v);
    assert ("=" + v)[1..] == v;
  }

  /** The bare `-n` or `--n` is read as the key `n` without `=`. */
  lemma BareKey(d: DashCount, n: string)
    ensures ValueMatch(Dashes(d) + n, [n]) == Some(KeyMatch(d, 0, false, ""))
  {
    var t := Dashes(d) + n;
    assert t == Dashes(d) + n + "";
    KeyOfSingleAlias(t, d, n, "");
  }

  /** The first key of `pre + [t] + post` is `t` when `pre` holds none. */
  lemma KeyAfterPlainTokens(pre: seq<string>, t: string, post: seq<string>, names: seq<string>)
    requires forall i :: 0 <= i < |pre| ==> !IsKey(pre[i], names)
    requires IsKey(t, names)
    ensures FirstKey(pre + [t] + post, names) == Some(|pre|)
  {
    var s := pre + [t] + post;
    assert s[|pre|] == t;
    assert forall j :: 0 <= j < |pre| ==> s[j] == pre[j];
  }

  /**
   * Round trip of the joined form: a pool whose first key is `-n=v` or
   * `--n=v` gives back `v` (which may be empty or hold further `=`) and
   * loses only that token.
   */
  lemma ValueJoinedRoundTrip(pre: seq<string>, d: DashCount, n: string, v: string, post: seq<string>)
    requires forall i :: 0 <= i < |pre| ==> !IsKey(pre[i], [n])
    ensures ValueStep(pre + [Dashes(d) + n + "=" + v] + post, [n]) == (Some(v), pre + post)
  {
    var t := Dashes(d) + n + "=" + v;
    var s := pre + [t] + post;
    JoinedKey(d, n, v);
    KeyAfterPlainTokens(pre, t, post, [n]);
    assert s[..|pre|] + s[|pre| + 1..] == pre + post;
  }

  /**
   * Round trip of the separate form: a pool whose first key is the bare
   * `-n` or `--n` followed by any token `w` gives back `w` verbatim and
   * loses exactly those two tokens.
   */
  lemma ValueSeparateRoundTrip(pre: seq<string>, d: DashCount, n: string, w: string, post: seq<string>)
    requires forall i :: 0 <= i < |pre| ==> !IsKey(pre[i], [n])
    ensures ValueStep(pre + [Dashes(d) + n, w] + post, [n]) == (Some(w), pre + post)
  {
    var t := Dashes(d) + n;
    var s := pre + [t, w] + post;
    BareKey(d, n);
    assert s == pre + [t] + ([w] + post);
    KeyAfterPlainTokens(pre, t, [w] + post, [n]);
    assert s[|pre| + 1] == w;
    assert s[..|pre|] + s[|pre| + 2..] == pre + post;
  }

  /**
   * A bare key that is the last token has no value: `value` answers nil
   * and leaves it, and a following `flag` for the same alias finds it.
   */
  lemma LastBareKeyIsAFlag(pre: seq<string>, d: DashCount, n: string)
    requires forall i :: 0 <= i < |pre| ==> !IsKey(pre[i], [n])
    ensures ValueStep(pre + [Dashes(d) + n], [n]) == (None, pre + [Dashes(d) + n])
    ensures FlagStep(pre + [Dashes(d) + n], [n]).0
  {
    var t := Dashes(d) + n;
    var s := pre + [t];
    BareKey(d, n);
    assert s == pre + [t] + [];
    KeyAfterPlainTokens(pre, t, [], [n]);
    assert FlagMatches(s[|pre|], [n]) by {
      assert s[|pre|] == "-" + [n][0] || s[|pre|] == "--" + [n][0];
    }
    FlagFound(s, [n]);
  }

  lemma NoKeyNoFlag(s: seq<string>, names: seq<string>)
    requires forall j :: 0 <= j < |s| ==> !IsKey(s[j], names)
    ensures ValueStep(s, names) == (None, s)
    ensures FlagStep(s, names) == (false, s)
  {
    forall j | 0 <= j < |s|
      ensures !FlagMatches(s[j], names)
    {
      if FlagMatches(s[j], names) {
        FlagTokenIsKey(s[j], names);
      }
    }
  }

  /**
   * The two queries draw from one pool: once `flag` has consumed the only
   * key token, a `value` for the same aliases answers nil.
   */
  lemma FlagThenValue(s: seq<string>, names: seq<string>)
    requires AtMostOneKey(s, names)
    requires FlagStep(s, names).0
    ensures ValueStep(FlagStep(s, names).1, names) == (None, FlagStep(s, names).1)
  {
    var i := FirstFlag(s, names).value;
    var rest := FlagStep(s, names).1;
    FlagTokenIsKey(s[i], names);
    forall j | 0 <= j < |rest|
      ensures !IsKey(rest[j], names)
    {
      InRemoveAll(s, s[i], rest[j]);
      var i' :| 0 <= i' < |s| && s[i'] == rest[j];
    }
    NoKeyNoFlag(rest, names);
  }

  /**
   * Once `value` has consumed the only key token, a repeated `value` answers
   * nil and a `flag` for the same aliases answers false.
   */
  lemma ValueThenQueries(s: seq<string>, names: seq<string>)
    requires AtMostOneKey(s, names)
    requires ValueStep(s, names).0.Some?
    ensures ValueStep(ValueStep(s, names).1, names) == (None, ValueStep(s, names).1)
    ensures FlagStep(ValueStep(s, names).1, names) == (false, ValueStep(s, names).1)
  {
    var i := FirstKey(s, names).value;
    var rest := ValueStep(s, names).1;
    assert IsKey(s[i], names);
    var gap := if ValueMatch(s[i], names).value.joined then 1 else 2;
    assert rest == s[..i] + s[i + gap..];
    forall j | 0 <= j < |rest|
      ensures !IsKey(rest[j], names)
    {
      if j < i {
        assert rest[j] == s[j];
      } else {
        assert rest[j] == s[j + gap];
      }
    }
    NoKeyNoFlag(rest, names);
  }
}
