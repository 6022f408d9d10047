/**
 * The examples of spec/yargs.spec.rb and of the comments of lib/yargs.rb.
 * Each lemma states what one query answers on the example's pool and what
 * pool it leaves; the methods at the end run the same examples through the
 * `Yargs` class, one query after another on one parser.
 */
module Scenarios {
  import opened Wrappers
  import opened Sequences
  import opened Matching
  import opened Consumption
  import opened Parser

  /** A pool of one joined key `-n=v` or `--n=v`: `value` gives `v` and empties the pool. */
  lemma JoinedAlone(token: string, d: DashCount, n: string, v: string)
    requires token == Dashes(d) + n + "=" + v
    ensures ValueStep([token], [n]) == (Some(v), [])
  {
    var none: seq<string> := [];
    ValueJoinedRoundTrip(none, d, n, v, none);
    assert none + [token] + none == [token];
    assert ValueStep([token], [n]) == (Some(v), none + none);
    assert none + none == [];
  }

  /** A pool of a bare key followed by `w`: `value` gives `w` and empties the pool. */
  lemma SeparateAlone(key: string, d: DashCount, n: string, w: string)
    requires key == Dashes(d) + n
    ensures ValueStep([key, w], [n]) == (Some(w), [])
  {
    BareKey(d, n);
    ValueStepAt([key, w], [n], 0, KeyMatch(d, 0, false, ""));
  }

  /** A pool of one bare key: `value` gives nil and keeps it, `flag` finds and removes it. */
  lemma BareAlone(key: string, d: DashCount, n: string)
    requires key == Dashes(d) + n
    ensures ValueStep([key], [n]) == (None, [key])
    ensures FlagStep([key], [n]) == (true, [])
  {
    var none: seq<string> := [];
    LastBareKeyIsAFlag(none, d, n);
    assert none + [key] == [key];
    FlagStepMeaning([key], [n]);
  }

  lemma TwoDashFlag()
    ensures FlagStep(["--simpleflag"], ["simpleflag"]) == (true, [])
  {
    BareAlone("--simpleflag", 2, "simpleflag");
  }

  lemma HyphenatedFlag()
    ensures FlagStep(["--split-flag"], ["split-flag"]) == (true, [])
  {
    BareAlone("--split-flag", 2, "split-flag");
  }

  lemma OneDashFlag()
    ensures FlagStep(["-single-dash-flag"], ["single-dash-flag"]) == (true, [])
  {
    BareAlone("-single-dash-flag", 1, "single-dash-flag");
  }

  /** The flag is consumed; the only token left is no key for a later `value`. */
  lemma FlagIsConsumed()
    ensures FlagStep(["--flags-are-consumed", "1"], ["flags-are-consumed"]) == (true, ["1"])
    ensures ValueStep(["1"], ["flags-are-consumed"]) == (None, ["1"])
  {
    assert FlagMatches("--flags-are-consumed", ["flags-are-consumed"]);
    assert RemoveAll(["--flags-are-consumed", "1"], "--flags-are-consumed") == ["1"] by {
      assert ["--flags-are-consumed", "1"][1..] == ["1"];
    }
    assert ValueMatch("1", ["flags-are-consumed"]) == None;
  }

  /** `--test` is no flag `t`, and the pool is left as it was. */
  lemma FlagIgnoresCommonPrefix()
    ensures FlagStep(["--test"], ["t"]) == (false, ["--test"])
  {
  }

  /**
   * A last token that the alias only starts is not the exact key of
   * `BareAlone`: `value('t')` reads `--test` as a key with no value, yet
   * `flag('t')` does not find it, and both leave the pool as it was.
   */
  lemma LastCommonPrefixKey()
    ensures ValueStep(["--test"], ["t"]) == (None, ["--test"])
    ensures FlagStep(["--test"], ["t"]) == (false, ["--test"])
  {
    assert ValueMatch("--test", ["t"]) == Some(KeyMatch(2, 0, false, "est"));
  }

  lemma JoinedValue()
    ensures ValueStep(["--simplevalue=1"], ["simplevalue"]) == (Some("1"), [])
  {
    JoinedAlone("--simplevalue=1", 2, "simplevalue", "1");
  }

  const LongText := "make sure WE are R3ading = @ll (harcacter5"

  /** Everything after the first `=`, a further `=` included, is the value. */
  lemma JoinedValueKeepsLaterEquals()
    ensures ValueStep(["--longvalue=" + LongText], ["longvalue"]) == (Some(LongText), [])
  {
    assert Dashes(2) + "longvalue" + "=" == "--longvalue=";
    JoinedAlone("--longvalue=" + LongText, 2, "longvalue", LongText);
  }

  lemma SeparateValue()
    ensures ValueStep(["--longvalue", "make sure WE are R3ading @ll (harcacter5"], ["longvalue"])
      == (Some("make sure WE are R3ading @ll (harcacter5"), [])
  {
    SeparateAlone("--longvalue", 2, "longvalue", "make sure WE are R3ading @ll (harcacter5");
  }

  lemma SpaceSeparatedValue()
    ensures ValueStep(["--space-sep-value", "2"], ["space-sep-value"]) == (Some("2"), [])
  {
    SeparateAlone("--space-sep-value", 2, "space-sep-value", "2");
  }

  lemma OneDashJoinedValue()
    ensures ValueStep(["-single-dash-value=3"], ["single-dash-value"]) == (Some("3"), [])
  {
    JoinedAlone("-single-dash-value=3", 1, "single-dash-value", "3");
  }

  /** The key and its value are consumed, leaving nothing for a later `flag`. */
  lemma ValueIsConsumed()
    ensures ValueStep(["--values-are-consumed", "1"], ["values-are-consumed"]) == (Some("1"), [])
  {
    SeparateAlone("--values-are-consumed", 2, "values-are-consumed", "1");
  }

  /**
   * The alias `t` starts the key `--test`, so `value('t')` takes the next
   * token: nothing in the value pattern anchors the end of the alias.
   */
  lemma ValueTakesCommonPrefix()
    ensures ValueStep(["--test", "ing"], ["t"]) == (Some("ing"), [])
  {
    assert ValueMatch("--test", ["t"]) == Some(KeyMatch(2, 0, false, "est"));
  }

  /** `--test=ing` is read as the bare key `t`; as the last token it has no value. */
  lemma JoinedCommonPrefixGivesNil()
    ensures ValueStep(["--test=ing"], ["t"]) == (None, ["--test=ing"])
  {
    assert ValueMatch("--test=ing", ["t"]) == Some(KeyMatch(2, 0, false, "est=ing"));
  }

  /** A key with no following token: `value` answers nil and leaves it, and it is still a flag. */
  lemma LastArgument()
    ensures ValueStep(["--last-arg"], ["last-arg"]) == (None, ["--last-arg"])
    ensures FlagStep(["--last-arg"], ["last-arg"]) == (true, [])
  {
    BareAlone("--last-arg", 2, "last-arg");
  }

  /**
   * With the aliases `f` then `fetch`, `--fetch=1` is taken by `f` with no
   * `=` after it, so the following token becomes the value.
   */
  lemma EarlierAliasWins()
    ensures ValueStep(["--fetch=1", "x"], ["f", "fetch"]) == (Some("x"), [])
  {
    assert FirstStarting(["f", "fetch"], "fetch=1") == Some(0);
    assert ValueMatch("--fetch=1", ["f", "fetch"]) == Some(KeyMatch(2, 0, false, "etch=1"));
  }

  /** The aliases the parser examples query with are plain literals. */
  lemma ExampleAliases()
    ensures ValidNames(["flags-are-consumed"])
    ensures ValidNames(["values-are-consumed"])
    ensures ValidNames(["last-arg"])
  {
  }

  /** A `Yargs` over `--flags-are-consumed 1`: `flag` then `value` for the same alias. */
  method FlagThenValueOnParser() returns (found: bool, v: Option<string>)
    ensures found && v == None
  {
    var y := new Yargs(["--flags-are-consumed", "1"]);
    FlagIsConsumed();
    ExampleAliases();
    found := y.Flag(["flags-are-consumed"]);
    v := y.Value(["flags-are-consumed"]);
  }

  /** A `Yargs` over `--values-are-consumed 1`: `value` then `flag` for the same alias. */
  method ValueThenFlagOnParser() returns (v: Option<string>, found: bool)
    ensures v == Some("1") && !found
  {
    var y := new Yargs(["--values-are-consumed", "1"]);
    ValueIsConsumed();
    ExampleAliases();
    v := y.Value(["values-are-consumed"]);
    found := y.Flag(["values-are-consumed"]);
  }

  /** A `Yargs` over `--last-arg`: `value` then `flag`, and `argv` stays as given. */
  method LastArgumentOnParser() returns (v: Option<string>, found: bool, argv: seq<string>)
    ensures v == None && found && argv == ["--last-arg"]
  {
    var y := new Yargs(["--last-arg"]);
    LastArgument();
    ExampleAliases();
    v := y.Value(["last-arg"]);
    found := y.Flag(["last-arg"]);
    argv := y.Argv();
  }
}
