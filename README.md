# Yargs in Dafny

A model of the `Yargs` class of lib/yargs.rb, a small Ruby command-line token matcher, with proofs of what its queries answer and how they consume their input.

A `Yargs` object keeps two lists:

- `argv`: an untouched copy of the tokens it was built from.
- `remaining`: the pool that the queries consume.

`flag(*names)` (also spelled `flag?`) asks whether some token is exactly `-n` or `--n` for an alias `n`. `value(*names)` reads a key in either of two forms: joined (`--n=v`, `-n=v`), or followed by a separate value token (`--n v`). A successful query deletes what it used from the pool, so a later query for the same aliases sees only what is left.

The model has six modules:

- `Wrappers`: `Option`. Ruby's `nil` appears as `None`.
- `Sequences`: leftmost search, and the two ways Ruby removes array elements. `Array#delete` becomes `RemoveAll`; `Array#delete_at` becomes `DeleteAt`. Also the subsequence order that every query respects.
- `Matching`: the two regular expressions of lib/yargs.rb, written as string functions.
  - `FlagMatches` holds when the token is exactly `-n` or `--n`.
  - `ValueMatch` returns the capture groups, found in the order Ruby's backtracking finds them: two dashes before one, and aliases in the order given.
- `Consumption`: one query as a function of the pool. `FlagStep` and `ValueStep` give the answer and the new pool. Lemmas about them state leftmost-first matching, exactly what is deleted, the round trips of both value forms, and what repeated queries answer.
- `Parser`: the class `Yargs`. It has fields `argv` and `remaining`, and methods `Flag` and `Value` that walk the pool with a loop and return early, as the Ruby code does. Each method is proved to compute `FlagStep` or `ValueStep` of the old pool. Each keeps the class invariant: `remaining` is a subsequence of `argv`.
- `Scenarios`: the examples of spec/yargs.spec.rb and of the comments in lib/yargs.rb, as lemmas and as client methods of the class.

The model follows the code where the code and its descriptions disagree:

- `flag` does not remove every token matching some alias. It finds the leftmost matching token and deletes every copy of that one string (`Array#delete`). A differently spelled match (`-f` after `--f`, or another alias) stays; see `Consumption.FlagAgain`.
- The value pattern has no anchor after the alias, so an alias that merely starts the key matches it. `value('t')` on `--test ing` answers `"ing"` (`Scenarios.ValueTakesCommonPrefix`). The test at spec/yargs.spec.rb:71-73 expects that call to answer nil, so the model and that test disagree.
- `value('t')` on `--test=ing` answers nil, as the test at spec/yargs.spec.rb:75-76 expects. The reason is that the key reads as the bare key `t` in last position, not that the prefix is refused.
- With aliases `f` then `fetch`, `--fetch=1` is matched by `f` without an `=`, so the following token becomes the value (`Scenarios.EarlierAliasWins`).

Preconditions stand in for the regex-engine details the code relies on.

- An alias list must be non-empty, and every alias must be non-empty and free of regex metacharacters (`Matching.ValidNames`). The aliases are interpolated into the patterns unescaped.
- Tokens must contain no line break (`Matching.PlainToken`), because Ruby's `^`, `$` and `.` stop at line breaks.

## Model

| member | source | states |
|---|---|---|
| Parser.Yargs.constructor | lib/yargs.rb:47-50 | `argv` and `remaining` both start equal to the given tokens, and the class invariant holds |
| Parser.Yargs.Argv | lib/yargs.rb:52-54 | no contract of its own: it returns the `const` field `argv`, so the tokens read back are the ones given to the constructor (`Scenarios.LastArgumentOnParser` shows this on a parser) |
| Parser.Yargs.Remaining | lib/yargs.rb:56-58 | the pool read back is a subsequence of `argv` and no longer than it |
| Parser.Yargs.Flag | lib/yargs.rb:61-70 | the answer and the new pool are `FlagStep` of the old pool; `argv` is a `const` field, so no call can change it; the pool stays a subsequence of `argv` |
| Parser.Yargs.Value | lib/yargs.rb:82-100 | the answer and the new pool are `ValueStep` of the old pool; `argv` is a `const` field, so no call can change it; the pool stays a subsequence of `argv` |
| Sequences.FirstWhere | lib/yargs.rb:63 | the search finds nothing exactly when no element qualifies; otherwise it finds an element that qualifies, and no earlier element does |
| Sequences.RemoveAll | lib/yargs.rb:65 | `Array#delete(x)`: no `x` is left, every other element keeps its count, and the result is a subsequence of the input |
| Sequences.InRemoveAll | lib/yargs.rb:65 | an element survives `Array#delete(x)` exactly when it was present and differs from `x` |
| Sequences.DeleteAt | lib/yargs.rb:88 | `Array#delete_at(i)`: one element shorter; elements before `i` stay in place, and later ones move down by one |
| Sequences.DeleteTwo | lib/yargs.rb:92-93 | `delete_at(i + 1)` then `delete_at(i)` cut exactly the key and its value token out of the pool |
| Sequences.SubsequenceReflexive | lib/yargs.rb:49 | a fresh pool is a subsequence of `argv` |
| Sequences.SubsequenceTransitive | lib/yargs.rb:65 | deleting from a pool drawn from `argv` leaves a pool drawn from `argv` |
| Sequences.SubsequenceLength | lib/yargs.rb:56-58 | a subsequence is never longer than the sequence it is drawn from |
| Sequences.CutIsSubsequence | lib/yargs.rb:92-93 | cutting a slice out of the pool leaves a subsequence of it |
| Matching.FlagMatches | lib/yargs.rb:64 | the flag pattern holds exactly when the token equals `-n` or `--n` for some alias `n` |
| Matching.FlagMatchesStripped | lib/yargs.rb:64 | the flag pattern holds exactly when stripping one leading dash, or two, leaves an alias |
| Matching.ReadKeySpells | lib/yargs.rb:86 | `(=?)(.*)` after the alias: the dashes, the alias, `$1` and `$2` spell the token back, and `$1` is empty only when no `=` follows the alias |
| Matching.ValueMatchFound | lib/yargs.rb:86 | the value pattern matches exactly when `--n` or `-n` starts the token for some alias `n` |
| Matching.ValueMatchCapture | lib/yargs.rb:86-87 | a match uses one or two dashes and a listed alias; the capture spells the token back, with `$1` set exactly when an `=` follows the alias |
| Matching.ValueMatchOrder | lib/yargs.rb:86 | the match is the first candidate in backtracking order: every key with two dashes and an earlier alias fails; a one-dash match means no two-dash key and no earlier one-dash key starts the token |
| Matching.ReadKey | lib/yargs.rb:86-87 | no contract of its own: it reads `(=?)(.*)` after a given alias; its meaning is stated by `Matching.ReadKeySpells` |
| Matching.FirstStarting | lib/yargs.rb:83 | no contract of its own: the alternation of the aliases tried in order; its meaning is stated by `Matching.FirstStartingMeaning` |
| Matching.FirstStartingMeaning | lib/yargs.rb:83 | the alternation fails exactly when no alias starts the text; otherwise it picks a listed alias that starts it, and no earlier alias does |
| Matching.ValueMatch | lib/yargs.rb:86 | no contract of its own: the capture groups of the value pattern; its meaning is stated by `Matching.ValueMatchFound`, `Matching.ValueMatchCapture` and `Matching.ValueMatchOrder` |
| Matching.FlagTokenIsKey | lib/yargs.rb:64 | every flag token also matches the value pattern |
| Consumption.FlagStep | lib/yargs.rb:61-70 | no contract of its own: one `flag` query as a function of the pool; its meaning is stated by `Consumption.FlagFound` and `Consumption.FlagStepMeaning` |
| Consumption.ValueStep | lib/yargs.rb:82-100 | no contract of its own: one `value` query as a function of the pool; its meaning is stated by `Consumption.ValueStepMeaning` and `Consumption.ValueStepAt` |
| Consumption.FlagFound | lib/yargs.rb:63-69 | `flag` answers true exactly when some token of the pool is a flag token |
| Consumption.FlagStepMeaning | lib/yargs.rb:63-69 | false leaves the pool unchanged; true means every copy of the leftmost flag token is gone, every other token keeps its count, and the order is kept |
| Consumption.FlagAgain | lib/yargs.rb:65 | after a successful `flag`, a second one succeeds exactly when the pool held a flag token spelled differently from the consumed one |
| Consumption.ValueStepMeaning | lib/yargs.rb:85-99 | `value` answers nil exactly when no token is a key, or when the leftmost key is bare and last; nil leaves the pool unchanged; otherwise the pool loses one token (joined) or two (separate) |
| Consumption.ValueStepAt | lib/yargs.rb:87-95 | at the first key the scan does not pass over, a joined key answers its text and is deleted; a bare key answers the next token, and both are deleted |
| Consumption.ValueStepPassesAll | lib/yargs.rb:99 | a scan that passes over every token answers nil and changes nothing |
| Consumption.ValueStepShrinks | lib/yargs.rb:88-93 | whatever `value` answers, the new pool is a subsequence of the old one |
| Consumption.ValueStepStaysWithin | lib/yargs.rb:88-93 | a pool drawn from `argv` is still drawn from it after `value` |
| Consumption.ValueAgainLooksLater | lib/yargs.rb:25-28 | after a successful `value`, the tokens before its key are unchanged and the next key found is no earlier than the consumed one |
| Consumption.KeyOfSingleAlias | lib/yargs.rb:86 | when the alias list is the single `[n]`, the token `Dashes(d) + n + rest` is read with `d` dashes (a `DashCount`, one or two) and `rest` after the alias; with one dash this needs that `--n` does not also start the token |
| Consumption.OneDashJoinedNotTwoDash | lib/yargs.rb:86 | `--n` never starts `-n=v`, whatever the alias `n`, so the greedy two-dash try cannot take a one-dash joined key |
| Consumption.JoinedKey | lib/yargs.rb:86-87 | when the alias list is the single `[n]`, `-n=v` and `--n=v` are read as a joined key with the text `v`, for every alias `n` |
| Consumption.BareKey | lib/yargs.rb:86-87 | when the alias list is the single `[n]`, bare `-n` and `--n` are read as a key without `=` and with empty text |
| Consumption.KeyAfterPlainTokens | lib/yargs.rb:85 | the scan's first key is the first token that matches the value pattern |
| Consumption.ValueJoinedRoundTrip | lib/yargs.rb:87-89 | for the single alias list `[n]`, a pool whose first key is `-n=v` or `--n=v` answers `v`, which may be empty or hold further `=`; only that token is removed, and the order is kept |
| Consumption.ValueSeparateRoundTrip | lib/yargs.rb:90-94 | for the single alias list `[n]`, a pool whose first key is the bare `-n` or `--n` followed by `w` answers `w` verbatim; only those two tokens are removed, and the order is kept |
| Consumption.LastBareKeyIsAFlag | lib/yargs.rb:76-81 | for the single alias list `[n]`, the exact token `-n` or `--n` in last position, with no key before it: `value` answers nil and keeps the pool, and a following `flag` for that alias answers true |
| Consumption.NoKeyNoFlag | lib/yargs.rb:77 | a pool without any key: `value` answers nil, `flag` answers false, and neither changes the pool |
| Consumption.FlagThenValue | spec/yargs.spec.rb:25-30 | when the pool holds a single key and `flag` consumes it, a `value` for the same aliases answers nil |
| Consumption.ValueThenQueries | spec/yargs.spec.rb:64-69 | when the pool holds a single key and `value` consumes it, a repeated `value` answers nil and a `flag` answers false |
| Scenarios.JoinedAlone | lib/yargs.rb:87-89 | for the single alias list `[n]`, a pool of one joined key `-n=v` or `--n=v` answers its text and ends up empty |
| Scenarios.SeparateAlone | lib/yargs.rb:90-94 | for the single alias list `[n]`, a pool of the exact token `-n` or `--n` and one more token answers that token and ends up empty |
| Scenarios.BareAlone | lib/yargs.rb:79-81 | for the single alias list `[n]`, a pool of just the exact token `-n` or `--n`: `value` answers nil and keeps it; `flag` answers true and empties the pool |
| Scenarios.LastCommonPrefixKey | lib/yargs.rb:64-99 | a last token that the alias only starts is not such an exact key: on `--test` with alias `t`, `value` answers nil and `flag` answers false, and both keep the pool |
| Scenarios.TwoDashFlag | spec/yargs.spec.rb:10-13 | `--simpleflag` is the flag `simpleflag` and is consumed |
| Scenarios.HyphenatedFlag | spec/yargs.spec.rb:15-18 | `--split-flag` is the flag `split-flag` and is consumed |
| Scenarios.OneDashFlag | spec/yargs.spec.rb:20-23 | `-single-dash-flag` is the flag `single-dash-flag` and is consumed |
| Scenarios.FlagIsConsumed | spec/yargs.spec.rb:25-30 | `flag` consumes `--flags-are-consumed`, and `value` on the remaining `1` answers nil |
| Scenarios.FlagIgnoresCommonPrefix | spec/yargs.spec.rb:32-35 | `--test` is not the flag `t`, and the pool is unchanged |
| Scenarios.JoinedValue | spec/yargs.spec.rb:39-42 | `--simplevalue=1` answers `1` |
| Scenarios.JoinedValueKeepsLaterEquals | spec/yargs.spec.rb:44-47 | everything after the first `=`, a later `=` included, is the value |
| Scenarios.SeparateValue | spec/yargs.spec.rb:49-52 | a separate value token is answered verbatim, spaces and all |
| Scenarios.SpaceSeparatedValue | spec/yargs.spec.rb:54-57 | `--space-sep-value 2` answers `2` |
| Scenarios.OneDashJoinedValue | spec/yargs.spec.rb:59-62 | `-single-dash-value=3` answers `3` |
| Scenarios.ValueIsConsumed | spec/yargs.spec.rb:64-69 | the key and its value are both consumed |
| Scenarios.ValueTakesCommonPrefix | spec/yargs.spec.rb:71-73 | the code answers `ing` for `value('t')` on `--test ing`, where the test expects nil |
| Scenarios.JoinedCommonPrefixGivesNil | spec/yargs.spec.rb:75-76 | `value('t')` on `--test=ing` answers nil and keeps the token |
| Scenarios.LastArgument | lib/yargs.rb:79-81 | `--last-arg` alone: `value` answers nil and keeps it; `flag` answers true and consumes it |
| Scenarios.EarlierAliasWins | lib/yargs.rb:86-94 | with aliases `f` then `fetch`, `--fetch=1 x` answers `x` |
| Scenarios.FlagThenValueOnParser | spec/yargs.spec.rb:25-30 | on one `Yargs` object, `flag` answers true and then `value` answers nil |
| Scenarios.ValueThenFlagOnParser | spec/yargs.spec.rb:64-69 | on one `Yargs` object, `value` answers `1` and then `flag` answers false |
| Scenarios.LastArgumentOnParser | lib/yargs.rb:79-81 | on one `Yargs` object, `value` answers nil, `flag` answers true, and `argv` is still the given tokens |

## Left out

- `Yargs.parse` and its block DSL are not modelled. They exist only as a commented sketch (lib/yargs.rb:33-43). The test at spec/yargs.spec.rb:80-87 targets code that is not part of this model.
- The `require 'yargs/version'` line and the deprecated, unused `mode` parameter of the constructor are not modelled; they carry no logic.
- Aliases containing regex metacharacters are excluded by `Matching.ValidNames`. The code interpolates them unescaped, so they would change the pattern rather than be matched literally.
- Tokens containing a line break are excluded by `Matching.PlainToken`, because Ruby's `^`, `$` and `.` are line-sensitive.
- Empty alias lists and empty aliases are excluded. The empty alternation `(?:)` would make `flag` match a bare `-` or `--` and `value` match any dashed token.
- Aliases passed as Ruby symbols (`:f`) are modelled as the strings they interpolate to.
- Parser.Yargs.Remaining: the Ruby getters for `argv` and `remaining` return the live arrays, so a caller could mutate them. The model returns the values read-only and does not capture that aliasing.
- Parser.Yargs.Argv: it simply returns the field as a value and has no contract of its own. That `argv` never changes follows from its declaration as a `const` field.
- `flag?` is an alias of the same method (lib/yargs.rb:71) and is modelled by `Parser.Yargs.Flag`.
- No operation that splits the arguments at `--` or truncates them exists in lib/yargs.rb, so none is modelled.
- Tokens are modelled as sequences of characters. A Ruby `String` whose bytes are invalid for its encoding makes the regex match at lib/yargs.rb:64 and lib/yargs.rb:86 raise `ArgumentError` once the scan reaches it; in the model `flag` and `value` answer instead of raising.
- Parser.Yargs.Value: in the separate form the Ruby answer is `@remaining[index + 1]` (lib/yargs.rb:91), the very `String` object that `@argv` and the caller's array also hold, since the copies at lib/yargs.rb:48-49 are shallow. A caller who mutates that answer in place also changes `argv`. The model treats strings as values: `argv` never changing holds for values only, and object identity of tokens is not captured.
- The Ruby loops walk a copy of `remaining` (`dup`). The model loops over `remaining` itself. The two agree because each loop returns right after its first deletion.
