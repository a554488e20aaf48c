# argparse token matching and dispatch, in Dafny

This project models the parsing core of the header-only C++ library
`argparse` (`include/argparse/argparse.h`), a port of Python's `argparse`.
Given the arguments registered on an `ArgumentParser` and a finite list of
command-line strings, the core produces a string-valued `Namespace`, or it
fails with the error the library would raise.

The model is split into these modules:

- **NArgs** (`nargs.dfy`). The arity kinds (`NArgs`) and the small regular
  expressions `get_nargs_pattern` compiles them to, over the token alphabet
  `A` (argument), `O` (option) and `-` (the `--` separator). `std::regex_search`
  is replaced by an explicit backtracking matcher. It starts at offset 0, 1,
  2, … and backtracks greedily, as the ECMAScript engine does. The consumed
  length is the length of capture group 1, exactly as the source reads it.
- **NArgsFacts** (`nargs_facts.dfy`). A closed form for what each arity
  consumes.
- **Namespaces** (`namespace.dfy`). `set_value`, `set_values`, `append_value`
  and the merge done by subcommand dispatch.
- **Arguments** (`arguments.dfy`). The `Argument` record and
  `get_argument_name`. Value extraction is `__get_values`. Preparation is
  `initialize` together with the action validations. Argument construction is
  `__add_name_or_flags`, including destination derivation.
- **Actions** (`actions.dfy`). The closed set of built-in actions and their
  effect on the namespace. This includes the counting action's
  `stoi`/`size_t` arithmetic.
- **Parsers** (`parser.dfy`). The registration calls: `add_argument`,
  conflict checking, mutually exclusive groups, `add_subparsers` and
  `add_parser`. They are modelled as functions that keep a validity invariant.
- **Classifier** (`classifier.dfy`). `__parse_optional` and the building of
  the `A`/`O`/`-` pattern string.
- **Engine** (`engine.dfy`). `__parse_known_args` and its helpers:
  - the alternating loop over positional runs and options;
  - short-option clusters;
  - `__take_argument` with mutually exclusive groups;
  - the checks for required arguments and groups;
  - recursive subcommand dispatch over the finite tree of parsers.
- **ClassifierFacts** and **EngineFacts**. Properties that span several of
  those steps.
- **Clusters** (`clusters.dfy`). Repeated single-letter options such as
  `-vvv`: the whole cluster is one string, and the option's action runs once
  per letter.

Four behaviours of the source are kept exactly as written:

- **Positional runs.** `__match_arguments_partial` records only capture group 1.
  A run of positional strings is therefore assigned to at most one positional.
  `EngineFacts.TwoRequiredPositionalsFail` proves the consequence: on a command
  line with no option-like strings, two required positionals can never both be
  filled.
- **Unanchored search.** The arity search is not anchored, but the value is
  cut from the front. An option of default arity therefore takes the next
  string whenever any plain argument lies anywhere ahead, even when that next
  string is another option (`EngineFacts.DefaultTakesNext`).
- **Required positionals.** A positional is marked required when it is
  constructed, while its arity is still the default. A later `set_nargs('?')`
  does not undo this, and `initialize` only ever sets the flag. A '?' or '*'
  positional built this way therefore stays required (`Arguments.MakeArgument`,
  `Arguments.Initialize`).
- **Seen arguments.** Every taken argument counts as seen, including for
  required mutually exclusive groups. The source's distinction between seen
  and seen-with-a-non-default value is a TODO that inserts both in every case.

## Model

All source cells refer to `include/argparse/argparse.h`.

| member | source | states |
|---|---|---|
| Strings.Join | include/argparse/argparse.h:59-71 | `utils::join`: no parts give "", one part is returned unchanged, and the result starts with the first part |
| Strings.JoinLength | include/argparse/argparse.h:59-71 | a join is as long as its parts plus one separator between each neighbouring pair |
| Strings.JoinSnoc | include/argparse/argparse.h:59-71 | joining one more part appends the separator and that part |
| Strings.JoinLoop | include/argparse/argparse.h:59-71 | the index loop that adds the separator after every part but the last computes `Join` |
| Strings.PartStartTail | include/argparse/argparse.h:64-68 | part `k` of a joined list starts after the first part, one separator, and part `k - 1` of the rest |
| Strings.JoinPartAt | include/argparse/argparse.h:64-68 | every part appears whole in the joined string, at the offset of the parts and separators before it |
| Strings.JoinSepAt | include/argparse/argparse.h:66-68 | the separator follows every part except the last |
| Strings.JoinIsJoined | include/argparse/argparse.h:59-71 | the joined string has exactly the layout `Joined` describes: the right length, each part at its offset, a separator between neighbours |
| Strings.IndexOf | include/argparse/argparse.h:2090 | `find`: the first index holding the character, and none exactly when it is absent |
| Strings.FirstNotOf | include/argparse/argparse.h:866 | `find_first_not_of`: the first index not holding the character, and none when every character is it |
| Strings.ReplaceChar | include/argparse/argparse.h:872-876 | every '-' of the destination becomes '_' and every other character is kept |
| Strings.NatToString | include/argparse/argparse.h:2745 | `std::to_string` of a count is a non-empty string of digits |
| Strings.LeadingDigits | include/argparse/argparse.h:2743 | the digits `stoi` reads are the longest digit prefix |
| Strings.Stoi | include/argparse/argparse.h:2743 | `stoi` yields a value in the `int` range and fails when no digit follows the sign |
| Strings.DigitsValueNatToString | include/argparse/argparse.h:2743-2745 | reading back the digits `to_string` wrote gives the number |
| Strings.StoiNatToString | include/argparse/argparse.h:2743-2745 | `stoi(to_string(n)) == n` for every `n` in the `int` range |
| Strings.StoiNegative | include/argparse/argparse.h:2743 | `stoi` reads a minus sign followed by digits as the negative number |
| Namespaces.Lookup | include/argparse/argparse.h:253-277 | a missing key reads as the empty list |
| Namespaces.SetValue | include/argparse/argparse.h:253-261 | creates a one-element list or replaces only element 0; other elements and keys are untouched |
| Namespaces.SetValues | include/argparse/argparse.h:263-265 | the key holds exactly the new list; other keys are untouched |
| Namespaces.AppendValues | include/argparse/argparse.h:267-277 | the old list followed by the new values; other keys are untouched |
| Namespaces.Merge | include/argparse/argparse.h:1733-1736 | every child key overwrites the parent; parent keys the child lacks are kept |
| Namespaces.SetValueTwice | include/argparse/argparse.h:253-261 | of two `set_value`s on one key, the later one wins |
| Namespaces.AppendValuesTwice | include/argparse/argparse.h:267-277 | two appends equal one append of both lists in order |
| Namespaces.UpdateTwice | include/argparse/argparse.h:263-265 | of two writes to one key only the later one is visible |
| Errors.QuoteAll | include/argparse/argparse.h:686-697 | each choice is put in single quotes, in order |
| Errors.ArityTextInjective | include/argparse/argparse.h:2188-2201 | the four arity failure messages are pairwise different, and "expected N argument(s)" determines N |
| Errors.CountTextDigit | include/argparse/argparse.h:2188-2201 | only the count message has a digit after "expected " |
| NArgs.NArgsOfChar | include/argparse/argparse.h:493-506 | `NArgs(char)` accepts exactly '?', '*' and '+' |
| NArgs.Strip | include/argparse/argparse.h:580-583 | a stripped pattern contains no `-` class |
| NArgs.OptionalPatternHasNoSep | include/argparse/argparse.h:521-586 | no option's pattern can match a `--`, so an option's value run never spans the separator |
| NArgs.StripRepeat | include/argparse/argparse.h:560-583 | the option form of `N` is exactly `N` argument atoms |
| NArgs.IntegerPatternOptional | include/argparse/argparse.h:521-586 | an option of arity `n >= 1` compiles to `n` argument atoms; arity 0 and suppress compile to the empty group |
| NArgs.PositionalPatternCloses | include/argparse/argparse.h:521-586 | a positional's pattern opens no capture group of its own |
| NArgs.PatternCloses | include/argparse/argparse.h:2185-2186 | every compiled pattern has the enclosing group 1 the matcher reads |
| NArgs.Bt | include/argparse/argparse.h:2185 | a successful match at a position returns one end per capture group, each inside the text |
| NArgs.SearchFrom | include/argparse/argparse.h:2185 | the search returns the leftmost start at which the pattern matches, and fails only when no start matches |
| NArgs.Group1Length | include/argparse/argparse.h:2185-2204 | a group-1 length exists exactly when the pattern matches at some start |
| NArgs.MatchArgument | include/argparse/argparse.h:2178-2204 | the consumed length never exceeds the remaining pattern |
| NArgs.ArityFailureOf | include/argparse/argparse.h:2188-2201 | default arity fails with "expected one", '?' with "at most one", '+' with "at least one", and `N` with "expected N" |
| NArgs.MatchPartial | include/argparse/argparse.h:2207-2227 | with no positional left nothing is assigned, and a run never exceeds the remaining pattern |
| NArgs.MatchPartialLongest | include/argparse/argparse.h:2207-2227 | the partial match fails exactly when no leading run of the remaining positionals matches, and otherwise reports the first group of the longest leading run that matches |
| NArgs.PartialFrom | include/argparse/argparse.h:2213-2224 | never reports more than the text, and reports nothing when no positional is tried |
| NArgs.PartialFromFails | include/argparse/argparse.h:2213-2224 | trying the first `k` positionals, then one fewer, and so on, fails exactly when none of those leading runs matches |
| NArgs.ChosenFacts | include/argparse/argparse.h:2213-2224 | the run the search settles on matches with the reported length, is non-empty whenever something is reported, and every longer run up to `k` fails |
| NArgs.PartialFromLongest | include/argparse/argparse.h:2213-2224 | a successful search reports the first group of a matching leading run such that every longer run up to `k` fails |
| NArgs.SinglePositional | include/argparse/argparse.h:2207-2227 | with one positional left the partial match is exactly that positional's own match |
| NArgs.Concat | include/argparse/argparse.h:2215-2217 | the concatenated positional pattern has one group per positional |
| NArgsFacts.MatchOptionalInteger | include/argparse/argparse.h:2178-2204 | an option of arity `n >= 1` takes `n` strings whenever `n` consecutive arguments occur anywhere ahead, and fails otherwise |
| NArgsFacts.DefaultIsInteger1Optional | include/argparse/argparse.h:521-586 | an option of default arity compiles to the same pattern as one of arity 1 |
| NArgsFacts.MatchOptionalDefault | include/argparse/argparse.h:2178-2204 | an option of default arity takes one string exactly when an argument occurs anywhere ahead |
| NArgsFacts.MatchOptionalNothing | include/argparse/argparse.h:2178-2204 | arity 0 and suppress take nothing and never fail |
| NArgsFacts.MatchOptionalOptional | include/argparse/argparse.h:2178-2204 | '?' takes one string exactly when an argument comes next |
| NArgsFacts.MatchOptionalZeroOrMore | include/argparse/argparse.h:2178-2204 | '*' takes the run of arguments that follows directly |
| NArgsFacts.MatchOptionalRemainder | include/argparse/argparse.h:2178-2204 | remainder takes the run of arguments and options that follows directly |
| NArgsFacts.MatchOptionalOneOrMore | include/argparse/argparse.h:2178-2204 | '+' takes the run starting at the first argument ahead, and fails when there is none |
| NArgsFacts.MatchExplicitValue | include/argparse/argparse.h:2249 | against the single `A` of an explicit value: arity 0 takes nothing, `N >= 2` fails, and every other arity takes the value |
| NArgsFacts.MatchPositionalNothing | include/argparse/argparse.h:2207-2227 | a positional of arity 0 still swallows leading separators; by `NArgs.SinglePositional` this is what the partial match assigns when it is the only positional left |
| NArgsFacts.MatchPositionalZeroOrMore | include/argparse/argparse.h:2207-2227 | a '*' positional takes the run of arguments and separators ahead; by `NArgs.SinglePositional` this is what the partial match assigns when it is the only positional left |
| Arguments.ArgumentName | include/argparse/argparse.h:771-786 | option strings first (the name starts with the first of them), else the destination, else the choices in braces, else "" |
| Arguments.ArgumentNameLayout | include/argparse/argparse.h:771-786 | an option's name is its option strings laid out with "/" between them; a name from choices is the choices laid out with "," between them, inside the braces |
| Arguments.TwoPartNames | include/argparse/argparse.h:771-786 | `-f` and `--foo` are shown as `-f/--foo`, and two choices `a`, `b` of an argument without destination as `{a,b}` |
| Arguments.DropSeparator | include/argparse/argparse.h:924-929 | a leading "--" is dropped, except for subparser and remainder arity |
| Arguments.RawValues | include/argparse/argparse.h:930-972 | suppress yields the marker; given strings are kept; '?' with none yields the const for an option and the default for a positional; '*' positional with none yields the default |
| Arguments.FirstInvalid | include/argparse/argparse.h:974-983 | the first non-empty value outside the choices; only the first value for a subparser |
| Arguments.GetValues | include/argparse/argparse.h:922-986 | succeeds exactly when there are no choices or every checked value is empty or allowed; the error names the argument, the offending value and the choices |
| Arguments.Validate | include/argparse/argparse.h:2609-2620 | store and append reject arity 0, and reject a const unless the arity is '?' |
| Arguments.Initialize | include/argparse/argparse.h:2517-2540 | a positional whose arity is not '?', or is '*' without a default, becomes required; a required argument stays required; validation failures propagate |
| Arguments.SetRequired | include/argparse/argparse.h:644-650 | `required` is rejected for positionals and otherwise set |
| Arguments.SetNargsChar | include/argparse/argparse.h:493-506 | only '?', '*' and '+' are accepted as character arities |
| Arguments.InitAction | include/argparse/argparse.h:2586-2773 | constant, flag, count and help actions take arity 0 and are not required; positionals accept only store and help |
| Arguments.FirstLong | include/argparse/argparse.h:863-868 | the first option string whose second character is '-' |
| Arguments.StripPrefix | include/argparse/argparse.h:865-870 | leading prefix characters are removed; an option made only of them has no destination |
| Arguments.DeriveDest | include/argparse/argparse.h:862-876 | the destination comes from the first long option, else the first option, with '-' turned into '_' |
| Arguments.FirstUnprefixed | include/argparse/argparse.h:903-915 | the first option string that does not start with the prefix character |
| Arguments.MakeArgument | include/argparse/argparse.h:808-888 | names starting with the prefix make an option with those option strings; a single other name makes a required positional named by it; a bad option string is rejected |
| Parsers.Empty | include/argparse/argparse.h:1618-1632 | a parser with nothing registered is valid |
| Parsers.Conflicting | include/argparse/argparse.h:2359-2366 | exactly the new option strings already registered |
| Parsers.CheckConflict | include/argparse/argparse.h:2359-2378 | rejects an argument exactly when one of its option strings is taken, listing those strings |
| Parsers.MapAll | include/argparse/argparse.h:1862-1868 | every option string of the new argument maps to it and other keys are kept |
| Parsers.Appended | include/argparse/argparse.h:1849-1868 | the argument is appended and its option strings are mapped to it |
| Parsers.AppendMapSound | include/argparse/argparse.h:1849-1868 | after a conflict-free append every map entry still names an option listing that key |
| Parsers.AppendMapComplete | include/argparse/argparse.h:1849-1868 | after the append every option string of every argument is in the map |
| Parsers.AppendNegativeFlag | include/argparse/argparse.h:1852-1857 | the negative-number flag is set exactly when some option string looks like a negative number |
| Parsers.AppendKeepsValid | include/argparse/argparse.h:1845-1868 | appending a conflict-free argument keeps the parser valid |
| Parsers.AppendStructure | include/argparse/argparse.h:1845-1868 | appending an argument that is not a subcommand keeps kinds, groups, the subcommand index and the children consistent, and leaves the children alone |
| Parsers.Register | include/argparse/argparse.h:1845-1868 | fails exactly on a conflict; otherwise appends the argument, maps its option strings, keeps old entries and updates the negative-number flag |
| Parsers.AddArgument | include/argparse/argparse.h:1667-1682 | construction errors propagate; otherwise the argument is registered at the end and nothing else changes |
| Parsers.HelpArgumentBuilds | include/argparse/argparse.h:1876-1881 | the automatic `-h`/`--help` argument is always accepted |
| Parsers.NewParser | include/argparse/argparse.h:1618-1632 | a new parser is valid, allows abbreviations, and holds the help argument exactly when asked |
| Parsers.AddMutexGroup | include/argparse/argparse.h:1689-1692 | appends an empty group and changes nothing else |
| Parsers.AddToGroup | include/argparse/argparse.h:2564-2571 | registers the argument as `add_argument` does and appends it to the group |
| Parsers.Reconfigure | include/argparse/argparse.h:640-650 | changing an argument's settings keeps the parser valid and touches no other argument; a positional's `required` cannot be changed |
| Parsers.AddSubparsers | include/argparse/argparse.h:1694-1751 | a second subcommand argument is rejected; the first is appended with its destination suppressed |
| Parsers.SubcommandKeepsValid | include/argparse/argparse.h:1694-1751 | appending the subcommand argument to a parser that has none keeps it valid, with that argument as its one subcommand |
| Parsers.FirstTaken | include/argparse/argparse.h:2465-2515 | the first alias that is already a subcommand name |
| Parsers.AdoptKeepsValid | include/argparse/argparse.h:2465-2515 | adding a valid child keeps the parser valid |
| Parsers.NamesMapped | include/argparse/argparse.h:2465-2515 | the name and every alias select the new child, and every other entry of the child index is kept |
| Parsers.Adopt | include/argparse/argparse.h:2465-2515 | the name and aliases become choices and select the child, and other entries are kept |
| Parsers.AddParser | include/argparse/argparse.h:2465-2515 | rejects a parser without a subcommand argument, a taken name and a taken alias; otherwise adopts the child |
| Actions.Increment | include/argparse/argparse.h:2743-2745 | fails exactly when `stoi` fails; otherwise it adds one through `size_t` and gives the successor for counts below the `int` maximum |
| Actions.IncrementMinusOne | include/argparse/argparse.h:2743-2745 | a stored "-1" wraps through `size_t` to "0" |
| Actions.IncrementMinusTwo | include/argparse/argparse.h:2743-2745 | a stored "-2" becomes 2^64 - 1 |
| Actions.Apply | include/argparse/argparse.h:2586-2773 | each action writes only its destination: store, constants, append and append-const, and count; it fails exactly on help, an invalid store, or an unreadable count |
| Actions.ApplyCount | include/argparse/argparse.h:2736-2747 | counting on a stored list replaces its first element by the `Increment` of it and keeps the rest |
| Actions.CountStep | include/argparse/argparse.h:2736-2747 | one count on a stored `m` stores `m + 1` |
| Actions.CountThen | include/argparse/argparse.h:2736-2747 | one count on a stored `m` followed by `k - 1` more ends where the `k - 1` counts from `m + 1` end |
| Actions.CountTo | include/argparse/argparse.h:2736-2747 | `k` counts from a stored `m` store the fixed total `m + k` |
| Actions.CountFrom | include/argparse/argparse.h:2736-2747 | `k` counts from a stored `m` store `m + k` |
| Actions.CountFirstThen | include/argparse/argparse.h:2736-2747 | the first count on nothing stores "1", and `k - 1` more counts follow from there |
| Actions.CountFromNothing | include/argparse/argparse.h:2736-2747 | `k >= 1` counts from nothing store `k` |
| Actions.StoreTwice | include/argparse/argparse.h:2590-2607 | storing twice keeps only the later value |
| Actions.AppendTwice | include/argparse/argparse.h:2684-2691 | appending twice appends both lists in order |
| Classifier.LongCandidates | include/argparse/argparse.h:2107-2123 | exactly the keys in which the token occurs at the start and nowhere later |
| Classifier.ShortCandidates | include/argparse/argparse.h:2126-2138 | exactly the keys equal to the first two characters or abbreviated by the whole token |
| Classifier.SplitAtEquals | include/argparse/argparse.h:2089-2093 | the text before the first '=' and the text after it |
| Classifier.ParseOptional | include/argparse/argparse.h:2071-2176 | no prefix means positional; an exact key resolves with no value; a resolved target is the map's entry; an unknown option contains no space and is not a negative number while no option looks like one; ambiguity lists at least two registered keys |
| Classifier.Classify | include/argparse/argparse.h:1898-1922 | one symbol and one resolution per string, with `O` exactly where an option was resolved |
| Classifier.ClassifySymbols | include/argparse/argparse.h:1905-1922 | only the first "--" is `-`, every later string is `A`, and every string before it is classified on its own |
| Classifier.ClassifyFails | include/argparse/argparse.h:1905-1922 | the command line is rejected exactly when a string before the first "--" is ambiguous |
| ClassifierFacts.ExplicitAfterEquals | include/argparse/argparse.h:2089-2101 | `opt=value` with a registered `opt` resolves to it with the value, and no abbreviation search happens |
| ClassifierFacts.UniqueAbbreviation | include/argparse/argparse.h:2107-2157 | a long token that abbreviates exactly one option resolves to it when abbreviations are allowed |
| ClassifierFacts.AmbiguousAbbreviation | include/argparse/argparse.h:2107-2153 | a long token that abbreviates two options fails as ambiguous, listing both |
| ClassifierFacts.AmbiguousShort | include/argparse/argparse.h:2126-2153 | a single-prefix token two options could stand for fails as ambiguous |
| ClassifierFacts.BarePrefix | include/argparse/argparse.h:2079-2087 | the bare prefix character is positional unless it is registered |
| ClassifierFacts.NoAbbreviation | include/argparse/argparse.h:2107-2123 | without abbreviations an unregistered long token never selects an option |
| ClassifierFacts.ShortOptionWithValue | include/argparse/argparse.h:2126-2157 | `-fVALUE` resolves to `-f` with the value `VALUE` when no option extends the token |
| ClassifierFacts.NegativeNumberChars | include/argparse/argparse.h:2392-2399 | after its sign, a negative number holds only digits and a dot |
| ClassifierFacts.NegativeNumberIsPositional | include/argparse/argparse.h:2159-2165 | a negative number is positional when no option looks like one and none starts with it |
| ClassifierFacts.UnknownOption | include/argparse/argparse.h:2159-2175 | a prefixed token matching nothing is positional if it contains a space or is a negative number while no option looks like one, and an unknown option otherwise |
| ClassifierFacts.FoonAbbreviatesFoonley | include/argparse/argparse.h:2107-2157 | `--foon` against `--foobar` and `--foonley` resolves to `--foonley` |
| Engine.PositionalsFrom | include/argparse/argparse.h:2380-2390 | exactly the positionals, in registration order |
| Engine.Others | include/argparse/argparse.h:1888-1894 | the other members of a group |
| Engine.ConflictsIn | include/argparse/argparse.h:1884-1896 | exactly the other members of the groups containing the argument: every such member is listed, and every listed entry is one; nothing for an ungrouped argument |
| Engine.FirstSeen | include/argparse/argparse.h:2341-2349 | the first entry of the conflict list already seen (no earlier entry was seen), and none exactly when no entry was seen |
| Engine.SeeKeepsMutexFree | include/argparse/argparse.h:2341-2349 | marking an argument seen whose conflicts were not seen keeps every group to at most one seen member |
| Engine.Required | include/argparse/argparse.h:2517-2529 | the required flag after `initialize` |
| Engine.FirstInvalidArgument | include/argparse/argparse.h:1791-1792 | an error exactly when some argument fails its action's validation |
| Engine.Prefill | include/argparse/argparse.h:1790-1801 | exactly the destinations with a real default are added; every other key is kept |
| Engine.PrefillLastWins | include/argparse/argparse.h:1790-1801 | the last argument pre-filling a destination decides its value |
| Engine.MatchFor | include/argparse/argparse.h:2178-2204 | the match result, or the argument's arity error |
| Engine.FollowingValues | include/argparse/argparse.h:2281-2290 | an option without an explicit value takes exactly the strings its arity matches right after it, and fails exactly when its arity does not match |
| Engine.Cluster | include/argparse/argparse.h:2240-2290 | on success there is at least one use, every use names an option, the walk ends past the option string, and an explicit value gives at most one use more than its characters |
| Engine.ExplicitCluster | include/argparse/argparse.h:2248-2279 | with an explicit value: at least one and at most one use more than its characters, every use names an option, and the walk moves past the option string |
| Engine.OptionUsesCons | include/argparse/argparse.h:2254 | a use of an option in front of uses of options are all uses of options |
| Engine.NextOption | include/argparse/argparse.h:1941-1949 | the first option at or after the cursor, and none exactly when none remains |
| Engine.MissingNames | include/argparse/argparse.h:2014-2029 | empty exactly when every required argument was seen, and never longer than the arguments scanned |
| Engine.MissingNamesUnseen | include/argparse/argparse.h:2014-2029 | the reported names are the names of the unseen required arguments, one for one and in argument order |
| Engine.UnseenSound | include/argparse/argparse.h:2016-2025 | every index `Unseen` lists is of a required argument that was not seen |
| Engine.UnseenComplete | include/argparse/argparse.h:2016-2025 | every required argument not seen is listed by `Unseen` |
| Engine.UnseenSorted | include/argparse/argparse.h:2016 | `Unseen` lists indices in increasing order, the order of `args_list_` |
| Engine.MissingNamesAll | include/argparse/argparse.h:2014-2029 | every unseen required argument's name is reported, and nothing else is |
| Engine.ListedNames | include/argparse/argparse.h:2052-2055 | a single member is listed by name exactly when its help is not suppressed |
| Engine.ListedNamesAppend | include/argparse/argparse.h:2052-2055 | listing two runs of members lists the first run's names followed by the second's, so the listing keeps member order |
| Engine.UnmetGroup | include/argparse/argparse.h:2047-2066 | a required group none of whose members was seen, with every earlier required group met, so it is the first; none exactly when all required groups are met |
| Engine.CheckRequired | include/argparse/argparse.h:2014-2066 | succeeds exactly when every required argument and required group was seen; otherwise all missing names are reported together, and only when none is missing, the first unmet group with its unsuppressed members' names |
| Engine.ParseArgs | include/argparse/argparse.h:1775-1787 | fails exactly when the run fails or leaves extras, which are all command-line strings; destinations written are those of the parser tree |
| Engine.Run | include/argparse/argparse.h:1789-1813 | on success every required argument and required group was seen, groups hold at most one seen member, and extras come from the command line |
| Engine.WalkAll | include/argparse/argparse.h:1940-2012 | the walk, the final positional run and the trailing extras keep the invariant |
| Engine.Walk | include/argparse/argparse.h:1940-1997 | the invariant is kept and no option remains past the stopping point |
| Engine.WalkStep | include/argparse/argparse.h:1950-1996 | one pass of the loop keeps the invariant and moves strictly forward |
| Engine.ConsumeOptionals | include/argparse/argparse.h:2229-2303 | an unknown option goes to extras and advances by exactly one; otherwise the cursor moves forward and the invariant is kept |
| Engine.ConsumePositionals | include/argparse/argparse.h:2305-2325 | at most one positional is assigned; with none, nothing changes |
| Engine.AdvanceKeepsInv | include/argparse/argparse.h:2316-2322 | assigning the next waiting positional keeps the invariant and makes it one of the assigned ones |
| Engine.TakeAll | include/argparse/argparse.h:2293-2297 | the collected uses are taken in order, keeping the invariant |
| Engine.TakeArgument | include/argparse/argparse.h:2327-2357 | the argument becomes seen, the invariant is kept, and nothing but the seen set and the namespace changes |
| Engine.Effect | include/argparse/argparse.h:2335-2356 | when it succeeds, no group partner was seen and only destinations of the parser tree were written |
| Engine.SeeKeepsInv | include/argparse/argparse.h:2333-2349 | marking a conflict-free argument seen and writing only destinations of the tree keeps the invariant |
| Engine.Act | include/argparse/argparse.h:2355 | an action writes only destinations of the parser tree |
| Engine.Dispatch | include/argparse/argparse.h:1715-1737 | an unknown subcommand name is rejected with the choices; otherwise only destinations of the tree are written |
| Engine.DispatchMerges | include/argparse/argparse.h:1715-1737 | a successful dispatch parsed the rest with the named child, copied every child key over the parent, kept the other keys, and stored the name when the destination is not suppressed |
| Engine.ClassifySound | include/argparse/argparse.h:1898-1922 | the classified line is well formed and every resolution agrees with the option map |
| EngineFacts.ClusterNothing | include/argparse/argparse.h:2282-2290 | an option of arity 0 without a value is used once and consumes only itself |
| EngineFacts.FollowingNothing | include/argparse/argparse.h:2281-2290 | an option of arity 0 takes no string after it and moves on by one |
| EngineFacts.ClusterStep | include/argparse/argparse.h:2251-2269 | a zero-arity short option is used once, and the rest of its value after one character is read as the cluster of whichever registered option that character names |
| EngineFacts.ClusterPair | include/argparse/argparse.h:2248-2290 | `-xv` with two different zero-arity options uses `x` and then `v`, each once, and consumes one string |
| EngineFacts.ClusterThenValue | include/argparse/argparse.h:2248-2276 | `-xfVALUE` uses `x` once and gives `VALUE` to the single-value option `f` |
| EngineFacts.ClusterUnknownLetter | include/argparse/argparse.h:2251-2269 | a peeled character naming no option fails as an ignored explicit argument |
| EngineFacts.ClusterRepeats | include/argparse/argparse.h:2251-2269 | `-v` followed by `n` more `v`s is `n + 1` uses consuming one string |
| EngineFacts.MatchForExplicit | include/argparse/argparse.h:2249 | an explicit value given to arity 0 or suppress is not taken, one given to arity `N >= 2` is an arity error, and every other arity takes it |
| EngineFacts.ExplicitValueTaken | include/argparse/argparse.h:2248-2277 | an explicit value is the option's one value unless its arity is 0 or at least 2 |
| EngineFacts.ExplicitValueRejected | include/argparse/argparse.h:2248-2280 | an explicit value on a long zero-arity option is ignored-explicit; on arity `N >= 2` it is an arity error |
| EngineFacts.DefaultTakesNext | include/argparse/argparse.h:2282-2290 | default arity takes the next string whenever an argument lies anywhere ahead, and fails otherwise |
| EngineFacts.FollowingDefault | include/argparse/argparse.h:2281-2290 | default arity takes the next string exactly when an argument lies anywhere ahead |
| EngineFacts.ConflictRejected | include/argparse/argparse.h:2340-2350 | an argument whose group partner was already seen fails with "not allowed with" |
| EngineFacts.PlainClassified | include/argparse/argparse.h:1905-1922 | a command line without prefixed strings classifies without error and resolves no option |
| EngineFacts.PlainWalk | include/argparse/argparse.h:1940 | with no option ahead the loop does not run |
| EngineFacts.PlainWalkAll | include/argparse/argparse.h:1940-2008 | with no option resolved, the whole walk assigns at most the first positional |
| EngineFacts.PlainStart | include/argparse/argparse.h:1898-1922 | a command line without prefixed strings classifies into a line with no option resolved, ready for the walk |
| EngineFacts.FirstPositionalOnly | include/argparse/argparse.h:2316-2322 | once at most one positional was assigned, every positional marked seen is the first |
| EngineFacts.OnePositionalPerRun | include/argparse/argparse.h:2207-2227 | without option-like strings, the only positional a run can mark seen is the first |
| EngineFacts.TwoRequiredPositionalsFail | include/argparse/argparse.h:1999-2036 | without option-like strings, two required positionals make the parse fail |
| Clusters.TakeNothing | include/argparse/argparse.h:2327-2357 | taking an ungrouped arity-0 option applies its action to no values and marks it seen |
| Clusters.TakeStep | include/argparse/argparse.h:2293-2297 | the first of `k` uses applies the action once and leaves `k - 1` uses |
| Clusters.TakeRepeated | include/argparse/argparse.h:2293-2297 | taking it `k` times applies the action `k` times and marks it seen once |
| EngineFacts.ConsumeCluster | include/argparse/argparse.h:2229-2303 | a recognised option string is consumed by taking the tuples its cluster yields, in order, and the cursor moves to where the cluster stopped |
| Clusters.ConsumeRepeated | include/argparse/argparse.h:2240-2297 | a cluster of `n + 1` copies of a letter whose uses end in a known namespace is consumed as one string and marks the option seen |
| Clusters.ClusterTaken | include/argparse/argparse.h:2240-2297 | a cluster of `n + 1` copies of the letter applies the action `n + 1` times and consumes one string |
| Clusters.CountCluster | include/argparse/argparse.h:2240-2297 | `-vvv` on a counting option with nothing stored stores "3" and consumes one string |

## Left out

- Help and usage text (`HelpFormatter`), printing, and process exit are not modelled. The help action ends in a `HelpExit` failure and carries no text. The `exit_on_error` catch-and-exit wrapper is dropped too: every failure is simply returned.
- Typed retrieval (`Namespace::get`, `str_to_numeric`) is left out because it is floating point and C library conversion. `stoi` is modelled only for the counting action, and its skipping of leading whitespace is ignored.
- `std::regex` itself is not modelled. The patterns are interpreted by an explicit matcher over the three-symbol alphabet they use.
- Arguments are identified by position, not by object address and hashing.
- The ambiguity message lists its candidates in `unordered_map` order. That order is unspecified, so candidates are a set, and `Errors.Message` takes the order as a parameter.
- Argument-group titles, descriptions, help strings other than suppression, and program names are left out because they affect only text.
- A user-supplied callable action cannot be expressed in a closed set of actions, so it is left out.
- `Argument::prefix_char_` is a process-wide static in the source. It is modelled as a field of each parser.
- A negative count passed to `NArgs(size_t)` is out of scope, since `nargs` is a `nat`.
- The store action reads `values[0]` of an empty list when arity is '?' and neither const nor default is set. That is undefined behaviour in C++, and it is modelled as the failure `EmptyValues`. The subcommand action with no values is handled the same way.
- "unexpected option string" (2139-2141) cannot be reached once the earlier branches are taken, so it has no counterpart.
- The source leaves the namespace partly updated when a failure is thrown. The model returns only the failure.
- Parsers.AddParser: the child parser is passed in already configured. The source default-constructs it and lets the caller configure it through the returned reference, and this model has no references. On a rejected alias, the source has already inserted the name; the model returns the failure without that partial update. When there is no subcommand argument, the source's error names the argument `add_parser` was called on; the model has no such argument and names "".
- Engine.Act: its contract states only which keys an action may write. The per-action effects are stated on `Actions.Apply` and `Engine.DispatchMerges`.
- Engine.Cluster: its contract gives bounds only. The exact results are stated by the `EngineFacts` cluster lemmas.
- Engine.ExplicitCluster: its contract gives bounds only, for the same reason.
