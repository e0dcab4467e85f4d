# SwiftLint core helpers, modelled in Dafny

This project models three pieces of SwiftLint and proves what they promise.

- **The array utilities of SwiftLintCore.** These are:
  - `unique`, which deduplicates while keeping the order;
  - `group(by:)`, `filterGroup` and the divide-and-merge `parallelFilterGroup`;
  - `partitioned(by:)`;
  - the index-aligned `parallelMap` with `parallelFlatMap` and `parallelCompactMap`;
  - `isNotEmpty` and `onlyElement`.
- **The `invalid_swiftlint_command` rule.** It reports a suppression command in two cases:
  - when the command is glued to the character before the `swiftlint` keyword;
  - when the command is malformed: it has an invalid action, an invalid modifier, or no rules.
- **The pure logic of the `swiftlint configure` wizard.** This covers:
  - how a yes/no answer is read;
  - which top-level directories are offered, and which of them the user picks;
  - the text of the temporary configuration;
  - the order in which the rules with violations are proposed for disabling;
  - `boldify`, `firstPathComponent`, colour detection and the set-backed `unique()`.

Modules:

- `Wrappers` holds `Option`.
- `ArrayExtensions` models `Array+SwiftLint.swift`.
- `StyleViolations` holds the violation record that both other parts use.
- `InvalidSwiftLintCommand` models the rule.
- `ConfigureStrings` holds the string helpers of the wizard.
- `Configure` holds the wizard's questions, directory selection, configuration text and rule ordering.

Code that updates state step by step is written as methods with loops. Most of them are proved equal to a specification function; `parallelMap` and the partition of `partitioned` carry the property itself instead (slot i holds `transform(self[i])`; failing elements first, the same multiset). The methods are:

- `unique`;
- `filterGroup`;
- the slot-filling loop of `parallelMap`;
- the in-place partition of a copy in `partitioned`;
- `askUser`, `checkForSwiftFiles` and `writeTemporaryConfigurationFile`;
- the `seen` set of `Sequence.unique()`.

Lemmas state the properties of those functions. The rest of the code is expressions in the source, and it is modelled as functions.

The "parallel" operations are modelled sequentially. The workers write disjoint slots, so a sequential loop over the same writes gives the same result.

The wizard's terminal and file system become inputs:

- the lines the user types are a list of strings;
- the `.swift` files found, the lint run's violations, whether standard output is a terminal, and the `TERM` variable are parameters.

A question whose input runs out leaves the wizard waiting (`Waits`). The source keeps re-prompting in that case.

## Model

| member | source | states |
|---|---|---|
| ArrayExtensions.DeduplicatedElements | Source/SwiftLintCore/Extensions/Array+SwiftLint.swift:6-12 | every input element is kept and every kept element comes from the input |
| ArrayExtensions.DeduplicatedNoDuplicates | Source/SwiftLintCore/Extensions/Array+SwiftLint.swift:6-12 | no element is kept twice |
| ArrayExtensions.DeduplicatedFirstOccurrenceOrder | Source/SwiftLintCore/Extensions/Array+SwiftLint.swift:6-12 | the kept elements appear in the order of their first occurrences in the input |
| ArrayExtensions.Unique | Source/SwiftLintCore/Extensions/Array+SwiftLint.swift:6-12 | the append loop yields the first-occurrence deduplication: no duplicates, and exactly the input's elements |
| ArrayExtensions.Filtered | Source/swiftlint/Commands/Configure.swift:55 | `filter` keeps exactly the elements passing the test, as an in-order subsequence, and keeps a duplicate-free list duplicate-free |
| ArrayExtensions.WithKeyMembership | Source/SwiftLintCore/Extensions/Array+SwiftLint.swift:72-81 | an element is listed under key k iff it is an input element whose key is k |
| ArrayExtensions.GroupedIsWithKey | Source/SwiftLintCore/Extensions/Array+SwiftLint.swift:72-81 | a key is present iff some element has it; its list is exactly the elements with that key, in input order; elements without a key appear nowhere; no list is empty |
| ArrayExtensions.FilterGroup | Source/SwiftLintCore/Extensions/Array+SwiftLint.swift:72-81 | the dictionary-appending loop yields that grouping: every list is non-empty and holds the elements with its key, in input order |
| ArrayExtensions.MergeConcat | Source/SwiftLintCore/Extensions/Array+SwiftLint.swift:102 | `merging(_:uniquingKeysWith: +)` has the keys of both dictionaries |
| ArrayExtensions.GroupedAppend | Source/SwiftLintCore/Extensions/Array+SwiftLint.swift:95-102 | grouping a concatenation is the per-key concatenation of the two groupings, first part first |
| ArrayExtensions.ParallelFilterGroup | Source/SwiftLintCore/Extensions/Array+SwiftLint.swift:90-103 | equals `filterGroup` on every input, including the order inside each key's list; it delegates below 16 elements, and the recursion on the halves terminates |
| ArrayExtensions.Group | Source/SwiftLintCore/Extensions/Array+SwiftLint.swift:61-63 | every element is listed under its key; each list is non-empty and holds exactly the elements with that key, in input order |
| ArrayExtensions.Partition | Source/SwiftLintCore/Extensions/Array+SwiftLint.swift:116 | the in-place partition puts the failing elements before the pivot and the passing ones after it, and it rearranges the elements without changing them |
| ArrayExtensions.Partitioned | Source/SwiftLintCore/Extensions/Array+SwiftLint.swift:113-118 | `first` holds only failing elements, `second` only passing ones, and `first + second` is a permutation of the input |
| ArrayExtensions.Unwrapped | Source/SwiftLintCore/Extensions/Array+SwiftLint.swift:164-166 | the force-unwrap of the buffer requires every slot to be written, and keeps each slot's value at its index |
| ArrayExtensions.ParallelMap | Source/SwiftLintCore/Extensions/Array+SwiftLint.swift:143-155 | every pre-sized slot is filled before unwrapping; the result has the input's length and holds `transform(self[i])` at index i |
| ArrayExtensions.FlattenedAligned | Source/SwiftLintCore/Extensions/Array+SwiftLint.swift:126 | flattening an index-aligned map is the in-order flat map |
| ArrayExtensions.CompactedAligned | Source/SwiftLintCore/Extensions/Array+SwiftLint.swift:135 | compacting an index-aligned map is the in-order compact map |
| ArrayExtensions.ParallelFlatMap | Source/SwiftLintCore/Extensions/Array+SwiftLint.swift:125-127 | equals the in-order concatenation of the per-element results |
| ArrayExtensions.ParallelCompactMap | Source/SwiftLintCore/Extensions/Array+SwiftLint.swift:134-136 | equals the in-order list of the non-nil per-element results |
| ArrayExtensions.FlatMappedAppend | Source/SwiftLintCore/Extensions/Array+SwiftLint.swift:125-127 | the flat map of a concatenation is the concatenation of the flat maps |
| ArrayExtensions.CompactMappedMembership | Source/SwiftLintCore/Extensions/Array+SwiftLint.swift:134-136 | the compact map is no longer than the input and holds exactly the non-nil results |
| ArrayExtensions.IsNotEmpty | Source/SwiftLintCore/Extensions/Array+SwiftLint.swift:197-199 | true exactly when the collection is not empty |
| ArrayExtensions.OnlyElement | Source/SwiftLintCore/Extensions/Array+SwiftLint.swift:204-206 | non-nil iff there is exactly one element, and then it is that element |
| InvalidSwiftLintCommand.LineOfCommand | Source/SwiftLintBuiltInRules/Rules/Lint/InvalidSwiftLintCommandRule.swift:76-81 | nil iff the 1-based line is not positive or past the last line; otherwise the content of `lines[line - 1]` |
| InvalidSwiftLintCommand.PrecedingCharacter | Source/SwiftLintBuiltInRules/Rules/Lint/InvalidSwiftLintCommandRule.swift:83-89 | non-nil iff the line exists and is non-empty, `start` is given and above 2, and offset `start - 2` lies inside the line; the value is the character at that offset |
| InvalidSwiftLintCommand.IsWhitespace | Source/SwiftLintBuiltInRules/Rules/Lint/InvalidSwiftLintCommandRule.swift:48 | space and tab count as whitespace, and no printable ASCII character does, so `/`, letters and digits before the keyword are never whitespace |
| InvalidSwiftLintCommand.InvalidReason | Source/SwiftLintBuiltInRules/Rules/Lint/InvalidSwiftLintCommandRule.swift:91-102 | the priority order: an invalid action wins, then an invalid modifier, then an empty rule list; nil exactly when none applies |
| InvalidSwiftLintCommand.ReportedReason | Source/SwiftLintBuiltInRules/Rules/Lint/InvalidSwiftLintCommandRule.swift:61 | `invalidReason() ?? description`: the invalid reason when there is one, otherwise the rule description; the action message iff the action is invalid, and the description iff action, modifier and rule list are all valid |
| InvalidSwiftLintCommand.OffendingMembership | Source/SwiftLintBuiltInRules/Rules/Lint/InvalidSwiftLintCommandRule.swift:46-48 | a command is flagged iff its preceding character exists and is neither whitespace nor `/` |
| InvalidSwiftLintCommand.InvalidSwiftLintCommandRule.StyleViolationFor | Source/SwiftLintBuiltInRules/Rules/Lint/InvalidSwiftLintCommandRule.swift:65-72 | the diagnostic carries this rule's identifier, the configured severity, the given reason, and the file path with the command's line and start column |
| InvalidSwiftLintCommand.InvalidSwiftLintCommandRule.BadPrefixViolationsIn | Source/SwiftLintBuiltInRules/Rules/Lint/InvalidSwiftLintCommandRule.swift:46-56 | one bad-prefix diagnostic per flagged command, in command order |
| InvalidSwiftLintCommand.InvalidSwiftLintCommandRule.BadPrefixViolations | Source/SwiftLintBuiltInRules/Rules/Lint/InvalidSwiftLintCommandRule.swift:45-57 | every flagged command, valid or invalid, gets a bad-prefix diagnostic, and every such diagnostic comes from a flagged command |
| InvalidSwiftLintCommand.InvalidSwiftLintCommandRule.InvalidCommandViolations | Source/SwiftLintBuiltInRules/Rules/Lint/InvalidSwiftLintCommandRule.swift:59-72 | one diagnostic per invalid command, in order, at its line and start, with the configured severity; the reason is that command's `invalidReason() ?? description`, and it is the action message exactly when the action is invalid |
| InvalidSwiftLintCommand.InvalidSwiftLintCommandRule.Validate | Source/SwiftLintBuiltInRules/Rules/Lint/InvalidSwiftLintCommandRule.swift:41-43 | the first entries are the bad-prefix diagnostics of the flagged commands, valid ones then invalid ones, in order; then exactly one diagnostic per invalid command, in order, with its reported reason; every diagnostic has the rule's identifier and configured severity, at a command's line and start |
| InvalidSwiftLintCommand.InvalidSwiftLintCommandRule.ValidateSingleCommand | Source/SwiftLintBuiltInRules/Rules/Lint/InvalidSwiftLintCommandRule.swift:41-72 | for a file with one command: its bad-prefix diagnostic if it is flagged, then its invalid-command diagnostic if it is invalid, and nothing else |
| InvalidSwiftLintCommand.InvalidSwiftLintCommandRule.BadPrefixDiagnosticsAtCommands | Source/SwiftLintBuiltInRules/Rules/Lint/InvalidSwiftLintCommandRule.swift:44-72 | every bad-prefix diagnostic has the rule's identifier and configured severity and sits at the line and start of one of the file's commands |
| InvalidSwiftLintCommand.InvalidSwiftLintCommandRule.InvalidDiagnosticsAtCommands | Source/SwiftLintBuiltInRules/Rules/Lint/InvalidSwiftLintCommandRule.swift:58-72 | every invalid-command diagnostic has the rule's identifier and configured severity and sits at the line and start of one of the file's commands |
| InvalidSwiftLintCommand.LetterBeforeKeywordIsFlagged | Source/SwiftLintBuiltInRules/Rules/Lint/InvalidSwiftLintCommandRule.swift:36 | `// sswiftlint:disable unused_import` gets exactly one bad-prefix diagnostic |
| InvalidSwiftLintCommand.SlashBeforeKeywordIsAccepted | Source/SwiftLintBuiltInRules/Rules/Lint/InvalidSwiftLintCommandRule.swift:17 | `//swiftlint:disable:this unused_import` gets no diagnostic |
| InvalidSwiftLintCommand.MissingRulesAreReported | Source/SwiftLintBuiltInRules/Rules/Lint/InvalidSwiftLintCommandRule.swift:26 | `// swiftlint:disable` gets exactly one diagnostic, saying that no rules are specified |
| ConfigureStrings.Components | Source/swiftlint/Commands/Configure.swift:185 | splitting yields at least one piece, and no piece contains the separator |
| ConfigureStrings.JoinedComponents | Source/swiftlint/Commands/Configure.swift:185 | joining the pieces with the separator gives back the string |
| ConfigureStrings.FirstPathComponent | Source/swiftlint/Commands/Configure.swift:184-187 | never nil; holds no `/`; is a prefix of the path; is the whole path when there is no `/`, and is otherwise followed by the first `/` |
| ConfigureStrings.Boldify | Source/swiftlint/Commands/Configure.swift:180-182 | the text sits between `ESC[0;1m` and `ESC[0;0m`, and can be recovered from between them |
| ConfigureStrings.ContainsOccurs | Source/swiftlint/Commands/Configure.swift:172 | `contains` holds exactly when the piece occurs as a slice of the string at some offset |
| ConfigureStrings.TerminalSupportsColor | Source/swiftlint/Commands/Configure.swift:169-177 | colour is supported exactly when standard output is a terminal, `TERM` is set, and `TERM` has both `color` and `256` as slices |
| ConfigureStrings.TerminalSupportsColorExamples | Source/swiftlint/Commands/Configure.swift:169-177 | `xterm-256color` on a terminal supports colour; plain `xterm`, `xterm-color` (no `256`), a missing `TERM` and output that is not a terminal do not |
| ConfigureStrings.Lowercased | Source/swiftlint/Commands/Configure.swift:153-155 | same length, each character lowered on its own, no upper-case letter left; the result is `y` iff the line is `y` or `Y`, and `n` iff it is `n` or `N` |
| ConfigureStrings.StringPrecedesIrreflexive | Source/swiftlint/Commands/Configure.swift:118 | no identifier is greater than itself |
| ConfigureStrings.StringPrecedesTransitive | Source/swiftlint/Commands/Configure.swift:118 | the identifier order is transitive |
| ConfigureStrings.StringPrecedesTotal | Source/swiftlint/Commands/Configure.swift:118 | any two different identifiers are ordered |
| Configure.Configure.ShouldColorizeOutput | Source/swiftlint/Commands/Configure.swift:19-21 | never colour without terminal support; with it, colour unless `--no-colorize` is given without `--colorize` |
| Configure.Classify | Source/swiftlint/Commands/Configure.swift:153-159 | yes iff the line is empty, `y` or `Y`; no iff `n` or `N`; anything else is asked again |
| Configure.AskTakesFirstDecisiveLine | Source/swiftlint/Commands/Configure.swift:147-162 | the first yes-or-no line decides and the lines after it are left unread; there is no answer iff no line is a yes or a no |
| Configure.AskUser | Source/swiftlint/Commands/Configure.swift:147-162 | the re-prompting loop computes that answer |
| Configure.DoYouWantToContinue | Source/swiftlint/Commands/Configure.swift:139-143 | continues on a yes and exits on a no |
| Configure.AcceptedMembership | Source/swiftlint/Commands/Configure.swift:62-68 | a directory is selected exactly when its own answer is a yes, and the selection is an in-order subsequence |
| Configure.AskEachDirectoryAccepts | Source/swiftlint/Commands/Configure.swift:62-68 | with one yes-or-no line per directory, the one-by-one questions select the directories answered yes, and leave the input after them unread |
| Configure.AskEachDirectorySubsequence | Source/swiftlint/Commands/Configure.swift:62-68 | the one-by-one questions never exit, and select an in-order subsequence of the directories |
| Configure.SelectDirectoriesProperties | Source/swiftlint/Commands/Configure.swift:56-74 | accepting all returns every directory; otherwise the result is an in-order subsequence; with no directories it is empty; only the no-directories question can exit |
| Configure.CheckForSwiftFiles | Source/swiftlint/Commands/Configure.swift:56-74 | the question loop computes that selection |
| Configure.Unique | Source/swiftlint/Commands/Configure.swift:203-208 | the set-backed filter keeps the first occurrence of each element, in order |
| Configure.TopLevelDirectories | Source/swiftlint/Commands/Configure.swift:52-55 | no duplicates; every entry is the first path component of a found file and is not a Swift file; every such component is present; the entries keep the order in which their components first occur among the files |
| Configure.IncludedEntriesAppend | Source/swiftlint/Commands/Configure.swift:128 | adding a directory at the end adds its `  - <dir>` line at the end |
| Configure.WriteTemporaryConfigurationFile | Source/swiftlint/Commands/Configure.swift:126-129 | the appending loop yields `included:`, one entry per directory in order, then the opt-in block |
| Configure.IncludedEntriesLines | Source/swiftlint/Commands/Configure.swift:128 | the entries split back into one `  - <dir>` line per directory, in order |
| Configure.ConfigurationLines | Source/swiftlint/Commands/Configure.swift:127-129 | line by line, the configuration is `included:`, `  - <dir>` for each directory in order, `opt_in_rules:`, `  - all`, and a final newline |
| Configure.RanksBefore | Source/swiftlint/Commands/Configure.swift:114-120 | a rule with more violations ranks first; between rules with as many violations, the one with the greater identifier ranks first; a rule ranks before another only if both have violations, it has at least as many, and they differ |
| Configure.RanksBeforeTotal | Source/swiftlint/Commands/Configure.swift:114-120 | the comparator orders any two different rules one way or the other |
| Configure.RanksBeforeTransitive | Source/swiftlint/Commands/Configure.swift:114-120 | the comparator is transitive |
| Configure.RanksBeforeAsymmetric | Source/swiftlint/Commands/Configure.swift:114-120 | the comparator never orders two rules both ways |
| Configure.InsertRanked | Source/swiftlint/Commands/Configure.swift:114-120 | inserting a rule into a ranked list keeps it ranked and adds exactly that rule |
| Configure.SortedRuleIdentifiers | Source/swiftlint/Commands/Configure.swift:113-120 | every key appears, each once: more violations first, and equal counts by identifier descending |
| Configure.RankedOrderIsUnique | Source/swiftlint/Commands/Configure.swift:114-120 | two lists that rank the same rules are equal, so any correct sort gives the same list |
| Configure.RulesToDisable | Source/swiftlint/Commands/Configure.swift:110-123 | no rules without violations or when the user declines; otherwise the distinct rule identifiers among the violations, ranked by the comparator |

## Left out

- The concurrency of `parallelMap`:
  - `DispatchQueue.concurrentPerform`, the `@unchecked Sendable` wrappers and the unsafe buffer pointers are not modelled. The workers' disjoint slot writes are a sequential loop.
  - The wrapper getter that calls `queuedFatalError` is never used.
- `Array.array(of:)`: both overloads rely on dynamic `Any?` casts. One turns a `Set` into an array in an unspecified order. Neither has a counterpart in Dafny.
- `ArrayExtensions.Partition` models the standard library's `partition(by:)`, whose source is not among the modelled files. It follows that method's documented contract: it is not stable, the failing elements come first, and it returns the first passing index.
- `partitioned(by:)` can rethrow an error from the predicate. In the model the predicate is total.
- `InvalidSwiftLintCommand.PrecedingCharacter` requires that `start - 2` is at most the line's length, because Swift traps when it slices a string past its end. The command parser puts `start` inside the line, and the parser is not part of this model.
- `InvalidSwiftLintCommand.PrecedingCharacter` indexes characters, not UTF-16 code units. `String.Index(encodedOffset:)` and grapheme clusters (the emoji examples of the rule) are not modelled.
- `InvalidSwiftLintCommand.IsWhitespace` lists the space separators and tab. It stands for Foundation's `CharacterSet.whitespaces`, whose table is Unicode data.
- Other parts of the framework are not part of this model, and the rule takes their results as input:
  - parsing commands out of comments, and the `Command` and `SwiftLintFile` types (the model takes a command's action, modifier, rule list, line and start);
  - region resolution, superfluous-disable detection, regex custom rules and the collecting-rule engine;
  - the examples file of the attributes rule, which holds no logic.
- `StyleViolation` carries the rule's identifier, not the whole `RuleDescription`.
- The wizard's input and output:
  - `print`, `fflush`, `readLine`, `isatty` and the environment lookup become inputs and return values;
  - listing files with `FileManager`, `fileExists`, `removeItem`, and writing the UUID-named file are left out;
  - `Configure.WriteTemporaryConfigurationFile` returns the configuration text instead of the file name.
- `Configure.AskUser` stops when the input runs out and reports no answer. `readLine` returning nil makes the source prompt forever.
- `Configure.RulesToDisable` takes the lint run's violations as input. The asynchronous `LintOrAnalyzeCommand.lintOrAnalyze` call and its options are not part of this model.
- The `run()` sequence and the checks for existing configuration files are not modelled. They only call `doYouWantToContinue` around file-system queries. `ExitHelper` ending the process is the `Exits` outcome.
- The prompt text (the message with `(Y/n)`, bolded when colour is on) is printed output and is not modelled.
- `Configure.TopLevelDirectories` takes `isSwiftFile` as a parameter, because its definition is not part of this model.
- `ConfigureStrings.Lowercased` lowers ASCII letters only. `lowercased()` follows Unicode case mapping. Only the results `y` and `n` matter, and no other character lowers to those.
- `ConfigureStrings.StringPrecedes` compares characters by code point. Swift compares strings by Unicode canonical ordering.
- `Configure.SortedRuleIdentifiers` is an insertion sort. The standard library's `sorted(by:)` is not part of this model. `Configure.RankedOrderIsUnique` shows that every correct sort gives the same list.
