# suggestions — a Dafny model

A model of the `suggestions` crate: a "did you mean?" helper for command-line tools, and the
small command-line program that wraps it.

* **Ranker** (`suggestions.dfy`, module `Suggestions`, after `src/lib.rs`). `provide_suggestions`
  scores every possible value against a target. It keeps the values whose score is strictly
  above the confidence threshold 0.8. It stable-sorts them by score in ascending order, so the
  best match is last, and returns the values. `provide_a_suggestion` pops the last one. The
  scoring metric (Jaro-Winkler, from the external `strsim` crate) is a function parameter
  `similarity`. The model relies on no property of it. The map/filter pipeline is modelled as functions.
  The in-place `sort_by` is an insertion sort on an `array`, proved equal to a functional stable
  sort `StableSort`. `StableSort` is proved sorted, a permutation of its input, and stable. It is
  also proved to be the *only* sorted sequence that keeps the input order within each score
  level, so any correct stable sort (the standard library's included) gives the same result.
* **Command line** (`cli.dfy`, module `Cli`, after `src/main.rs`). The I/O is taken out. The
  arguments (without the program name) and the text on standard input are parameters. The
  result is what is written to standard output, plus the exit status. Each loop of `main` is a
  method proved against a reference definition:
  * `ParseArgs` (the flag loop) is proved against `ParseOf`;
  * `ReadPossibleValues` (the `read_line` loop) is proved against `Lines`/`TrimEndCrLf`;
  * `Report` (the loop over the targets, with the `--single`/`--required` policy and the
    text/JSON rendering) is proved against `ReportOf`;
  * `Run` (the whole of `main`) is proved against `RunOf`.

  `str::escape_default` is a function parameter `escape`.

Where the documentation and the code disagree, the model follows the code:

* The doc comments at `src/lib.rs:25` and `src/lib.rs:67-68` say the suggestions go from best
  to worst. The code sorts ascending (`src/lib.rs:79`), and the doc example at
  `src/lib.rs:22-26` agrees with the code. So the best match is the *last* element.
* Because of that, `--single` (`src/main.rs:97-99`) keeps the *lowest*-scoring survivor. That is
  not the one `provide_a_suggestion` returns (`SingleKeepsLowestScore`).
* Survivors must score strictly more than 0.8. A score of exactly 0.8 is excluded.

## Model

| member | source | states |
|---|---|---|
| `Suggestions.Confident` | src/lib.rs:77 | every kept candidate is one of the input candidates and scores strictly above 0.8 |
| `Suggestions.PipelineKeepsPassing` | src/lib.rs:75-78 | the score/filter/collect pipeline keeps exactly the possible values that score above the threshold, in input order, each occurrence kept |
| `Suggestions.InsertKeepsSorted` | src/lib.rs:79 | inserting into a sorted sequence keeps it sorted; the result is one longer and holds exactly the old entries and the inserted one |
| `Suggestions.InsertIsPermutation` | src/lib.rs:79 | insertion adds exactly the inserted element to the multiset of entries and of values |
| `Suggestions.InsertLevel` | src/lib.rs:79 | insertion puts the new element after every existing element of the same score |
| `Suggestions.StableSortIsSortedPermutation` | src/lib.rs:79 | the sorted survivors are ordered by non-decreasing score and are a permutation of the survivors |
| `Suggestions.StableSortIsStable` | src/lib.rs:79 | for every score level, the entries with that score appear in the same relative order as in the input |
| `Suggestions.StableSortIsUnique` | src/lib.rs:79 | any sequence that is sorted by score and keeps the input order within every score level equals the modelled sort, so the choice of stable sort algorithm is unobservable |
| `Suggestions.InsertPos` | src/lib.rs:79 | the insertion point: everything after it scores strictly more than the inserted entry, the entry just before it does not |
| `Suggestions.InsertPosIs` | src/lib.rs:79 | the insertion point is the one position with no larger score just before it and only larger scores after it |
| `Suggestions.InsertionStep` | src/lib.rs:79 | one in-place insertion step leaves the array prefix equal to the functional insertion and the rest of the array unchanged |
| `Suggestions.SortByConfidence` | src/lib.rs:79 | the in-place sort leaves the array equal to the stable sort of its old contents |
| `Suggestions.AboveThreshold` | src/lib.rs:77 | every returned suggestion scores strictly above 0.8, so a score of exactly 0.8 is excluded |
| `Suggestions.IsPermutationOfPassing` | src/lib.rs:75-80 | the suggestions are a permutation of the passing possible values: duplicates are kept and nothing outside the input appears |
| `Suggestions.IsAscending` | src/lib.rs:79 | scores are non-decreasing by position, so the best match is last |
| `Suggestions.IsStable` | src/lib.rs:79 | suggestions with equal scores keep their relative input order |
| `Suggestions.PassingEmpty` | src/lib.rs:77 | no value passes the filter exactly when every possible value scores at most 0.8 |
| `Suggestions.EmptyIffNonePass` | src/lib.rs:71-80 | the result is empty exactly when no possible value scores above 0.8, in particular when there are no possible values |
| `Suggestions.PassingMembers` | src/lib.rs:77 | a value passes exactly when it is a possible value scoring above 0.8 |
| `Suggestions.ProvideSuggestions` | src/lib.rs:71-81 | the method returns the specified suggestions, a permutation of the passing values in ascending score order |
| `Suggestions.ProvideASuggestion` | src/lib.rs:57-60 | returns `Some` of the last suggestion and `None` exactly when no possible value scores above 0.8; the value returned is a possible value above the threshold that no possible value outscores |
| `Cli.FlagRun` | src/main.rs:35-66 | the length of the leading run of option-setting flags: every argument before it sets an option, the one at it does not |
| `Cli.ApplyFields` | src/main.rs:38-53 | consuming one argument switches on the option it names, if any, and leaves every other option as it was |
| `Cli.FlagsOfMembers` | src/main.rs:35-66 | after the flag loop each option is on exactly when one of its spellings was consumed |
| `Cli.FlagsIgnoreOrderAndRepetition` | src/main.rs:38-53 | the options depend only on which flags were given, so repeating a flag is the same as giving it once |
| `Cli.ParseArgs` | src/main.rs:33-71 | the flag loop returns the specified parse: the flags and targets, or the exit it ends with |
| `Cli.FlagRunIs` | src/main.rs:35 | a prefix of option-setting flags followed by the end or by a non-setting argument is exactly the leading run |
| `Cli.ParseStopsAtFirstNonDash` | src/main.rs:35-67 | the first argument without a leading `-`, and every argument after it, is a target, even one that starts with `-` |
| `Cli.ParseAfterDoubleDash` | src/main.rs:54-57 | `--` is consumed and ends flag parsing; all later arguments are targets verbatim, and exit status 1 follows when there are none |
| `Cli.ParseHelpExits` | src/main.rs:44-47 | a help flag reached by parsing ends it with a request for the usage text, whatever follows the flag |
| `Cli.HelpPrintsUsage` | src/main.rs:44-47 | a help flag reached by parsing makes the program print the usage text and exit with status 0, without reading any input |
| `Cli.ParseUnknownFlagFails` | src/main.rs:58-62 | any other dash-prefixed argument reached by parsing, a lone `-` included, exits with status 1, even when a help flag follows |
| `Cli.ParseWithoutTargetFails` | src/main.rs:67-71 | when only option-setting flags are given, the exit status is 1 |
| `Cli.ParsedShape` | src/main.rs:35-67 | a successful parse has at least one target; the targets are a suffix of the arguments, preceded only by option-setting flags and possibly one closing `--`; the flags are those the consumed arguments name |
| `Cli.ReadLine` | src/main.rs:76 | the next line is the shortest prefix of the unread input that ends in a newline, or all of it; it is empty only at end of input |
| `Cli.TrimEndCrLf` | src/main.rs:79 | the trimmed line is a prefix of the line; only carriage returns and newlines were removed; it does not itself end in one |
| `Cli.ReadPossibleValues` | src/main.rs:72-87 | the read loop yields one possible value per line, trimmed |
| `Cli.ConcatCons` | src/main.rs:75-87 | concatenating a line in front of the rest prepends it to the concatenation |
| `Cli.LinesRoundTrip` | src/main.rs:75-87 | the lines put back together are the input: reading loses nothing and adds nothing |
| `Cli.LinesShape` | src/main.rs:76 | every line is non-empty and has a newline at most as its last character; every line but the last ends in a newline |
| `Cli.LinesCount` | src/main.rs:75-87 | one value per newline, plus one for a final line without a newline; end of input adds no extra value |
| `Cli.TrimmedLineHasNoNewline` | src/main.rs:79 | a line with a newline only at its end has no newline left after trimming |
| `Cli.PossibleValuesShape` | src/main.rs:79 | no possible value contains a newline or ends in a carriage return; a line holding only a newline gives the empty value |
| `Cli.Policy` | src/main.rs:97-99 | `--single` keeps a prefix of at most one element, never empties a list, and without it the list is unchanged |
| `Cli.JoinSnoc` | src/main.rs:108-121 | appending a part adds a separator only when something came before it |
| `Cli.PrintSuggestions` | src/main.rs:104-121 | the inner loop prints the suggestions, each quoted and escaped under `-q` or `--json`, separated by `,` in JSON mode and by a single space otherwise |
| `Cli.ReportStops` | src/main.rs:100-103 | under `--required`, reaching the first target whose list is empty ends the output with status 7, after the earlier targets and, in JSON mode, the separator already printed |
| `Cli.FirstEmpty` | src/main.rs:100-103 | the index of the first target with an empty list: all before it are non-empty |
| `Cli.RenderedSnoc` | src/main.rs:91-128 | printing one more target appends `,\n` in JSON mode after the first target, then that target's entry |
| `Cli.Report` | src/main.rs:88-132 | the target loop prints what the reference definition gives: the entries of all targets (in JSON mode inside `{`…`}`, separated by `,\n`) with status 0, or, under `--required`, the entries before the first target without suggestions and status 7 |
| `Cli.SingleKeepsLowestScore` | src/main.rs:97-99 | with `--single` the one suggestion kept is the first, lowest-scoring survivor; no passing value scores below it |
| `Cli.ReportStatus` | src/main.rs:100-103 | the exit status is 7 exactly when `--required` is set and some target has no suggestion, and 0 otherwise |
| `Cli.RequiredStopsAtFirstTargetWithoutSuggestion` | src/main.rs:92-103 | under `--required` the first target for which no possible value scores above 0.8 ends the run with status 7, after the earlier targets were printed |
| `Cli.JsonIsBraced` | src/main.rs:88-132 | a completed JSON run starts with `{` on its own line and ends with `}` on its own line |
| `Cli.JoinHasNoNewline` | src/main.rs:108-121 | joining newline-free parts with a newline-free separator gives a newline-free text |
| `Cli.TextEntryIsOneLine` | src/main.rs:108-126 | in plain text mode without `-q`, a target's suggestions (none holding a newline) are printed on exactly one line, separated by single spaces and ended by a newline |
| `Cli.Run` | src/main.rs:32-133 | the whole program: parse, then read the possible values, then print the suggestions, with the output and the exit status of the reference definition |

## Left out

- `strsim::jaro_winkler` is not part of this model. It is the parameter `similarity`, and the model relies on no property of it. Its symmetry, identity, range and the concrete scores in the doc examples (`src/lib.rs:6-41`) are not modelled.
- Scores are `real`, not `f64`. The `partial_cmp(..).unwrap_or(Ordering::Equal)` fallback for NaN (`src/lib.rs:79`) does not arise, because the order on reals is total.
- `str::escape_default` is not part of this model. It is the parameter `escape`.
- Standard error is not modelled: the messages at `src/main.rs:59-60`, `69`, `83` and `101` are not produced. Only standard output and the exit status are.
- The read-error branch (`src/main.rs:82-85`) is left out, including input that is not valid UTF-8. Input is a `string` that can always be read.
- The standard library's `sort_by` is a merge-based sort. The model uses an insertion sort. `StableSortIsUnique` shows that both give the same result.
- `provide_suggestions` accepts any iterator of string-like items. The model takes a `seq<string>`. The `.pop()` of `provide_a_suggestion` takes the last element of that sequence.
- `Report` receives the per-target suggestion lists as a ghost argument. This is only for the proof and changes no behaviour. `Run` supplies them.
- The inner rendering loop is the separate method `PrintSuggestions`. A target's text is appended in one piece rather than printed piece by piece. How much output reaches the terminal before `process::exit` is not modelled.
- The `assert_eq!` at `src/main.rs:65` always holds, and is not modelled.
