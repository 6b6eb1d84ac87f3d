/**
  The command-line front end of src/main.rs with its I/O taken out: the arguments and the
  text read from standard input are parameters, and what the program writes to standard
  output together with its exit status is the result. Messages written to standard error
  are not modelled.
 */
module Cli {
  import opened Suggestions

  /** The options of the command line, all off by default. */
  datatype Flags = Flags(singleSuggestion: bool, quoteOutput: bool, json: bool, requireSuggestions: bool)

  const NoFlags := Flags(false, false, false, false)

  /** What the process writes to standard output, and its exit status. */
  datatype Outcome = Outcome(stdout: string, status: nat)

  /**
    The result of argument parsing: go on with flags and targets, print the usage text and
    exit with status 0, or exit with the given outcome.
   */
  datatype Parse = Parsed(flags: Flags, targets: seq<string>) | HelpRequested | Exited(outcome: Outcome)

  /** The usage text printed by -h / --help. */
  const Help: string := @"suggestions
A minimal CLI wrapping the 'suggestions' library.
Source: https://github.com/Techcable/rust-suggestions

Accepts ""possible values"" from standard input.

USAGE:
    suggestions [options] <target>...

OPTIONS:
    -s, --single             Return only a single suggestion for each target
    -q, --quote              Quote each ouptut suggestion
    --json                   Output information as valid json
    --required               Exit with an error if any of the targets have no suggestions
    -h, --help               Print this help message
"

  // ---------------------------------------------------------------------------
  // Argument parsing
  // ---------------------------------------------------------------------------

  predicate StartsWithDash(arg: string)
  {
    |arg| > 0 && arg[0] == '-'
  }

  predicate IsHelpFlag(arg: string)
  {
    arg == "-h" || arg == "--help"
  }

  /** The flags that set an option and let parsing continue. */
  predicate IsSettingFlag(arg: string)
  {
    arg == "-s" || arg == "--single" || arg == "-q" || arg == "--quote" || arg == "--json" || arg == "--required"
  }

  predicate IsKnownFlag(arg: string)
  {
    IsSettingFlag(arg) || IsHelpFlag(arg) || arg == "--"
  }

  /** The effect of consuming one argument: a recognised flag switches on its option. */
  function Apply(flags: Flags, arg: string): Flags
  {
    if arg == "-s" || arg == "--single" then flags.(singleSuggestion := true)
    else if arg == "-q" || arg == "--quote" then flags.(quoteOutput := true)
    else if arg == "--json" then flags.(json := true)
    else if arg == "--required" then flags.(requireSuggestions := true)
    else flags
  }

  /** The options after consuming `consumed`, one argument at a time from the defaults. */
  function FlagsOf(consumed: seq<string>): Flags
  {
    if consumed == [] then NoFlags else Apply(FlagsOf(consumed[..|consumed| - 1]), consumed[|consumed| - 1])
  }

  /** The length of the leading run of option-setting flags. */
  function FlagRun(args: seq<string>): (k: nat)
    ensures k <= |args|
    ensures forall i :: 0 <= i < k ==> IsSettingFlag(args[i])
    ensures k < |args| ==> !IsSettingFlag(args[k])
  {
    if args == [] || !IsSettingFlag(args[0]) then 0 else 1 + FlagRun(args[1..])
  }

  /**
    Reference definition of argument parsing. After the leading run of option-setting flags
    comes either the end of the arguments, a help flag (exit 0 with the usage text), another
    dash-prefixed argument: "--" (consumed; the rest are targets) or an unknown flag (exit 1),
    or the first target. Without targets the exit status is 1.
   */
  function ParseOf(args: seq<string>): Parse
  {
    var k := FlagRun(args);
    if k < |args| && IsHelpFlag(args[k]) then HelpRequested
    else if k < |args| && StartsWithDash(args[k]) && args[k] != "--" then Exited(Outcome("", 1))
    else
      var targets := if k < |args| && args[k] == "--" then args[k + 1..] else args[k..];
      if targets == [] then Exited(Outcome("", 1)) else Parsed(FlagsOf(args[..k]), targets)
  }

  /** Each option is on exactly when one of its spellings was consumed. */
  lemma {:induction false} FlagsOfMembers(consumed: seq<string>)
    ensures FlagsOf(consumed) == Flags("-s" in consumed || "--single" in consumed,
                                       "-q" in consumed || "--quote" in consumed,
                                       "--json" in consumed,
                                       "--required" in consumed)
  {
    if consumed != [] {
      var init, last := consumed[..|consumed| - 1], consumed[|consumed| - 1];
      assert consumed == init + [last];
      FlagsOfMembers(init);
      ApplyFields(FlagsOf(init), last);
      assert forall a :: a in consumed <==> a in init || a == last;
    }
  }

  /** Consuming an argument switches on the option it names, and no other. */
  lemma ApplyFields(flags: Flags, arg: string)
    ensures Apply(flags, arg) == Flags(flags.singleSuggestion || arg == "-s" || arg == "--single",
                                       flags.quoteOutput || arg == "-q" || arg == "--quote",
                                       flags.json || arg == "--json",
                                       flags.requireSuggestions || arg == "--required")
  {
  }

  lemma FlagsOfSnoc(consumed: seq<string>, arg: string)
    ensures FlagsOf(consumed + [arg]) == Apply(FlagsOf(consumed), arg)
  {
    assert (consumed + [arg])[..|consumed|] == consumed;
  }

  /** The flag loop: consume dash-prefixed arguments until "--" or the first other argument. */
  method ParseArgs(args: seq<string>) returns (p: Parse)
    ensures p == ParseOf(args)
  {
    var flags := NoFlags;
    var i := 0;
    ghost var sawDoubleDash := false;
    ghost var consumed: seq<string> := [];
    while i < |args| && StartsWithDash(args[i])
      invariant i <= |args| && consumed == args[..i]
      invariant forall j :: 0 <= j < i ==> IsSettingFlag(args[j])
      invariant flags == FlagsOf(consumed)
      invariant !sawDoubleDash
    {
      var s := args[i];
      if s == "-s" || s == "--single" {
        flags := flags.(singleSuggestion := true);
      } else if s == "-q" || s == "--quote" {
        flags := flags.(quoteOutput := true);
      } else if s == "-h" || s == "--help" {
        ParseHelpExits(args, i);
        return HelpRequested;
      } else if s == "--json" {
        flags := flags.(json := true);
      } else if s == "--required" {
        flags := flags.(requireSuggestions := true);
      } else if s == "--" {
        ParseAfterDoubleDash(args, i);
        sawDoubleDash := true;
        i := i + 1;
        break;
      } else {
        ParseUnknownFlagFails(args, i);
        return Exited(Outcome("", 1));
      }
      FlagsOfSnoc(consumed, s);
      consumed := consumed + [s];
      i := i + 1;
    }
    if !sawDoubleDash && i < |args| {
      ParseStopsAtFirstNonDash(args, i);
    } else if !sawDoubleDash {
      ParseWithoutTargetFails(args);
    }
    var targets := args[i..];
    if targets == [] {
      return Exited(Outcome("", 1));
    }
    return Parsed(flags, targets);
  }

  /** The leading run of option-setting flags is exactly args[..k]. */
  lemma FlagRunIs(args: seq<string>, k: nat)
    requires k <= |args|
    requires forall j :: 0 <= j < k ==> IsSettingFlag(args[j])
    requires k < |args| ==> !IsSettingFlag(args[k])
    ensures FlagRun(args) == k
  {
  }

  /**
    The first argument that does not start with '-' and every argument after it are targets,
    even those that start with '-'.
   */
  lemma ParseStopsAtFirstNonDash(args: seq<string>, k: nat)
    requires k < |args| && !StartsWithDash(args[k])
    requires forall j :: 0 <= j < k ==> IsSettingFlag(args[j])
    ensures ParseOf(args) == Parsed(FlagsOf(args[..k]), args[k..])
  {
    FlagRunIs(args, k);
  }

  /** "--" is consumed and ends flag parsing; everything after it is a target, verbatim. */
  lemma ParseAfterDoubleDash(args: seq<string>, k: nat)
    requires k < |args| && args[k] == "--"
    requires forall j :: 0 <= j < k ==> IsSettingFlag(args[j])
    ensures ParseOf(args) == if k + 1 == |args| then Exited(Outcome("", 1))
                             else Parsed(FlagsOf(args[..k]), args[k + 1..])
  {
    FlagRunIs(args, k);
  }

  /** A help flag reached by parsing ends it with a request for the usage text. */
  lemma ParseHelpExits(args: seq<string>, k: nat)
    requires k < |args| && IsHelpFlag(args[k])
    requires forall j :: 0 <= j < k ==> IsSettingFlag(args[j])
    ensures ParseOf(args) == HelpRequested
  {
    FlagRunIs(args, k);
  }

  /**
    A dash-prefixed argument that is not a known flag (a lone "-" included) reached by parsing
    exits with status 1, whatever follows it (a later help flag too).
   */
  lemma ParseUnknownFlagFails(args: seq<string>, k: nat)
    requires k < |args| && StartsWithDash(args[k]) && !IsKnownFlag(args[k])
    requires forall j :: 0 <= j < k ==> IsSettingFlag(args[j])
    ensures ParseOf(args) == Exited(Outcome("", 1))
  {
    FlagRunIs(args, k);
  }

  /** Arguments made only of option-setting flags leave no target: exit status 1. */
  lemma ParseWithoutTargetFails(args: seq<string>)
    requires forall j :: 0 <= j < |args| ==> IsSettingFlag(args[j])
    ensures ParseOf(args) == Exited(Outcome("", 1))
  {
    FlagRunIs(args, |args|);
  }

  /**
    A successful parse has at least one target; the targets are a suffix of the arguments
    and everything before them is option-setting flags, possibly ended by "--"; the flags are
    those the consumed arguments name.
   */
  lemma ParsedShape(args: seq<string>)
    requires ParseOf(args).Parsed?
    ensures var p := ParseOf(args); var n := |args| - |p.targets|;
      && p.targets != []
      && p.targets == args[n..]
      && p.flags == FlagsOf(args[..n])
      && forall j :: 0 <= j < n ==> IsSettingFlag(args[j]) || (j == n - 1 && args[j] == "--")
  {
    var k := FlagRun(args);
    if k < |args| && args[k] == "--" {
      assert args[..k + 1][..k] == args[..k];
    }
  }

  /** Options depend only on which flags were given: order and repetition do not matter. */
  lemma FlagsIgnoreOrderAndRepetition(p: seq<string>, q: seq<string>)
    requires forall a :: a in p <==> a in q
    ensures FlagsOf(p) == FlagsOf(q)
  {
    FlagsOfMembers(p);
    FlagsOfMembers(q);
  }

  // ---------------------------------------------------------------------------
  // Reading the possible values
  // ---------------------------------------------------------------------------

  /**
    The next line of the unread input, with its newline: the shortest prefix that ends in a
    newline, or all of the input when it holds no newline. Empty exactly at end of input.
   */
  function ReadLine(rest: string): (line: string)
    ensures line <= rest
    ensures line == [] <==> rest == []
    ensures forall k :: 0 <= k < |line| - 1 ==> line[k] != '\n'
    ensures line == rest || line[|line| - 1] == '\n'
  {
    if rest == [] then []
    else if rest[0] == '\n' then ['\n']
    else [rest[0]] + ReadLine(rest[1..])
  }

  /** The input cut into the lines ReadLine returns one after the other. */
  function Lines(input: string): seq<string>
    decreases |input|
  {
    if input == [] then []
    else
      var line := ReadLine(input);
      [line] + Lines(input[|line|..])
  }

  /** `s` without all its trailing carriage returns and newlines. */
  function TrimEndCrLf(s: string): (r: string)
    ensures r <= s
    ensures r == [] || (r[|r| - 1] != '\r' && r[|r| - 1] != '\n')
    ensures forall k :: |r| <= k < |s| ==> s[k] == '\r' || s[k] == '\n'
  {
    if s != [] && (s[|s| - 1] == '\r' || s[|s| - 1] == '\n') then TrimEndCrLf(s[..|s| - 1]) else s
  }

  function Trimmed(lines: seq<string>): seq<string>
  {
    seq(|lines|, i requires 0 <= i < |lines| => TrimEndCrLf(lines[i]))
  }

  /** The read loop: one possible value per line, trailing carriage returns and newlines removed. */
  method ReadPossibleValues(input: string) returns (values: seq<string>)
    ensures values == Trimmed(Lines(input))
  {
    values := [];
    var rest := input;
    assert Trimmed(Lines(input)) == [] + Trimmed(Lines(input));
    while true
      invariant values + Trimmed(Lines(rest)) == Trimmed(Lines(input))
      decreases |rest|
    {
      var line := ReadLine(rest);
      if |line| == 0 {
        break;
      }
      LinesUnfold(rest);
      assert Trimmed(Lines(rest)) == [TrimEndCrLf(line)] + Trimmed(Lines(rest[|line|..]));
      values := values + [TrimEndCrLf(line)];
      rest := rest[|line|..];
    }
    assert Lines(rest) == [];
  }

  function Concat(parts: seq<string>): string
  {
    if parts == [] then "" else Concat(parts[..|parts| - 1]) + parts[|parts| - 1]
  }

  lemma {:induction false} ConcatCons(part: string, parts: seq<string>)
    ensures Concat([part] + parts) == part + Concat(parts)
    decreases |parts|
  {
    if parts != [] {
      var n := |parts| - 1;
      assert ([part] + parts)[..n + 1] == [part] + parts[..n];
      ConcatCons(part, parts[..n]);
    }
  }

  /** Reading loses nothing: the lines put back together are the input. */
  lemma {:induction false} LinesRoundTrip(input: string)
    ensures Concat(Lines(input)) == input
    decreases |input|
  {
    if input != [] {
      var line := ReadLine(input);
      LinesUnfold(input);
      LinesRoundTrip(input[|line|..]);
      ConcatCons(line, Lines(input[|line|..]));
    }
  }

  /**
    Every line is non-empty and holds a newline at most as its last character; every line
    but the last ends in a newline.
   */
  lemma {:induction false} LinesShape(input: string)
    ensures forall line :: line in Lines(input) ==>
      line != [] && forall k :: 0 <= k < |line| - 1 ==> line[k] != '\n'
    ensures forall i :: 0 <= i < |Lines(input)| - 1 ==> Lines(input)[i][|Lines(input)[i]| - 1] == '\n'
    decreases |input|
  {
    if input != [] {
      var line := ReadLine(input);
      LinesUnfold(input);
      LinesShape(input[|line|..]);
      if line == input {
        assert input[|line|..] == [];
      }
    }
  }

  /** A line that holds a newline at most as its last character counts one newline or none. */
  lemma NewlinesInLine(line: string)
    requires line != []
    requires forall k :: 0 <= k < |line| - 1 ==> line[k] != '\n'
    ensures multiset(line)['\n'] == if line[|line| - 1] == '\n' then 1 else 0
  {
    var body := line[..|line| - 1];
    assert line == body + [line[|line| - 1]];
    assert '\n' !in body;
  }

  /** Lines read off one line at a time: the first line, then the lines of what follows it. */
  lemma LinesUnfold(input: string)
    requires input != []
    ensures var line := ReadLine(input);
      && line != []
      && input == line + input[|line|..]
      && Lines(input) == [line] + Lines(input[|line|..])
  {
    var line := ReadLine(input);
    assert line == input[..|line|];
    assert input == input[..|line|] + input[|line|..];
  }

  /** The counting step of LinesCount: one line read off the front of the input. */
  lemma LinesCountStep(input: string, line: string, rest: string, restLines: nat)
    requires input == line + rest && line != []
    requires forall k :: 0 <= k < |line| - 1 ==> line[k] != '\n'
    requires line[|line| - 1] != '\n' ==> rest == []
    requires restLines == multiset(rest)['\n'] + (if rest != [] && rest[|rest| - 1] != '\n' then 1 else 0)
    ensures 1 + restLines == multiset(input)['\n'] + (if input[|input| - 1] != '\n' then 1 else 0)
  {
    assert multiset(input) == multiset(line) + multiset(rest);
    NewlinesInLine(line);
    if rest != [] {
      assert input[|input| - 1] == rest[|rest| - 1];
    }
  }

  /**
    One line per newline, plus one for a final line without a newline; end of input adds no
    line of its own.
   */
  lemma {:induction false} LinesCount(input: string)
    ensures |Lines(input)| == multiset(input)['\n'] + (if input != [] && input[|input| - 1] != '\n' then 1 else 0)
    decreases |input|
  {
    if input != [] {
      var line := ReadLine(input);
      var rest := input[|line|..];
      LinesUnfold(input);
      LinesCount(rest);
      LinesCountStep(input, line, rest, |Lines(rest)|);
    }
  }

  /** A line with a newline at most at its end loses every newline to trimming. */
  lemma TrimmedLineHasNoNewline(line: string)
    requires forall k :: 0 <= k < |line| - 1 ==> line[k] != '\n'
    ensures '\n' !in TrimEndCrLf(line)
  {
    var v := TrimEndCrLf(line);
    if '\n' in v {
      var k :| 0 <= k < |v| && v[k] == '\n';
    }
  }

  /**
    Every possible value read contains no newline and does not end in a carriage return; a
    line holding only a newline gives the empty value.
   */
  lemma PossibleValuesShape(input: string)
    ensures forall v :: v in Trimmed(Lines(input)) ==> '\n' !in v && (v == [] || v[|v| - 1] != '\r')
    ensures forall i :: 0 <= i < |Lines(input)| && Lines(input)[i] == "\n" ==> Trimmed(Lines(input))[i] == ""
  {
    LinesShape(input);
    var lines := Lines(input);
    forall v | v in Trimmed(lines) ensures '\n' !in v && (v == [] || v[|v| - 1] != '\r') {
      var i :| 0 <= i < |lines| && Trimmed(lines)[i] == v;
      assert lines[i] in lines;
      TrimmedLineHasNoNewline(lines[i]);
    }
  }

  // ---------------------------------------------------------------------------
  // Per-target policy and output
  // ---------------------------------------------------------------------------

  /**
    --single cuts a list longer than one down to its first element; the list is never
    emptied by this, and without --single it is left alone.
   */
  function Policy(flags: Flags, suggestions: seq<string>): (r: seq<string>)
    ensures r <= suggestions
    ensures r == [] <==> suggestions == []
    ensures flags.singleSuggestion ==> |r| <= 1
    ensures !flags.singleSuggestion ==> r == suggestions
  {
    if flags.singleSuggestion && |suggestions| > 1 then suggestions[..1] else suggestions
  }

  /** A suggestion as printed: quoted and escaped under --quote or --json. */
  function Quote(flags: Flags, escape: string -> string, s: string): string
  {
    if flags.quoteOutput || flags.json then "\"" + escape(s) + "\"" else s
  }

  function Quoted(flags: Flags, escape: string -> string, suggestions: seq<string>): seq<string>
  {
    seq(|suggestions|, i requires 0 <= i < |suggestions| => Quote(flags, escape, suggestions[i]))
  }

  lemma QuotedSnoc(flags: Flags, escape: string -> string, suggestions: seq<string>, k: nat)
    requires k < |suggestions|
    ensures Quoted(flags, escape, suggestions[..k + 1])
         == Quoted(flags, escape, suggestions[..k]) + [Quote(flags, escape, suggestions[k])]
  {
  }

  /** The parts joined with `sep` between consecutive ones. */
  function Join(sep: string, parts: seq<string>): string
  {
    if parts == [] then ""
    else if |parts| == 1 then parts[0]
    else Join(sep, parts[..|parts| - 1]) + sep + parts[|parts| - 1]
  }

  lemma JoinSnoc(sep: string, parts: seq<string>, part: string)
    ensures Join(sep, parts + [part]) == if parts == [] then part else Join(sep, parts) + sep + part
  {
    assert (parts + [part])[..|parts|] == parts;
  }

  /**
    What one target contributes: in text mode its suggestions separated by single spaces and
    a newline; in JSON mode a `"target":[...]` member with the suggestions separated by commas.
   */
  function Entry(flags: Flags, escape: string -> string, target: string, suggestions: seq<string>): string
  {
    var quoted := Quoted(flags, escape, suggestions);
    if flags.json then "  \"" + escape(target) + "\":[" + Join(",", quoted) + "]"
    else Join(" ", quoted) + "\n"
  }

  function Entries(flags: Flags, escape: string -> string, targets: seq<string>, lists: seq<seq<string>>, n: nat)
    : seq<string>
    requires n <= |targets| == |lists|
  {
    seq(n, i requires 0 <= i < n => Entry(flags, escape, targets[i], lists[i]))
  }

  /** The output after the first n targets: in JSON mode the opening brace and the entries separated by ",\n". */
  function Rendered(flags: Flags, escape: string -> string, targets: seq<string>, lists: seq<seq<string>>, n: nat)
    : string
    requires n <= |targets| == |lists|
  {
    var entries := Entries(flags, escape, targets, lists, n);
    if flags.json then "{\n" + Join(",\n", entries) else Concat(entries)
  }

  /** The index of the first empty list, or the number of lists when none is empty. */
  function FirstEmpty(lists: seq<seq<string>>): (k: nat)
    ensures k <= |lists|
    ensures forall i :: 0 <= i < k ==> lists[i] != []
    ensures k < |lists| ==> lists[k] == []
  {
    if lists == [] || lists[0] == [] then 0 else 1 + FirstEmpty(lists[1..])
  }

  /**
    Reference definition of the output stage. With --required, the first target with no
    suggestion ends the process with status 7 after the targets before it have been printed
    (in JSON mode followed by the separator already written for it); otherwise every target is
    printed, in JSON mode inside braces, and the status is 0.
   */
  function ReportOf(flags: Flags, escape: string -> string, targets: seq<string>, lists: seq<seq<string>>): Outcome
    requires |targets| == |lists|
  {
    var stop := if flags.requireSuggestions then FirstEmpty(lists) else |lists|;
    if stop < |lists| then
      Outcome(Rendered(flags, escape, targets, lists, stop) + (if flags.json && stop > 0 then ",\n" else ""), 7)
    else
      Outcome(Rendered(flags, escape, targets, lists, |lists|) + (if flags.json then "\n}\n" else ""), 0)
  }

  /** The suggestion list printed for each target, after the --single policy. */
  function SuggestionLists(flags: Flags, targets: seq<string>, values: seq<string>, similarity: Similarity)
    : seq<seq<string>>
  {
    seq(|targets|, i requires 0 <= i < |targets| => Policy(flags, SuggestionsFor(targets[i], values, similarity)))
  }

  lemma ConcatSnoc(parts: seq<string>, part: string)
    ensures Concat(parts + [part]) == Concat(parts) + part
  {
    assert (parts + [part])[..|parts|] == parts;
  }

  lemma EntriesSnoc(flags: Flags, escape: string -> string, targets: seq<string>, lists: seq<seq<string>>, n: nat)
    requires n < |targets| == |lists|
    ensures Entries(flags, escape, targets, lists, n + 1)
         == Entries(flags, escape, targets, lists, n) + [Entry(flags, escape, targets[n], lists[n])]
  {
  }

  /** Printing one more target appends the separator (JSON mode, after the first target) and its entry. */
  lemma RenderedSnoc(flags: Flags, escape: string -> string, targets: seq<string>, lists: seq<seq<string>>, n: nat)
    requires n < |targets| == |lists|
    ensures Rendered(flags, escape, targets, lists, n + 1)
         == Rendered(flags, escape, targets, lists, n)
            + (if flags.json && n > 0 then ",\n" else "")
            + Entry(flags, escape, targets[n], lists[n])
  {
    var before := Entries(flags, escape, targets, lists, n);
    var entry := Entry(flags, escape, targets[n], lists[n]);
    EntriesSnoc(flags, escape, targets, lists, n);
    if flags.json {
      JoinSnoc(",\n", before, entry);
    } else {
      ConcatSnoc(before, entry);
    }
  }

  /** Under --required, reaching the first target without suggestions ends the output stage with status 7. */
  lemma ReportStops(flags: Flags, escape: string -> string, targets: seq<string>, lists: seq<seq<string>>, i: nat)
    requires i < |targets| == |lists|
    requires flags.requireSuggestions && i <= FirstEmpty(lists) && lists[i] == []
    ensures ReportOf(flags, escape, targets, lists)
         == Outcome(Rendered(flags, escape, targets, lists, i) + (if flags.json && i > 0 then ",\n" else ""), 7)
  {
    assert FirstEmpty(lists) == i;
  }

  /** The inner loop: a target's suggestions, each quoted if asked, with separators between them. */
  method PrintSuggestions(flags: Flags, escape: string -> string, suggestions: seq<string>) returns (text: string)
    ensures text == Join(if flags.json then "," else " ", Quoted(flags, escape, suggestions))
  {
    text := "";
    var first := true;
    ghost var sep := if flags.json then "," else " ";
    for k := 0 to |suggestions|
      invariant first == (k == 0)
      invariant text == Join(sep, Quoted(flags, escape, suggestions[..k]))
    {
      if !first {
        if flags.json {
          text := text + ",";
        } else {
          text := text + " ";
        }
      }
      var suggestion := suggestions[k];
      if flags.quoteOutput || flags.json {
        suggestion := "\"" + escape(suggestion) + "\"";
      }
      assert suggestion == Quote(flags, escape, suggestions[k]);
      QuotedSnoc(flags, escape, suggestions, k);
      JoinSnoc(sep, Quoted(flags, escape, suggestions[..k]), suggestion);
      text := text + suggestion;
      first := false;
    }
    assert suggestions[..|suggestions|] == suggestions;
  }

  /** The loop over the targets: policy, --required check, and rendering of each list. */
  method Report(flags: Flags, targets: seq<string>, possibleValues: seq<string>, similarity: Similarity,
                escape: string -> string, ghost lists: seq<seq<string>>)
    returns (out: Outcome)
    requires |lists| == |targets|
    requires forall k {:trigger SuggestionsFor(targets[k], possibleValues, similarity)} :: 0 <= k < |targets| ==>
      lists[k] == Policy(flags, SuggestionsFor(targets[k], possibleValues, similarity))
    ensures out == ReportOf(flags, escape, targets, lists)
  {
    var stdout := "";
    if flags.json {
      stdout := stdout + "{\n";
    }
    var firstTarget := true;
    for i := 0 to |targets|
      invariant firstTarget == (i == 0)
      invariant flags.requireSuggestions ==> i <= FirstEmpty(lists)
      invariant stdout == Rendered(flags, escape, targets, lists, i)
    {
      RenderedSnoc(flags, escape, targets, lists, i);
      ghost var before := stdout;
      var target := targets[i];
      if !firstTarget && flags.json {
        stdout := stdout + ",\n";
      }
      assert stdout == before + (if flags.json && i > 0 then ",\n" else "");
      var suggestions := ProvideSuggestions(target, possibleValues, similarity);
      if flags.singleSuggestion && |suggestions| > 1 {
        suggestions := suggestions[..1];
      }
      assert suggestions == lists[i];
      if |suggestions| == 0 && flags.requireSuggestions {
        ReportStops(flags, escape, targets, lists, i);
        return Outcome(stdout, 7);
      }
      ghost var entry := Entry(flags, escape, target, suggestions);
      ghost var middle := stdout;
      var printed := PrintSuggestions(flags, escape, suggestions);
      if flags.json {
        assert "  \"" + escape(target) + "\":[" + printed + "]" == entry;
        stdout := stdout + ("  \"" + escape(target) + "\":[" + printed + "]");
      } else {
        assert printed + "\n" == entry;
        stdout := stdout + (printed + "\n");
      }
      assert stdout == middle + entry;
      firstTarget := false;
    }
    if flags.json {
      stdout := stdout + "\n";
      stdout := stdout + "}\n";
    }
    return Outcome(stdout, 0);
  }

  /**
    With --single the one suggestion kept is the first of the ascending list: the
    lowest-scoring survivor, which is not the one provide_a_suggestion picks (the last).
   */
  lemma SingleKeepsLowestScore(flags: Flags, target: string, values: seq<string>, similarity: Similarity)
    requires flags.singleSuggestion
    ensures var all := SuggestionsFor(target, values, similarity); var kept := Policy(flags, all);
      && (all == [] ==> kept == [])
      && (all != [] ==> kept == [all[0]])
      && (all != [] ==> forall v :: v in values && similarity(target, v) > ConfidenceThreshold ==>
            similarity(target, all[0]) <= similarity(target, v))
  {
    var all := SuggestionsFor(target, values, similarity);
    if all != [] {
      IsAscending(target, values, similarity);
      IsPermutationOfPassing(target, values, similarity);
      PassingMembers(target, values, similarity);
      forall v | v in values && similarity(target, v) > ConfidenceThreshold
        ensures similarity(target, all[0]) <= similarity(target, v)
      {
        assert v in multiset(Passing(target, values, similarity));
        var k :| 0 <= k < |all| && all[k] == v;
      }
    }
  }

  /** Exit status 7 happens exactly under --required when some target's list is empty; otherwise 0. */
  lemma ReportStatus(flags: Flags, escape: string -> string, targets: seq<string>, lists: seq<seq<string>>)
    requires |targets| == |lists|
    ensures var out := ReportOf(flags, escape, targets, lists);
      && (out.status == 7 <==> flags.requireSuggestions && exists i :: 0 <= i < |lists| && lists[i] == [])
      && (out.status == 0 || out.status == 7)
  {
    if flags.requireSuggestions && exists i :: 0 <= i < |lists| && lists[i] == [] {
      var i :| 0 <= i < |lists| && lists[i] == [];
      assert FirstEmpty(lists) <= i;
    }
  }

  /**
    Under --required the first target (in argument order) for which no possible value scores
    above the threshold ends the run with status 7, after the targets before it were printed.
   */
  lemma RequiredStopsAtFirstTargetWithoutSuggestion(flags: Flags, escape: string -> string, targets: seq<string>,
                                                    values: seq<string>, similarity: Similarity, i: nat)
    requires flags.requireSuggestions && i < |targets|
    requires forall v :: v in values ==> similarity(targets[i], v) <= ConfidenceThreshold
    requires forall j :: 0 <= j < i ==> exists v :: v in values && similarity(targets[j], v) > ConfidenceThreshold
    ensures var lists := SuggestionLists(flags, targets, values, similarity);
      ReportOf(flags, escape, targets, lists)
        == Outcome(Rendered(flags, escape, targets, lists, i) + (if flags.json && i > 0 then ",\n" else ""), 7)
  {
    var lists := SuggestionLists(flags, targets, values, similarity);
    EmptyIffNonePass(targets[i], values, similarity);
    assert lists[i] == [];
    forall j | 0 <= j < i ensures lists[j] != [] {
      EmptyIffNonePass(targets[j], values, similarity);
    }
    assert FirstEmpty(lists) == i;
  }

  /** In JSON mode a completed run prints one object: an opening and a closing brace line. */
  lemma JsonIsBraced(flags: Flags, escape: string -> string, targets: seq<string>, lists: seq<seq<string>>)
    requires flags.json && |targets| == |lists|
    requires ReportOf(flags, escape, targets, lists).status == 0
    ensures var out := ReportOf(flags, escape, targets, lists).stdout;
      |out| >= 5 && out[..2] == "{\n" && out[|out| - 3..] == "\n}\n"
  {
  }

  lemma {:induction false} JoinHasNoNewline(sep: string, parts: seq<string>)
    requires '\n' !in sep
    requires forall part :: part in parts ==> '\n' !in part
    ensures '\n' !in Join(sep, parts)
  {
    if |parts| > 1 {
      var init := parts[..|parts| - 1];
      assert forall part :: part in init ==> part in parts;
      JoinHasNoNewline(sep, init);
      assert parts[|parts| - 1] in parts;
    }
  }

  /**
    In text mode without quoting, a target whose suggestions hold no newline is printed on
    exactly one line: the suggestions separated by single spaces, then a newline.
   */
  lemma TextEntryIsOneLine(flags: Flags, escape: string -> string, target: string, suggestions: seq<string>)
    requires !flags.json && !flags.quoteOutput
    requires forall s :: s in suggestions ==> '\n' !in s
    ensures var e := Entry(flags, escape, target, suggestions);
      && |e| > 0 && e[|e| - 1] == '\n'
      && '\n' !in e[..|e| - 1]
      && e[..|e| - 1] == Join(" ", suggestions)
  {
    var quoted := Quoted(flags, escape, suggestions);
    assert quoted == suggestions;
    JoinHasNoNewline(" ", suggestions);
    var e := Entry(flags, escape, target, suggestions);
    assert e[..|e| - 1] == Join(" ", suggestions);
  }

  /** The whole program: parse the arguments, read the possible values, print the suggestions. */
  function RunOf(args: seq<string>, input: string, similarity: Similarity, escape: string -> string): Outcome
  {
    match ParseOf(args)
    case HelpRequested => Outcome(Help + "\n", 0)
    case Exited(outcome) => outcome
    case Parsed(flags, targets) =>
      ReportOf(flags, escape, targets, SuggestionLists(flags, targets, Trimmed(Lines(input)), similarity))
  }

  method Run(args: seq<string>, input: string, similarity: Similarity, escape: string -> string)
    returns (out: Outcome)
    ensures out == RunOf(args, input, similarity, escape)
  {
    var parsed := ParseArgs(args);
    match parsed
    case HelpRequested =>
      out := Outcome(Help + "\n", 0);
    case Exited(outcome) =>
      out := outcome;
    case Parsed(flags, targets) =>
      var values := ReadPossibleValues(input);
      ghost var lists := SuggestionLists(flags, targets, values, similarity);
      out := Report(flags, targets, values, similarity, escape, lists);
  }

  /**
    A help flag reached by parsing makes the program print the usage text and exit with
    status 0, without reading its input, whatever follows the flag.
   */
  lemma HelpPrintsUsage(args: seq<string>, k: nat, input: string, similarity: Similarity, escape: string -> string)
    requires k < |args| && IsHelpFlag(args[k])
    requires forall j :: 0 <= j < k ==> IsSettingFlag(args[j])
    ensures RunOf(args, input, similarity, escape) == Outcome(Help + "\n", 0)
  {
    ParseHelpExits(args, k);
  }
}
