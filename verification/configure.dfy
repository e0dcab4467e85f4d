/**
  The `swiftlint configure` wizard, with its terminal and file system taken
  out: what the user types is a list of input lines, the `.swift` files found
  and the lint run's violations are inputs, and what would be printed or
  written to disk is returned as a value instead.
*/
module Configure {
  import opened Wrappers
  import opened StyleViolations
  import opened ConfigureStrings
  import ArrayExtensions

  /** The command's two flags, `--colorize` and `--no-colorize`. */
  datatype Configure = Configure(colorize: bool, noColorize: bool) {

    /**
      `shouldColorizeOutput`: never on a terminal without colour support;
      on one with it, always unless `--no-colorize` is given without
      `--colorize`.
    */
    function ShouldColorizeOutput(isTerminal: bool, term: Option<string>): (b: bool)
      ensures !TerminalSupportsColor(isTerminal, term) ==> !b
      ensures TerminalSupportsColor(isTerminal, term) && (colorize || !noColorize) ==> b
      ensures noColorize && !colorize ==> !b
    {
      TerminalSupportsColor(isTerminal, term) && (!noColorize || colorize)
    }
  }

  // ---------------------------------------------------------------------------
  // askUser
  // ---------------------------------------------------------------------------

  datatype Answer = Yes | No | Unrecognized

  /** How `askUser` reads one line: empty or `y` (any case) is yes, `n` (any case) is no, anything else is asked again. */
  function Classify(line: string): (a: Answer)
    ensures a == Yes <==> line == "" || line == "y" || line == "Y"
    ensures a == No <==> line == "n" || line == "N"
  {
    if line == "" || Lowercased(line) == "y" then Yes
    else if Lowercased(line) == "n" then No
    else Unrecognized
  }

  /** The outcome of one question: the answer and the input left after it, or no answer before the input ran out. */
  datatype Asked = Answered(yes: bool, rest: seq<string>) | Unanswered

  /** What `askUser` makes of the input lines: the first line that is a yes or a no decides. */
  function Ask(input: seq<string>): Asked
  {
    if input == [] then Unanswered
    else
      match Classify(input[0])
      case Yes => Answered(true, input[1..])
      case No => Answered(false, input[1..])
      case Unrecognized => Ask(input[1..])
  }

  /** A question stays unanswered exactly when no line is a yes or a no. */
  lemma {:induction false} AskUnanswered(input: seq<string>)
    ensures Ask(input).Unanswered? <==> forall i :: 0 <= i < |input| ==> Classify(input[i]) == Unrecognized
  {
    if input != [] {
      AskUnanswered(input[1..]);
      if Classify(input[0]) == Unrecognized {
        assert (forall i :: 0 <= i < |input| ==> Classify(input[i]) == Unrecognized)
          <==> (forall i :: 0 <= i < |input[1..]| ==> Classify(input[1..][i]) == Unrecognized);
      }
    }
  }

  /** Every line before the `k`-th is neither a yes nor a no. */
  predicate UndecidedBefore(input: seq<string>, k: int)
    requires k <= |input|
  {
    forall i :: 0 <= i < k ==> Classify(input[i]) == Unrecognized
  }

  /** Lines undecided in the input after its first line stay undecided one position later. */
  lemma UndecidedBeforeShift(input: seq<string>, k: nat)
    requires 0 < |input| && k < |input| && Classify(input[0]) == Unrecognized
    requires UndecidedBefore(input[1..], k)
    ensures UndecidedBefore(input, k + 1)
  {
    forall i | 0 < i < k + 1 ensures Classify(input[i]) == Unrecognized {
      assert input[i] == input[1..][i - 1];
    }
  }

  /** An answered question was answered by its first decisive line, and the input after that line is left unread. */
  lemma {:induction false} AskAnswered(input: seq<string>)
    ensures Ask(input).Answered? ==>
      (exists k :: 0 <= k < |input| && Ask(input).rest == input[k + 1..]
        && Classify(input[k]) == (if Ask(input).yes then Yes else No)
        && UndecidedBefore(input, k))
  {
    if input != [] && Classify(input[0]) == Unrecognized && Ask(input).Answered? {
      var a := Ask(input);
      assert a == Ask(input[1..]);
      AskAnswered(input[1..]);
      var k :| 0 <= k < |input[1..]| && a.rest == input[1..][k + 1..]
        && Classify(input[1..][k]) == (if a.yes then Yes else No)
        && UndecidedBefore(input[1..], k);
      assert input[1..][k + 1..] == input[k + 2..];
      UndecidedBeforeShift(input, k);
      assert Classify(input[k + 1]) == (if a.yes then Yes else No);
    } else if input != [] && Ask(input).Answered? {
      assert UndecidedBefore(input, 0);
    }
  }

  /**
    A question is answered by the first line that is a yes or a no, and the
    input after that line is left unread; it stays unanswered exactly when no
    line is a yes or a no.
  */
  lemma AskTakesFirstDecisiveLine(input: seq<string>)
    ensures Ask(input).Unanswered? <==> forall i :: 0 <= i < |input| ==> Classify(input[i]) == Unrecognized
    ensures Ask(input).Answered? ==>
      (exists k :: 0 <= k < |input| && Ask(input).rest == input[k + 1..]
        && Classify(input[k]) == (if Ask(input).yes then Yes else No)
        && forall i :: 0 <= i < k ==> Classify(input[i]) == Unrecognized)
  {
    AskUnanswered(input);
    AskAnswered(input);
  }

  /**
    `askUser`: reads lines until one is a yes or a no ("Invalid Response" is
    printed for the others). When the input runs out the source keeps asking
    forever; here the question is then unanswered.
  */
  method AskUser(input: seq<string>) returns (answer: Asked)
    ensures answer == Ask(input)
  {
    var pos := 0;
    while pos < |input|
      invariant 0 <= pos <= |input|
      invariant Ask(input) == Ask(input[pos..])
    {
      assert input[pos..][1..] == input[pos + 1..];
      var a := Classify(input[pos]);
      if a == Yes {
        return Answered(true, input[pos + 1..]);
      } else if a == No {
        return Answered(false, input[pos + 1..]);
      }
      pos := pos + 1;
    }
    return Unanswered;
  }

  // ---------------------------------------------------------------------------
  // Steps of the wizard
  // ---------------------------------------------------------------------------

  /**
    How a step of the wizard ends: it returns a value with the input still
    unread, the program exits because the user declined to continue, or it
    waits for ever because the input ran out during a question.
  */
  datatype Session<T> = Proceeds(value: T, rest: seq<string>) | Exits | Waits

  /** `doYouWantToContinue`: a yes continues, a no exits. */
  function DoYouWantToContinue(input: seq<string>): (r: Session<()>)
    ensures r.Proceeds? <==> Ask(input).Answered? && Ask(input).yes
    ensures r.Exits? <==> Ask(input).Answered? && !Ask(input).yes
    ensures r.Proceeds? ==> r.rest == Ask(input).rest
  {
    match Ask(input)
    case Answered(true, rest) => Proceeds((), rest)
    case Answered(false, _) => Exits
    case Unanswered => Waits
  }

  /** A selection made so far, put before what later questions select. */
  function Prepend(selected: seq<string>, later: Session<seq<string>>): Session<seq<string>>
  {
    match later
    case Proceeds(value, rest) => Proceeds(selected + value, rest)
    case Exits => Exits
    case Waits => Waits
  }

  /** The directory-by-directory questions of `checkForSwiftFiles`: each directory answered yes is kept, in order. */
  function AskEachDirectory(dirs: seq<string>, input: seq<string>): Session<seq<string>>
    decreases |dirs|
  {
    if dirs == [] then Proceeds([], input)
    else
      match Ask(input)
      case Unanswered => Waits
      case Answered(yes, rest) => Prepend(if yes then [dirs[0]] else [], AskEachDirectory(dirs[1..], rest))
  }

  /**
    The questions of `checkForSwiftFiles`: with directories, first whether to
    scan all of them, and if not one question per directory; without any,
    whether to continue.
  */
  function SelectDirectories(dirs: seq<string>, input: seq<string>): Session<seq<string>>
  {
    if dirs != [] then
      match Ask(input)
      case Unanswered => Waits
      case Answered(true, rest) => Proceeds(dirs, rest)
      case Answered(false, rest) => AskEachDirectory(dirs, rest)
    else
      match DoYouWantToContinue(input)
      case Proceeds(_, rest) => Proceeds([], rest)
      case Exits => Exits
      case Waits => Waits
  }

  /** The directories answered yes, in order, for one decisive answer per directory. */
  function Accepted(dirs: seq<string>, answers: seq<string>): seq<string>
    requires |answers| == |dirs|
  {
    if dirs == [] then []
    else (if Classify(answers[0]) == Yes then [dirs[0]] else []) + Accepted(dirs[1..], answers[1..])
  }

  /** Unfolding `Accepted` one directory. */
  lemma AcceptedCons(dirs: seq<string>, answers: seq<string>)
    requires |answers| == |dirs| && dirs != []
    ensures Classify(answers[0]) == Yes ==> Accepted(dirs, answers) == [dirs[0]] + Accepted(dirs[1..], answers[1..])
    ensures Classify(answers[0]) != Yes ==> Accepted(dirs, answers) == Accepted(dirs[1..], answers[1..])
  {
  }

  /** Every directory answered yes is accepted. */
  lemma {:induction false} AcceptedIncludesYes(dirs: seq<string>, answers: seq<string>)
    requires |answers| == |dirs|
    ensures forall i :: 0 <= i < |dirs| && Classify(answers[i]) == Yes ==> dirs[i] in Accepted(dirs, answers)
  {
    if dirs != [] {
      AcceptedIncludesYes(dirs[1..], answers[1..]);
      AcceptedCons(dirs, answers);
      forall i | 1 <= i < |dirs| && Classify(answers[i]) == Yes
        ensures dirs[i] in Accepted(dirs, answers)
      {
        assert dirs[1..][i - 1] == dirs[i] && answers[1..][i - 1] == answers[i];
      }
    }
  }

  /** Some directory named `d` was answered yes. */
  predicate AnsweredYes(dirs: seq<string>, answers: seq<string>, d: string)
    requires |answers| == |dirs|
  {
    exists i :: 0 <= i < |dirs| && Classify(answers[i]) == Yes && dirs[i] == d
  }

  /** The `j`-th accepted directory is the `i`-th directory, which was answered yes. */
  lemma {:induction false} AcceptedAtIsYes(dirs: seq<string>, answers: seq<string>, j: nat) returns (i: nat)
    requires |answers| == |dirs| && j < |Accepted(dirs, answers)|
    ensures i < |dirs| && Classify(answers[i]) == Yes && dirs[i] == Accepted(dirs, answers)[j]
  {
    var accepted, later := Accepted(dirs, answers), Accepted(dirs[1..], answers[1..]);
    AcceptedCons(dirs, answers);
    if Classify(answers[0]) == Yes && j == 0 {
      i := 0;
    } else {
      var k := if Classify(answers[0]) == Yes then j - 1 else j;
      assert accepted[j] == later[k];
      var i' := AcceptedAtIsYes(dirs[1..], answers[1..], k);
      i := i' + 1;
      assert dirs[i] == dirs[1..][i'] && answers[i] == answers[1..][i'];
    }
  }

  /** Every accepted directory was answered yes. */
  lemma {:induction false} AcceptedOnlyYes(dirs: seq<string>, answers: seq<string>)
    requires |answers| == |dirs|
    ensures forall j :: 0 <= j < |Accepted(dirs, answers)| ==>
      AnsweredYes(dirs, answers, Accepted(dirs, answers)[j])
  {
    var accepted := Accepted(dirs, answers);
    forall j | 0 <= j < |accepted|
      ensures AnsweredYes(dirs, answers, accepted[j])
    {
      var i := AcceptedAtIsYes(dirs, answers, j);
    }
  }

  /** The accepted directories keep the order of the directories. */
  lemma {:induction false} AcceptedInOrder(dirs: seq<string>, answers: seq<string>)
    requires |answers| == |dirs|
    ensures ArrayExtensions.IsSubsequence(Accepted(dirs, answers), dirs)
  {
    if dirs == [] {
      assert Accepted(dirs, answers) == [];
    } else {
      var accepted, later := Accepted(dirs, answers), Accepted(dirs[1..], answers[1..]);
      AcceptedInOrder(dirs[1..], answers[1..]);
      AcceptedCons(dirs, answers);
      if Classify(answers[0]) == Yes {
        assert accepted[0] == dirs[0] && accepted[1..] == later;
      }
    }
  }

  /** A directory is accepted exactly when its own answer is a yes. */
  lemma AcceptedMembership(dirs: seq<string>, answers: seq<string>)
    requires |answers| == |dirs|
    ensures forall i :: 0 <= i < |dirs| && Classify(answers[i]) == Yes ==> dirs[i] in Accepted(dirs, answers)
    ensures forall j :: 0 <= j < |Accepted(dirs, answers)| ==>
      AnsweredYes(dirs, answers, Accepted(dirs, answers)[j])
    ensures ArrayExtensions.IsSubsequence(Accepted(dirs, answers), dirs)
  {
    AcceptedIncludesYes(dirs, answers);
    AcceptedOnlyYes(dirs, answers);
    AcceptedInOrder(dirs, answers);
  }

  /** With one yes-or-no line per directory, the one-by-one questions keep exactly the directories answered yes. */
  lemma {:induction false} AskEachDirectoryAccepts(dirs: seq<string>, answers: seq<string>, tail: seq<string>)
    requires |answers| == |dirs|
    requires forall i :: 0 <= i < |answers| ==> Classify(answers[i]) != Unrecognized
    ensures AskEachDirectory(dirs, answers + tail) == Proceeds(Accepted(dirs, answers), tail)
  {
    if dirs == [] {
      assert answers + tail == tail;
    } else {
      assert (answers + tail)[1..] == answers[1..] + tail;
      assert (answers + tail)[0] == answers[0];
      AskEachDirectoryAccepts(dirs[1..], answers[1..], tail);
    }
  }

  /** A sequence is a subsequence of itself. */
  lemma {:induction false} SubsequenceOfItself(s: seq<string>)
    ensures ArrayExtensions.IsSubsequence(s, s)
  {
    if s != [] {
      SubsequenceOfItself(s[1..]);
    }
  }

  /** The one-by-one questions select an in-order subsequence of the directories, and never exit. */
  lemma {:induction false} AskEachDirectorySubsequence(dirs: seq<string>, input: seq<string>)
    ensures !AskEachDirectory(dirs, input).Exits?
    ensures AskEachDirectory(dirs, input).Proceeds? ==> ArrayExtensions.IsSubsequence(AskEachDirectory(dirs, input).value, dirs)
  {
    if dirs != [] && Ask(input).Answered? {
      var later := AskEachDirectory(dirs[1..], Ask(input).rest);
      AskEachDirectorySubsequence(dirs[1..], Ask(input).rest);
      if later.Proceeds? {
        var value := AskEachDirectory(dirs, input).value;
        if Ask(input).yes {
          assert value == [dirs[0]] + later.value;
          assert value[1..] == later.value;
        } else {
          assert value == later.value;
        }
      }
    }
  }

  /**
    The directories `checkForSwiftFiles` returns: all of them when the user
    accepts all, otherwise an in-order subsequence, and none when there are
    none. Only the no-directories question can exit.
  */
  lemma SelectDirectoriesProperties(dirs: seq<string>, input: seq<string>)
    ensures SelectDirectories(dirs, input).Proceeds? ==> ArrayExtensions.IsSubsequence(SelectDirectories(dirs, input).value, dirs)
    ensures dirs == [] && SelectDirectories(dirs, input).Proceeds? ==> SelectDirectories(dirs, input).value == []
    ensures SelectDirectories(dirs, input).Exits? ==> dirs == [] && Ask(input) == Answered(false, Ask(input).rest)
    ensures dirs != [] && Ask(input).Answered? && Ask(input).yes ==> SelectDirectories(dirs, input) == Proceeds(dirs, Ask(input).rest)
  {
    SubsequenceOfItself(dirs);
    if dirs != [] && Ask(input).Answered? {
      AskEachDirectorySubsequence(dirs, Ask(input).rest);
    }
  }

  /** `checkForSwiftFiles`, from the top-level directories on: the loop asking about each directory in turn. */
  method CheckForSwiftFiles(topLevelDirectories: seq<string>, input: seq<string>) returns (outcome: Session<seq<string>>)
    ensures outcome == SelectDirectories(topLevelDirectories, input)
  {
    if |topLevelDirectories| > 0 {
      var all := AskUser(input);
      if all.Unanswered? {
        return Waits;
      }
      if all.yes {
        return Proceeds(topLevelDirectories, all.rest);
      }
      var selectedDirectories: seq<string> := [];
      var rest := all.rest;
      assert topLevelDirectories[0..] == topLevelDirectories;
      PrependNothing(AskEachDirectory(topLevelDirectories, rest));
      for i := 0 to |topLevelDirectories|
        invariant AskEachDirectory(topLevelDirectories, all.rest)
          == Prepend(selectedDirectories, AskEachDirectory(topLevelDirectories[i..], rest))
      {
        assert topLevelDirectories[i..][1..] == topLevelDirectories[i + 1..];
        var answer := AskUser(rest);
        if answer.Unanswered? {
          return Waits;
        }
        ghost var added: seq<string> := if answer.yes then [topLevelDirectories[i]] else [];
        ghost var later := AskEachDirectory(topLevelDirectories[i + 1..], answer.rest);
        assert AskEachDirectory(topLevelDirectories[i..], rest) == Prepend(added, later);
        PrependTwice(selectedDirectories, added, later);
        if answer.yes {
          selectedDirectories := selectedDirectories + [topLevelDirectories[i]];
        } else {
          assert selectedDirectories + added == selectedDirectories;
        }
        rest := answer.rest;
      }
      assert topLevelDirectories[|topLevelDirectories|..] == [];
      assert selectedDirectories + [] == selectedDirectories;
      return Proceeds(selectedDirectories, rest);
    } else {
      var answer := AskUser(input);
      if answer.Unanswered? {
        return Waits;
      }
      if !answer.yes {
        return Exits;
      }
      return Proceeds([], answer.rest);
    }
  }

  /** Prepending nothing changes nothing. */
  lemma PrependNothing(later: Session<seq<string>>)
    ensures Prepend([], later) == later
  {
    if later.Proceeds? {
      assert [] + later.value == later.value;
    }
  }

  /** Prepending twice is prepending the concatenation. */
  lemma PrependTwice(a: seq<string>, b: seq<string>, later: Session<seq<string>>)
    ensures Prepend(a, Prepend(b, later)) == Prepend(a + b, later)
  {
    if later.Proceeds? {
      assert a + (b + later.value) == (a + b) + later.value;
    }
  }

  // ---------------------------------------------------------------------------
  // Top-level directories
  // ---------------------------------------------------------------------------

  /** `Sequence.unique()`: keeps an element when inserting it into the `seen` set succeeds. */
  method Unique<T(==)>(s: seq<T>) returns (r: seq<T>)
    ensures r == ArrayExtensions.Deduplicated(s)
  {
    var seen: set<T> := {};
    r := [];
    for n := 0 to |s|
      invariant r == ArrayExtensions.Deduplicated(s[..n])
      invariant forall x :: x in seen <==> x in r
    {
      assert s[..n + 1][..n] == s[..n];
      var inserted := s[n] !in seen;
      seen := seen + {s[n]};
      if inserted {
        r := r + [s[n]];
      }
    }
    assert s[..|s|] == s;
  }

  /**
    The top-level directories of `checkForSwiftFiles`: the first path
    component of each `.swift` file found, without duplicates, leaving out
    components that are themselves Swift files. Whether a name is a Swift
    file is an input.
  */
  method TopLevelDirectories(files: seq<string>, isSwiftFile: string -> bool) returns (dirs: seq<string>)
    ensures ArrayExtensions.NoDuplicates(dirs)
    ensures forall i :: 0 <= i < |dirs| ==>
      !isSwiftFile(dirs[i]) && exists j :: 0 <= j < |files| && FirstPathComponent(files[j]) == Some(dirs[i])
    ensures forall j :: 0 <= j < |files| && !isSwiftFile(FirstPathComponent(files[j]).value) ==>
      FirstPathComponent(files[j]).value in dirs
    ensures ArrayExtensions.IsSubsequence(dirs, ArrayExtensions.Deduplicated(ArrayExtensions.CompactMapped(files, FirstPathComponent)))
  {
    var components := ArrayExtensions.CompactMapped(files, FirstPathComponent);
    ArrayExtensions.CompactMappedMembership(files, FirstPathComponent);
    var unique := Unique(components);
    ArrayExtensions.DeduplicatedElements(components);
    ArrayExtensions.DeduplicatedNoDuplicates(components);
    dirs := ArrayExtensions.Filtered(unique, d => !isSwiftFile(d));
  }

  // ---------------------------------------------------------------------------
  // The temporary configuration
  // ---------------------------------------------------------------------------

  /** The configuration line including one directory. */
  function EntryLine(dir: string): string
  {
    "  - " + dir
  }

  /** One `  - <directory>` line per directory, in order. */
  function IncludedEntries(dirs: seq<string>): string
  {
    if dirs == [] then "" else EntryLine(dirs[0]) + "\n" + IncludedEntries(dirs[1..])
  }

  /** The configuration the wizard lints with: the directories to include, and every opt-in rule. */
  function ConfigurationText(dirs: seq<string>): string
  {
    "included:\n" + IncludedEntries(dirs) + "opt_in_rules:\n  - all\n"
  }

  /** Adding a directory at the end adds its line at the end. */
  lemma {:induction false} IncludedEntriesAppend(dirs: seq<string>, d: string)
    ensures IncludedEntries(dirs + [d]) == IncludedEntries(dirs) + EntryLine(d) + "\n"
  {
    if dirs != [] {
      assert (dirs + [d])[1..] == dirs[1..] + [d];
      IncludedEntriesAppend(dirs[1..], d);
    }
  }

  /** `writeTemporaryConfigurationFile`: the loop appending one line per directory; writing the file is left out. */
  method WriteTemporaryConfigurationFile(topLevelDirectories: seq<string>) returns (configuration: string)
    ensures configuration == ConfigurationText(topLevelDirectories)
  {
    configuration := "included:\n";
    for i := 0 to |topLevelDirectories|
      invariant configuration == "included:\n" + IncludedEntries(topLevelDirectories[..i])
    {
      assert topLevelDirectories[..i + 1] == topLevelDirectories[..i] + [topLevelDirectories[i]];
      IncludedEntriesAppend(topLevelDirectories[..i], topLevelDirectories[i]);
      configuration := configuration + EntryLine(topLevelDirectories[i]) + "\n";
    }
    assert topLevelDirectories[..|topLevelDirectories|] == topLevelDirectories;
    configuration := configuration + "opt_in_rules:\n  - all\n";
  }

  /** The directory lines of the configuration. */
  function EntryLines(dirs: seq<string>): seq<string>
  {
    seq(|dirs|, i requires 0 <= i < |dirs| => EntryLine(dirs[i]))
  }

  /** The entry lines split back into one line per directory, whatever follows them. */
  lemma {:induction false} IncludedEntriesLines(dirs: seq<string>, tail: string)
    requires forall i :: 0 <= i < |dirs| ==> '\n' !in dirs[i]
    ensures Components(IncludedEntries(dirs) + tail, '\n') == EntryLines(dirs) + Components(tail, '\n')
  {
    if dirs == [] {
      assert IncludedEntries(dirs) + tail == tail;
    } else {
      IncludedEntriesLines(dirs[1..], tail);
      IncludedEntriesLinesStep(dirs, tail);
    }
  }

  /** The inductive step of `IncludedEntriesLines`: one more directory adds its line in front. */
  lemma IncludedEntriesLinesStep(dirs: seq<string>, tail: string)
    requires dirs != [] && '\n' !in dirs[0]
    requires Components(IncludedEntries(dirs[1..]) + tail, '\n') == EntryLines(dirs[1..]) + Components(tail, '\n')
    ensures Components(IncludedEntries(dirs) + tail, '\n') == EntryLines(dirs) + Components(tail, '\n')
  {
    var line := EntryLine(dirs[0]);
    var rest := EntryLines(dirs[1..]);
    var later := Components(IncludedEntries(dirs[1..]) + tail, '\n');
    assert Components(IncludedEntries(dirs) + tail, '\n') == [line] + later by {
      SingleLineEntry(dirs[0]);
      SplitFirstLine(line, IncludedEntries(dirs[1..]), tail);
    }
    assert EntryLines(dirs) == [line] + rest by {
      assert forall i :: 0 < i < |dirs| ==> dirs[i] == dirs[1..][i - 1];
    }
    ConsAppend(line, rest, Components(tail, '\n'));
  }

  /** Putting an element in front of a concatenation. */
  lemma ConsAppend<T>(x: T, a: seq<T>, b: seq<T>)
    ensures [x] + (a + b) == [x] + a + b
  {
  }

  /** Splitting text that starts with a line splits off that line first. */
  lemma SplitFirstLine(line: string, text: string, tail: string)
    requires '\n' !in line
    ensures Components(line + "\n" + text + tail, '\n') == [line] + Components(text + tail, '\n')
  {
    assert line + "\n" + text + tail == line + ['\n'] + (text + tail);
    ComponentsCons(line, '\n', text + tail);
  }

  /** An entry line is a single line when the directory name is. */
  lemma SingleLineEntry(dir: string)
    requires '\n' !in dir
    ensures '\n' !in EntryLine(dir)
  {
    assert forall i :: 0 <= i < 4 ==> EntryLine(dir)[i] == "  - "[i];
  }

  /**
    Read line by line, the configuration is `included:`, one `  - <dir>` line
    per directory in order, then `opt_in_rules:` and `  - all`, ending with a
    newline (so the last piece is empty). Directory names are single lines.
  */
  lemma ConfigurationLines(dirs: seq<string>)
    requires forall i :: 0 <= i < |dirs| ==> '\n' !in dirs[i]
    ensures Components(ConfigurationText(dirs), '\n') == ["included:"] + EntryLines(dirs) + ["opt_in_rules:", "  - all", ""]
  {
    var tail := "opt_in_rules:\n  - all\n";
    assert Components(ConfigurationText(dirs), '\n') == ["included:"] + Components(IncludedEntries(dirs) + tail, '\n') by {
      assert "included:\n" == "included:" + "\n";
      SplitFirstLine("included:", IncludedEntries(dirs), tail);
    }
    IncludedEntriesLines(dirs, tail);
    FooterLines();
    ConsAppend("included:", EntryLines(dirs), Components(tail, '\n'));
  }

  /** The lines after the directories. */
  lemma FooterLines()
    ensures Components("opt_in_rules:\n  - all\n", '\n') == ["opt_in_rules:", "  - all", ""]
  {
    assert "opt_in_rules:\n  - all\n" == "opt_in_rules:" + "\n" + "  - all" + "\n";
    TwoLines("opt_in_rules:", "  - all");
  }

  /** Two lines, each ending with a newline, split into the two and an empty last piece. */
  lemma TwoLines(first: string, second: string)
    requires '\n' !in first && '\n' !in second
    ensures Components(first + "\n" + second + "\n", '\n') == [first, second, ""]
  {
    assert first + "\n" + second + "\n" == first + ['\n'] + (second + ['\n'] + "");
    ComponentsCons(first, '\n', second + ['\n'] + "");
    ComponentsCons(second, '\n', "");
  }

  // ---------------------------------------------------------------------------
  // rulesToDisable
  // ---------------------------------------------------------------------------

  /**
    The comparator of `rulesToDisable`: the rule with more violations first,
    and between rules with as many, the greater identifier first.
  */
  predicate RanksBefore(violationsByRule: map<string, seq<StyleViolation>>, a: string, b: string)
    ensures a in violationsByRule && b in violationsByRule && |violationsByRule[a]| > |violationsByRule[b]| ==> RanksBefore(violationsByRule, a, b)
    ensures RanksBefore(violationsByRule, a, b) ==>
      a in violationsByRule && b in violationsByRule && |violationsByRule[a]| >= |violationsByRule[b]| && a != b
    ensures a in violationsByRule && b in violationsByRule && |violationsByRule[a]| == |violationsByRule[b]| ==>
      (RanksBefore(violationsByRule, a, b) <==> StringPrecedes(b, a))
  {
    StringPrecedesIrreflexive(a);
    && a in violationsByRule && b in violationsByRule
    && (|violationsByRule[a]| > |violationsByRule[b]|
        || (|violationsByRule[a]| == |violationsByRule[b]| && StringPrecedes(b, a)))
  }

  /** Every element ranks before every later one (so none occurs twice). */
  ghost predicate RankedStrictly(violationsByRule: map<string, seq<StyleViolation>>, s: seq<string>)
  {
    forall i, j :: 0 <= i < j < |s| ==> RanksBefore(violationsByRule, s[i], s[j])
  }

  /** The comparator ranks any two different rules, one way or the other. */
  lemma RanksBeforeTotal(violationsByRule: map<string, seq<StyleViolation>>, a: string, b: string)
    requires a in violationsByRule && b in violationsByRule && a != b
    ensures RanksBefore(violationsByRule, a, b) || RanksBefore(violationsByRule, b, a)
  {
    StringPrecedesTotal(a, b);
  }

  /** The comparator is transitive. */
  lemma RanksBeforeTransitive(violationsByRule: map<string, seq<StyleViolation>>, a: string, b: string, c: string)
    requires RanksBefore(violationsByRule, a, b) && RanksBefore(violationsByRule, b, c)
    ensures RanksBefore(violationsByRule, a, c)
  {
    if |violationsByRule[a]| == |violationsByRule[b]| == |violationsByRule[c]| {
      StringPrecedesTransitive(c, b, a);
    }
  }

  /** The comparator never ranks two rules both ways, nor a rule before itself. */
  lemma RanksBeforeAsymmetric(violationsByRule: map<string, seq<StyleViolation>>, a: string, b: string)
    ensures !(RanksBefore(violationsByRule, a, b) && RanksBefore(violationsByRule, b, a))
  {
    if RanksBefore(violationsByRule, a, b) && RanksBefore(violationsByRule, b, a) {
      StringPrecedesTransitive(a, b, a);
      StringPrecedesIrreflexive(a);
    }
  }

  /** Inserts a rule at its place in a ranked list. */
  function InsertRanked(violationsByRule: map<string, seq<StyleViolation>>, s: seq<string>, x: string): (r: seq<string>)
    requires x in violationsByRule && x !in s
    requires forall i :: 0 <= i < |s| ==> s[i] in violationsByRule
    requires RankedStrictly(violationsByRule, s)
    ensures |r| == |s| + 1 && x in r
    ensures forall i :: 0 <= i < |r| ==> r[i] == x || r[i] in s
    ensures forall i :: 0 <= i < |s| ==> s[i] in r
    ensures RankedStrictly(violationsByRule, r)
  {
    if s == [] then [x]
    else if RanksBefore(violationsByRule, x, s[0]) then
      assert forall j :: 0 < j < |s| ==> RanksBefore(violationsByRule, x, s[j]) by {
        forall j | 0 < j < |s| ensures RanksBefore(violationsByRule, x, s[j]) {
          RanksBeforeTransitive(violationsByRule, x, s[0], s[j]);
        }
      }
      [x] + s
    else
      RanksBeforeTotal(violationsByRule, x, s[0]);
      var rest := InsertRanked(violationsByRule, s[1..], x);
      assert forall i :: 0 <= i < |rest| ==> RanksBefore(violationsByRule, s[0], rest[i]);
      assert forall i :: 1 <= i < |s| ==> s[i] in s[1..];
      [s[0]] + rest
  }

  /**
    `dictionary.keys.sorted(by:)`: the rules ranked by the comparator. The
    standard library's sort is not part of this model; any sort gives this
    result, since a strict ranking of a set of rules is unique
    (`RankedOrderIsUnique`).
  */
  method SortedRuleIdentifiers(violationsByRule: map<string, seq<StyleViolation>>) returns (r: seq<string>)
    ensures RankedStrictly(violationsByRule, r)
    ensures forall k :: k in violationsByRule ==> k in r
    ensures forall i :: 0 <= i < |r| ==> r[i] in violationsByRule
  {
    var keys := violationsByRule.Keys;
    r := [];
    while keys != {}
      invariant keys <= violationsByRule.Keys
      invariant RankedStrictly(violationsByRule, r)
      invariant forall i :: 0 <= i < |r| ==> r[i] in violationsByRule && r[i] !in keys
      invariant forall k :: k in violationsByRule ==> k in r || k in keys
      decreases keys
    {
      var k :| k in keys;
      r := InsertRanked(violationsByRule, r, k);
      keys := keys - {k};
    }
  }

  /**
    Two lists that each rank the same rules strictly are the same list: the
    comparator fixes the order completely.
  */
  lemma {:induction false} RankedOrderIsUnique(violationsByRule: map<string, seq<StyleViolation>>, s: seq<string>, t: seq<string>)
    requires RankedStrictly(violationsByRule, s) && RankedStrictly(violationsByRule, t)
    requires forall i :: 0 <= i < |s| ==> s[i] in t
    requires forall i :: 0 <= i < |t| ==> t[i] in s
    ensures s == t
  {
    if s != [] {
      assert s[0] in t;
    }
    if t != [] {
      assert t[0] in s;
    }
    if s != [] && t != [] {
      if s[0] != t[0] {
        var i :| 0 <= i < |t| && t[i] == s[0];
        var j :| 0 <= j < |s| && s[j] == t[0];
        assert RanksBefore(violationsByRule, t[0], s[0]);
        assert RanksBefore(violationsByRule, s[0], t[0]);
        RanksBeforeAsymmetric(violationsByRule, s[0], t[0]);
      }
      forall i | 0 <= i < |s[1..]| ensures s[1..][i] in t[1..] {
        RanksBeforeAsymmetric(violationsByRule, s[0], s[0]);
        var j :| 0 <= j < |t| && t[j] == s[i + 1];
        assert s[i + 1] != s[0];
      }
      forall i | 0 <= i < |t[1..]| ensures t[1..][i] in s[1..] {
        RanksBeforeAsymmetric(violationsByRule, t[0], t[0]);
        var j :| 0 <= j < |s| && s[j] == t[i + 1];
        assert t[i + 1] != t[0];
      }
      RankedOrderIsUnique(violationsByRule, s[1..], t[1..]);
    }
  }

  /**
    `rulesToDisable`, from the lint run's violations on: when there are
    violations and the user agrees, the distinct rule identifiers among them,
    most violations first and ties by identifier descending; otherwise no
    rules. Writing the temporary configuration and linting are left out: the
    violations are an input.
  */
  method RulesToDisable(violations: seq<StyleViolation>, input: seq<string>) returns (outcome: Session<seq<string>>)
    ensures violations == [] ==> outcome == Proceeds([], input)
    ensures violations != [] && Ask(input).Unanswered? ==> outcome == Waits
    ensures violations != [] && Ask(input).Answered? && !Ask(input).yes ==> outcome == Proceeds([], Ask(input).rest)
    ensures violations != [] && Ask(input).Answered? && Ask(input).yes ==>
      && outcome.Proceeds? && outcome.rest == Ask(input).rest
      && RankedStrictly(ArrayExtensions.Group(violations, RuleIdentifierOf), outcome.value)
      && (forall i :: 0 <= i < |violations| ==> violations[i].ruleIdentifier in outcome.value)
      && (forall j :: 0 <= j < |outcome.value| ==> exists i :: 0 <= i < |violations| && violations[i].ruleIdentifier == outcome.value[j])
  {
    if violations == [] {
      return Proceeds([], input);
    }
    var answer := AskUser(input);
    if answer.Unanswered? {
      return Waits;
    }
    if !answer.yes {
      return Proceeds([], answer.rest);
    }
    var dictionary := ArrayExtensions.Group(violations, RuleIdentifierOf);
    var ruleIdentifiersToDisable := SortedRuleIdentifiers(dictionary);
    forall j | 0 <= j < |ruleIdentifiersToDisable|
      ensures exists i :: 0 <= i < |violations| && violations[i].ruleIdentifier == ruleIdentifiersToDisable[j]
    {
      var k := ruleIdentifiersToDisable[j];
      assert dictionary[k][0] in violations;
      var i :| 0 <= i < |violations| && violations[i] == dictionary[k][0];
    }
    return Proceeds(ruleIdentifiersToDisable, answer.rest);
  }
}
