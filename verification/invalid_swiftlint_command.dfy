/**
  The `invalid_swiftlint_command` rule: reports suppression commands
  (`// swiftlint:disable rule`) that are malformed, and commands whose
  `swiftlint` keyword is glued to a preceding character other than
  whitespace or `/`.

  Parsing comments into commands is done by SwiftLint's framework and is not
  part of this model: a file arrives with its lines and with its parsed valid
  and invalid commands. A line is a sequence of characters, and a command's
  start column is an index into it; the source's start column is a UTF-16
  offset and its characters are grapheme clusters, which differ from this
  as soon as non-ASCII text comes before the command on its line.
*/
module InvalidSwiftLintCommand {
  import opened Wrappers
  import opened StyleViolations

  datatype Action = Enable | Disable | InvalidAction

  datatype Modifier = Previous | This | Next | InvalidModifier

  /**
    A parsed command: `line` is 1-based; `start` is the 1-based column of the
    `swiftlint` keyword, when known.
  */
  datatype Command = Command(action: Action, modifier: Option<Modifier>, ruleIdentifiers: seq<string>, line: int, start: Option<int>)

  /** What the rule sees of a file: its path, the contents of its lines, and its parsed commands. */
  datatype SwiftLintFile = SwiftLintFile(path: Option<string>, lines: seq<string>, commands: seq<Command>, invalidCommands: seq<Command>)

  const Identifier := "invalid_swiftlint_command"
  const Description := "swiftlint command is invalid"
  const BadPrefixReason := "swiftlint command should be preceded by whitespace or a comment character"
  const InvalidActionReason := "swiftlint command does not have a valid action"
  const InvalidModifierReason := "swiftlint command does not have a valid modifier"
  const NoRulesReason := "swiftlint command does not specify any rules"

  /**
    Foundation's `CharacterSet.whitespaces`: the Unicode space separators
    (category Zs) and tab. No printable ASCII character, letters and `/`
    included, is whitespace.
  */
  predicate IsWhitespace(c: char)
    ensures c == ' ' || c == '\t' ==> IsWhitespace(c)
    ensures IsWhitespace(c) ==> !('!' <= c <= '~')
  {
    || c == '\t' || c == ' ' || c == '\U{A0}' || c == '\U{1680}'
    || ('\U{2000}' <= c <= '\U{200A}')
    || c == '\U{202F}' || c == '\U{205F}' || c == '\U{3000}'
  }

  /** Whitespace, or the comment character `/`. */
  predicate IsAllowedPrefix(c: char) {
    IsWhitespace(c) || c == '/'
  }

  /** `lineOfCommand`: the content of the command's line, if that line exists. */
  function LineOfCommand(c: Command, file: SwiftLintFile): (r: Option<string>)
    ensures r.None? <==> c.line <= 0 || c.line > |file.lines|
    ensures r.Some? ==> 1 <= c.line <= |file.lines| && r.value == file.lines[c.line - 1]
  {
    if c.line > 0 && c.line <= |file.lines| then Some(file.lines[c.line - 1]) else None
  }

  /**
    What `precedingCharacter` needs so as not to trap: when it indexes the
    line, the offset `start - 2` is at most the line's length (slicing a Swift
    string past its end is a runtime error). The parser puts `start` at the
    keyword, inside the line, so this holds for parsed commands.
  */
  predicate StartWithinLine(c: Command, file: SwiftLintFile) {
    match LineOfCommand(c, file)
    case None => true
    case Some(line) => |line| == 0 || c.start.None? || c.start.value <= 2 || c.start.value - 2 <= |line|
  }

  /**
    `precedingCharacter`: the character just before the keyword, at 0-based
    offset `start - 2`. Nil when the line is missing or empty, when the start
    is unknown or at most 2, or when the offset is the end of the line.
  */
  function PrecedingCharacter(c: Command, file: SwiftLintFile): (r: Option<char>)
    requires StartWithinLine(c, file)
    ensures r.Some? <==>
      && 1 <= c.line <= |file.lines|
      && |file.lines[c.line - 1]| > 0
      && c.start.Some? && c.start.value > 2
      && c.start.value - 2 < |file.lines[c.line - 1]|
    ensures r.Some? ==> r.value == file.lines[c.line - 1][c.start.value - 2]
  {
    match LineOfCommand(c, file)
    case None => None
    case Some(line) =>
      if |line| == 0 || c.start.None? || c.start.value <= 2 then None
      else
        var suffix := line[c.start.value - 2..];
        if |suffix| == 0 then None else Some(suffix[0])
  }

  /** The command is flagged by the prefix check: its preceding character exists and is neither whitespace nor `/`. */
  predicate HasBadPrefix(c: Command, file: SwiftLintFile)
    requires StartWithinLine(c, file)
  {
    var p := PrecedingCharacter(c, file);
    p.Some? && !IsAllowedPrefix(p.value)
  }

  /**
    `invalidReason`: why a command is invalid, by priority: an invalid action,
    then an invalid modifier, then an empty rule list; nil for a command with
    none of these faults.
  */
  function InvalidReason(c: Command): (r: Option<string>)
    ensures c.action == InvalidAction ==> r == Some(InvalidActionReason)
    ensures c.action != InvalidAction && c.modifier == Some(InvalidModifier) ==> r == Some(InvalidModifierReason)
    ensures c.action != InvalidAction && c.modifier != Some(InvalidModifier) && c.ruleIdentifiers == [] ==> r == Some(NoRulesReason)
    ensures r.None? <==> c.action != InvalidAction && c.modifier != Some(InvalidModifier) && c.ruleIdentifiers != []
  {
    if c.action == InvalidAction then Some(InvalidActionReason)
    else if c.modifier == Some(InvalidModifier) then Some(InvalidModifierReason)
    else if |c.ruleIdentifiers| == 0 then Some(NoRulesReason)
    else None
  }

  /**
    The reason reported for an invalid command: its `invalidReason`, or the
    rule's description when the command has none of the three faults.
  */
  function ReportedReason(c: Command): (r: string)
    ensures r in {InvalidActionReason, InvalidModifierReason, NoRulesReason, Description}
    ensures InvalidReason(c).Some? ==> r == InvalidReason(c).value
    ensures r == InvalidActionReason <==> c.action == InvalidAction
    ensures r == Description <==> c.action != InvalidAction && c.modifier != Some(InvalidModifier) && c.ruleIdentifiers != []
  {
    match InvalidReason(c)
    case Some(reason) => reason
    case None => Description
  }

  /** Every command of the list satisfies what `precedingCharacter` needs. */
  predicate AllStartsWithinLines(cs: seq<Command>, file: SwiftLintFile) {
    forall i :: 0 <= i < |cs| ==> StartWithinLine(cs[i], file)
  }

  /** The commands flagged by the prefix check, in order. */
  function Offending(cs: seq<Command>, file: SwiftLintFile): (r: seq<Command>)
    requires AllStartsWithinLines(cs, file)
  {
    if cs == [] then []
    else (if HasBadPrefix(cs[0], file) then [cs[0]] else []) + Offending(cs[1..], file)
  }

  /** A command is among the offending ones iff it is one of the commands and fails the prefix check. */
  lemma {:induction false} OffendingMembership(cs: seq<Command>, file: SwiftLintFile)
    requires AllStartsWithinLines(cs, file)
    ensures forall i :: 0 <= i < |cs| && HasBadPrefix(cs[i], file) ==> cs[i] in Offending(cs, file)
    ensures forall j :: 0 <= j < |Offending(cs, file)| ==>
      Offending(cs, file)[j] in cs && StartWithinLine(Offending(cs, file)[j], file) && HasBadPrefix(Offending(cs, file)[j], file)
  {
    if cs != [] {
      OffendingMembership(cs[1..], file);
      forall i | 0 < i < |cs| && HasBadPrefix(cs[i], file)
        ensures cs[i] in Offending(cs, file)
      {
        assert cs[1..][i - 1] == cs[i];
      }
    }
  }

  /** The rule with its configured severity (a warning by default). */
  datatype InvalidSwiftLintCommandRule = InvalidSwiftLintCommandRule(severity: Severity) {

    /** `styleViolation`: a diagnostic of this rule at the command's line and start column. */
    function StyleViolationFor(c: Command, file: SwiftLintFile, reason: string): (v: StyleViolation)
      ensures v.ruleIdentifier == Identifier && v.severity == severity && v.reason == reason
      ensures v.location == Location(file.path, Some(c.line), c.start)
    {
      StyleViolation(Identifier, severity, Location(file.path, Some(c.line), c.start), reason)
    }

    /**
      The `compactMap` of `badPrefixViolations` over a list of commands: one
      diagnostic per command that fails the prefix check, in command order.
    */
    function BadPrefixViolationsIn(cs: seq<Command>, file: SwiftLintFile): (r: seq<StyleViolation>)
      requires AllStartsWithinLines(cs, file)
      ensures |r| == |Offending(cs, file)|
      ensures forall j :: 0 <= j < |r| ==> r[j] == StyleViolationFor(Offending(cs, file)[j], file, BadPrefixReason)
    {
      if cs == [] then []
      else
        assert StartWithinLine(cs[0], file);
        var rest := BadPrefixViolationsIn(cs[1..], file);
        var later := Offending(cs[1..], file);
        if HasBadPrefix(cs[0], file) then
          assert Offending(cs, file) == [cs[0]] + later;
          [StyleViolationFor(cs[0], file, BadPrefixReason)] + rest
        else
          assert Offending(cs, file) == later;
          rest
    }

    /** `badPrefixViolations`: the prefix check over the valid commands, then the invalid ones. */
    function BadPrefixViolations(file: SwiftLintFile): (r: seq<StyleViolation>)
      requires AllStartsWithinLines(file.commands + file.invalidCommands, file)
      ensures forall i :: 0 <= i < |file.commands + file.invalidCommands| && HasBadPrefix((file.commands + file.invalidCommands)[i], file) ==>
        StyleViolationFor((file.commands + file.invalidCommands)[i], file, BadPrefixReason) in r
      ensures forall j :: 0 <= j < |r| ==>
        exists c :: (c in file.commands + file.invalidCommands && StartWithinLine(c, file) && HasBadPrefix(c, file)
          && r[j] == StyleViolationFor(c, file, BadPrefixReason))
    {
      var cs := file.commands + file.invalidCommands;
      OffendingMembership(cs, file);
      var r := BadPrefixViolationsIn(cs, file);
      forall i | 0 <= i < |cs| && HasBadPrefix(cs[i], file)
        ensures StyleViolationFor(cs[i], file, BadPrefixReason) in r
      {
        var j :| 0 <= j < |Offending(cs, file)| && Offending(cs, file)[j] == cs[i];
        assert r[j] == StyleViolationFor(cs[i], file, BadPrefixReason);
      }
      forall j | 0 <= j < |r|
        ensures exists c :: (c in cs && StartWithinLine(c, file) && HasBadPrefix(c, file)
          && r[j] == StyleViolationFor(c, file, BadPrefixReason))
      {
        var c := Offending(cs, file)[j];
        assert c in cs && StartWithinLine(c, file) && HasBadPrefix(c, file);
        assert r[j] == StyleViolationFor(c, file, BadPrefixReason);
      }
      r
    }

    /** `invalidCommandViolations`: one diagnostic per invalid command, in order, with its reported reason. */
    function InvalidCommandViolations(file: SwiftLintFile): (r: seq<StyleViolation>)
      ensures |r| == |file.invalidCommands|
      ensures forall i :: 0 <= i < |r| ==>
        && r[i].ruleIdentifier == Identifier && r[i].severity == severity
        && r[i].location == Location(file.path, Some(file.invalidCommands[i].line), file.invalidCommands[i].start)
        && r[i].reason == ReportedReason(file.invalidCommands[i])
        && r[i].reason in {InvalidActionReason, InvalidModifierReason, NoRulesReason, Description}
        && (r[i].reason == InvalidActionReason <==> file.invalidCommands[i].action == InvalidAction)
    {
      seq(|file.invalidCommands|, i requires 0 <= i < |file.invalidCommands| =>
        StyleViolationFor(file.invalidCommands[i], file, ReportedReason(file.invalidCommands[i])))
    }

    /**
      `validate`: the bad-prefix diagnostics, then exactly one diagnostic per
      invalid command in order. Every diagnostic is this rule's, carries the
      configured severity, and sits at the line and start column of a command
      of the file.
    */
    function Validate(file: SwiftLintFile): (r: seq<StyleViolation>)
      requires AllStartsWithinLines(file.commands + file.invalidCommands, file)
      ensures |r| == |Offending(file.commands + file.invalidCommands, file)| + |file.invalidCommands|
      ensures forall j :: 0 <= j < |Offending(file.commands + file.invalidCommands, file)| ==>
        r[j] == StyleViolationFor(Offending(file.commands + file.invalidCommands, file)[j], file, BadPrefixReason)
      ensures forall i :: 0 <= i < |file.invalidCommands| ==>
        r[|r| - |file.invalidCommands| + i] == StyleViolationFor(file.invalidCommands[i], file, ReportedReason(file.invalidCommands[i]))
      ensures forall j :: 0 <= j < |r| ==>
        && r[j].ruleIdentifier == Identifier && r[j].severity == severity
        && exists c :: c in file.commands + file.invalidCommands && r[j].location == Location(file.path, Some(c.line), c.start)
    {
      var cs := file.commands + file.invalidCommands;
      var bad, invalid := BadPrefixViolations(file), InvalidCommandViolations(file);
      assert bad == BadPrefixViolationsIn(cs, file);
      BadPrefixDiagnosticsAtCommands(file);
      InvalidDiagnosticsAtCommands(file);
      bad + invalid
    }

    /** Every bad-prefix diagnostic is this rule's, with its severity, at the position of one of the file's commands. */
    lemma BadPrefixDiagnosticsAtCommands(file: SwiftLintFile)
      requires AllStartsWithinLines(file.commands + file.invalidCommands, file)
      ensures forall j :: 0 <= j < |BadPrefixViolationsIn(file.commands + file.invalidCommands, file)| ==>
        var v := BadPrefixViolationsIn(file.commands + file.invalidCommands, file)[j];
        && v.ruleIdentifier == Identifier && v.severity == severity
        && exists c :: c in file.commands + file.invalidCommands && v.location == Location(file.path, Some(c.line), c.start)
    {
      var cs := file.commands + file.invalidCommands;
      OffendingMembership(cs, file);
      forall j | 0 <= j < |BadPrefixViolationsIn(cs, file)|
        ensures exists c :: c in cs && BadPrefixViolationsIn(cs, file)[j].location == Location(file.path, Some(c.line), c.start)
      {
        assert Offending(cs, file)[j] in cs;
      }
    }

    /** Every invalid-command diagnostic is this rule's, with its severity, at the position of one of the file's commands. */
    lemma InvalidDiagnosticsAtCommands(file: SwiftLintFile)
      ensures forall j :: 0 <= j < |InvalidCommandViolations(file)| ==>
        var v := InvalidCommandViolations(file)[j];
        && v.ruleIdentifier == Identifier && v.severity == severity
        && exists c :: c in file.commands + file.invalidCommands && v.location == Location(file.path, Some(c.line), c.start)
    {
      var cs := file.commands + file.invalidCommands;
      forall j | 0 <= j < |InvalidCommandViolations(file)|
        ensures exists c :: c in cs && InvalidCommandViolations(file)[j].location == Location(file.path, Some(c.line), c.start)
      {
        assert file.invalidCommands[j] == cs[|file.commands| + j];
      }
    }

    /** The bad-prefix diagnostics of a file with a single command. */
    lemma BadPrefixViolationsSingle(file: SwiftLintFile, c: Command)
      requires file.commands + file.invalidCommands == [c] && StartWithinLine(c, file)
      ensures AllStartsWithinLines(file.commands + file.invalidCommands, file)
      ensures BadPrefixViolations(file) == if HasBadPrefix(c, file) then [StyleViolationFor(c, file, BadPrefixReason)] else []
    {
      assert AllStartsWithinLines([c], file);
      assert BadPrefixViolations(file) == BadPrefixViolationsIn([c], file);
      assert [c][1..] == [];
    }

    /** The invalid-command diagnostics of a file with a single command. */
    lemma InvalidCommandViolationsSingle(file: SwiftLintFile, c: Command)
      requires file.commands + file.invalidCommands == [c]
      ensures InvalidCommandViolations(file) ==
        if file.invalidCommands == [c] then [StyleViolationFor(c, file, ReportedReason(c))] else []
    {
      assert file.invalidCommands == [] || file.invalidCommands == [c];
    }

    /** A file with a single command gets at most its bad-prefix diagnostic followed by its invalid-command diagnostic. */
    lemma ValidateSingleCommand(file: SwiftLintFile, c: Command)
      requires file.commands + file.invalidCommands == [c] && StartWithinLine(c, file)
      ensures AllStartsWithinLines(file.commands + file.invalidCommands, file)
      ensures Validate(file) ==
        (if HasBadPrefix(c, file) then [StyleViolationFor(c, file, BadPrefixReason)] else [])
        + (if file.invalidCommands == [c] then [StyleViolationFor(c, file, ReportedReason(c))] else [])
    {
      BadPrefixViolationsSingle(file, c);
      InvalidCommandViolationsSingle(file, c);
      assert Validate(file) == BadPrefixViolations(file) + InvalidCommandViolations(file);
    }
  }

  // ---------------------------------------------------------------------------
  // The rule's own examples
  // ---------------------------------------------------------------------------

  /** In `// sswiftlint:disable unused_import` the character before the keyword is the letter `s`. */
  lemma LetterBeforeKeywordPrefix()
    ensures
      var c := Command(Disable, None, ["unused_import"], 1, Some(5));
      var file := SwiftLintFile(None, ["// sswiftlint:disable unused_import"], [c], []);
      StartWithinLine(c, file) && PrecedingCharacter(c, file) == Some('s') && HasBadPrefix(c, file)
  {
    var c := Command(Disable, None, ["unused_import"], 1, Some(5));
    var file := SwiftLintFile(None, ["// sswiftlint:disable unused_import"], [c], []);
    assert file.lines[0][3] == 's';
  }

  /** A letter glued to the keyword is flagged: `// s↓swiftlint:disable unused_import`. */
  lemma LetterBeforeKeywordIsFlagged()
    ensures
      var c := Command(Disable, None, ["unused_import"], 1, Some(5));
      var file := SwiftLintFile(None, ["// sswiftlint:disable unused_import"], [c], []);
      InvalidSwiftLintCommandRule(Warning).Validate(file)
        == [StyleViolation(Identifier, Warning, Location(None, Some(1), Some(5)), BadPrefixReason)]
  {
    var c := Command(Disable, None, ["unused_import"], 1, Some(5));
    var file := SwiftLintFile(None, ["// sswiftlint:disable unused_import"], [c], []);
    LetterBeforeKeywordPrefix();
    InvalidSwiftLintCommandRule(Warning).ValidateSingleCommand(file, c);
  }

  /** In `//swiftlint:disable:this unused_import` the character before the keyword is `/`. */
  lemma SlashBeforeKeywordPrefix()
    ensures
      var c := Command(Disable, Some(This), ["unused_import"], 1, Some(3));
      var file := SwiftLintFile(None, ["//swiftlint:disable:this unused_import"], [c], []);
      StartWithinLine(c, file) && PrecedingCharacter(c, file) == Some('/') && !HasBadPrefix(c, file)
  {
    var c := Command(Disable, Some(This), ["unused_import"], 1, Some(3));
    var file := SwiftLintFile(None, ["//swiftlint:disable:this unused_import"], [c], []);
    assert file.lines[0][1] == '/';
  }

  /** The comment leader directly before the keyword is fine: `//swiftlint:disable:this unused_import`. */
  lemma SlashBeforeKeywordIsAccepted()
    ensures
      var c := Command(Disable, Some(This), ["unused_import"], 1, Some(3));
      var file := SwiftLintFile(None, ["//swiftlint:disable:this unused_import"], [c], []);
      InvalidSwiftLintCommandRule(Warning).Validate(file) == []
  {
    var c := Command(Disable, Some(This), ["unused_import"], 1, Some(3));
    var file := SwiftLintFile(None, ["//swiftlint:disable:this unused_import"], [c], []);
    SlashBeforeKeywordPrefix();
    InvalidSwiftLintCommandRule(Warning).ValidateSingleCommand(file, c);
  }

  /** In `// swiftlint:disable` the character before the keyword is a space. */
  lemma SpaceBeforeKeywordPrefix()
    ensures
      var c := Command(Disable, None, [], 1, Some(4));
      var file := SwiftLintFile(None, ["// swiftlint:disable"], [], [c]);
      StartWithinLine(c, file) && PrecedingCharacter(c, file) == Some(' ') && !HasBadPrefix(c, file)
  {
    var c := Command(Disable, None, [], 1, Some(4));
    var file := SwiftLintFile(None, ["// swiftlint:disable"], [], [c]);
    assert file.lines[0][2] == ' ';
  }

  /** A command without rules is reported once, with its reason: `// ↓swiftlint:disable`. */
  lemma MissingRulesAreReported()
    ensures
      var c := Command(Disable, None, [], 1, Some(4));
      var file := SwiftLintFile(None, ["// swiftlint:disable"], [], [c]);
      InvalidSwiftLintCommandRule(Warning).Validate(file)
        == [StyleViolation(Identifier, Warning, Location(None, Some(1), Some(4)), NoRulesReason)]
  {
    var c := Command(Disable, None, [], 1, Some(4));
    var file := SwiftLintFile(None, ["// swiftlint:disable"], [], [c]);
    SpaceBeforeKeywordPrefix();
    InvalidSwiftLintCommandRule(Warning).ValidateSingleCommand(file, c);
  }
}
