/**
  The string helpers of the `swiftlint configure` wizard: splitting a path
  into components, bold text for the terminal, the terminal colour test,
  ASCII lower-casing for answers, and the ordering Swift's `>` gives strings.
*/
module ConfigureStrings {
  import opened Wrappers
  import ArrayExtensions

  // ---------------------------------------------------------------------------
  // components(separatedBy:), firstPathComponent
  // ---------------------------------------------------------------------------

  /** `components(separatedBy:)` for a one-character separator: the pieces between separators, never none. */
  function Components(s: string, sep: char): (parts: seq<string>)
    ensures |parts| >= 1
    ensures forall i :: 0 <= i < |parts| ==> sep !in parts[i]
    decreases |s|
  {
    if sep !in s then [s]
    else
      var i := ArrayExtensions.FirstIndex(s, sep);
      [s[..i]] + Components(s[i + 1..], sep)
  }

  /** `joined(separator:)`: the pieces with the separator between consecutive ones. */
  function Joined(parts: seq<string>, sep: char): string
    requires |parts| >= 1
  {
    if |parts| == 1 then parts[0] else parts[0] + [sep] + Joined(parts[1..], sep)
  }

  /** Splitting loses nothing: joining the components gives back the string. */
  lemma {:induction false} JoinedComponents(s: string, sep: char)
    ensures Joined(Components(s, sep), sep) == s
    decreases |s|
  {
    if sep in s {
      var i := ArrayExtensions.FirstIndex(s, sep);
      JoinedComponents(s[i + 1..], sep);
      assert s == s[..i] + [sep] + s[i + 1..];
    }
  }

  /** Splitting a string that starts with a separator-free piece and a separator. */
  lemma ComponentsCons(a: string, sep: char, b: string)
    requires sep !in a
    ensures Components(a + [sep] + b, sep) == [a] + Components(b, sep)
  {
    var s := a + [sep] + b;
    assert s[|a|] == sep;
    var i := ArrayExtensions.FirstIndex(s, sep);
    assert i == |a|;
    assert s[..i] == a && s[i + 1..] == b;
  }

  /**
    `firstPathComponent`: the text before the first `/`, or the whole path
    when it has none. Never nil, since splitting always yields a piece.
  */
  function FirstPathComponent(path: string): (r: Option<string>)
    ensures r.Some?
    ensures '/' !in r.value
    ensures r.value <= path
    ensures '/' !in path ==> r.value == path
    ensures '/' in path ==> |r.value| < |path| && path[|r.value|] == '/'
  {
    var components := Components(path, '/');
    assert '/' in path ==> components[0] == path[..ArrayExtensions.FirstIndex(path, '/')];
    Some(components[0])
  }

  // ---------------------------------------------------------------------------
  // boldify, terminal colour support
  // ---------------------------------------------------------------------------

  /** The escape sequence that turns bold on. */
  const BoldOn: string := "\U{1B}[0;1m"

  /** The escape sequence that resets the attributes. */
  const ResetAttributes: string := "\U{1B}[0;0m"

  /** `boldify`: the text between the bold-on and reset sequences, so that it can be recovered. */
  function Boldify(s: string): (r: string)
    ensures |r| == |s| + 12
    ensures r[..6] == BoldOn && r[|r| - 6..] == ResetAttributes
    ensures r[6..|r| - 6] == s
  {
    BoldOn + s + ResetAttributes
  }

  /** `contains` on strings: `t` occurs as a contiguous piece of `s`. */
  predicate Contains(s: string, t: string)
    decreases |s|
  {
    t <= s || (s != [] && Contains(s[1..], t))
  }

  /** A piece found at offset `i` is contained. */
  lemma {:induction false} ContainsAt(s: string, t: string, i: nat)
    requires i <= |s| && t <= s[i..]
    ensures Contains(s, t)
    decreases i
  {
    if i > 0 {
      assert s[1..][i - 1..] == s[i..];
      ContainsAt(s[1..], t, i - 1);
    }
  }

  /** `t` is the slice of `s` starting at offset `i`. */
  predicate OccursAt(s: string, t: string, i: int) {
    0 <= i && i + |t| <= |s| && s[i..i + |t|] == t
  }

  /** `t` is contained in `s` exactly when it occurs in `s` at some offset. */
  lemma {:induction false} ContainsOccurs(s: string, t: string)
    ensures Contains(s, t) <==> exists i :: OccursAt(s, t, i)
    decreases |s|
  {
    if Contains(s, t) {
      if t <= s {
        assert OccursAt(s, t, 0);
      } else {
        ContainsOccurs(s[1..], t);
        var i :| OccursAt(s[1..], t, i);
        assert s[i + 1..i + 1 + |t|] == s[1..][i..i + |t|];
        assert OccursAt(s, t, i + 1);
      }
    }
    if exists i :: OccursAt(s, t, i) {
      var i :| OccursAt(s, t, i);
      assert s[i..][..|t|] == t;
      ContainsAt(s, t, i);
    }
  }

  /** No piece starting with a character absent from `s` is contained in it. */
  lemma {:induction false} FirstCharacterAbsent(s: string, t: string)
    requires t != [] && t[0] !in s
    ensures !Contains(s, t)
    decreases |s|
  {
    if s != [] {
      assert s == [s[0]] + s[1..];
      FirstCharacterAbsent(s[1..], t);
    }
  }

  /** Nothing longer than `s` is contained in it. */
  lemma {:induction false} LongerNotContained(s: string, t: string)
    requires |t| > |s|
    ensures !Contains(s, t)
    decreases |s|
  {
    if s != [] {
      LongerNotContained(s[1..], t);
    }
  }

  /**
    `terminalSupportsColor`: standard output is a terminal and the `TERM`
    variable is set and mentions both `color` and `256`. Whether the output
    is a terminal and the environment are inputs here.
  */
  predicate TerminalSupportsColor(isTerminal: bool, term: Option<string>)
    ensures TerminalSupportsColor(isTerminal, term) <==>
      && isTerminal && term.Some?
      && (exists i :: OccursAt(term.value, "color", i))
      && (exists i :: OccursAt(term.value, "256", i))
  {
    if isTerminal && term.Some? then
      ContainsOccurs(term.value, "color");
      ContainsOccurs(term.value, "256");
      Contains(term.value, "color") && Contains(term.value, "256")
    else
      false
  }

  /** `xterm-256color` holds both words. */
  lemma FullTermContainsBoth()
    ensures Contains("xterm-256color", "256") && Contains("xterm-256color", "color")
  {
    var full := "xterm-256color";
    ContainsAt(full, "256", 6);
    ContainsAt(full, "color", 9);
  }

  /** `xterm` lacks `color`. */
  lemma PlainTermLacksColor()
    ensures !Contains("xterm", "color")
  {
    var plain, color := "xterm", "color";
    LongerNotContained(plain[1..], color);
    assert plain[0] != color[0];
  }

  /** `xterm-color` lacks `256`. */
  lemma ColorTermLacks256()
    ensures !Contains("xterm-color", "256")
  {
    FirstCharacterAbsent("xterm-color", "256");
  }

  /**
    The usual 256-colour terminal qualifies. A plain one does not, nor one
    that names colour without `256`, nor output that is not a terminal.
  */
  lemma TerminalSupportsColorExamples()
    ensures TerminalSupportsColor(true, Some("xterm-256color"))
    ensures !TerminalSupportsColor(true, Some("xterm"))
    ensures !TerminalSupportsColor(true, Some("xterm-color"))
    ensures !TerminalSupportsColor(false, Some("xterm-256color"))
    ensures !TerminalSupportsColor(true, None)
  {
    FullTermContainsBoth();
    PlainTermLacksColor();
    ColorTermLacks256();
  }

  // ---------------------------------------------------------------------------
  // lowercased
  // ---------------------------------------------------------------------------

  /**
    `lowercased` on one character, for ASCII letters: an upper-case letter
    becomes its lower-case partner, and every other character is unchanged.
  */
  function LowerChar(c: char): (r: char)
    ensures !('A' <= r <= 'Z')
    ensures 'A' <= c <= 'Z' ==> 'a' <= r <= 'z' && r as int - c as int == 'a' as int - 'A' as int
    ensures !('A' <= c <= 'Z') ==> r == c
  {
    if 'A' <= c <= 'Z' then (c as int - 'A' as int + 'a' as int) as char else c
  }

  /**
    `lowercased` on a string, character by character: no upper-case ASCII
    letter is left, and the one-letter answers the wizard looks for come from
    exactly their two cases.
  */
  function Lowercased(s: string): (r: string)
    ensures |r| == |s| && forall i :: 0 <= i < |s| ==> r[i] == LowerChar(s[i])
    ensures forall i :: 0 <= i < |r| ==> !('A' <= r[i] <= 'Z')
    ensures r == "y" <==> s == "y" || s == "Y"
    ensures r == "n" <==> s == "n" || s == "N"
  {
    var r := seq(|s|, i requires 0 <= i < |s| => LowerChar(s[i]));
    assert |s| == 1 ==> (r == "y" <==> r[0] == 'y') && (r == "n" <==> r[0] == 'n');
    assert |s| == 1 ==> (s == "y" <==> s[0] == 'y') && (s == "Y" <==> s[0] == 'Y');
    assert |s| == 1 ==> (s == "n" <==> s[0] == 'n') && (s == "N" <==> s[0] == 'N');
    r
  }

  // ---------------------------------------------------------------------------
  // String ordering
  // ---------------------------------------------------------------------------

  /** Swift's `<` on strings: lexicographic order of the characters, a proper prefix first. */
  predicate StringPrecedes(a: string, b: string)
    decreases |a|
  {
    if a == [] then b != []
    else b != [] && (a[0] < b[0] || (a[0] == b[0] && StringPrecedes(a[1..], b[1..])))
  }

  /** No string precedes itself. */
  lemma {:induction false} StringPrecedesIrreflexive(a: string)
    ensures !StringPrecedes(a, a)
    decreases |a|
  {
    if a != [] {
      StringPrecedesIrreflexive(a[1..]);
    }
  }

  /** The order is transitive. */
  lemma {:induction false} StringPrecedesTransitive(a: string, b: string, c: string)
    requires StringPrecedes(a, b) && StringPrecedes(b, c)
    ensures StringPrecedes(a, c)
    decreases |a|
  {
    if a != [] && a[0] == b[0] && b[0] == c[0] {
      StringPrecedesTransitive(a[1..], b[1..], c[1..]);
    }
  }

  /** Any two different strings are ordered one way or the other. */
  lemma {:induction false} StringPrecedesTotal(a: string, b: string)
    requires a != b
    ensures StringPrecedes(a, b) || StringPrecedes(b, a)
    decreases |a|
  {
    if a != [] && b != [] && a[0] == b[0] {
      assert a == [a[0]] + a[1..] && b == [b[0]] + b[1..];
      StringPrecedesTotal(a[1..], b[1..]);
    }
  }
}
