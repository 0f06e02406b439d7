/**
 What printing and reading back does to a content with white space around its core.
 */
module TranscriptMargins {
  import opened Text
  import opened TextLines
  import opened Transcript
  import opened TranscriptCodec

  // ----- Texts and their lines

  /** The only line breaks are newlines. */
  predicate NewlinesOnly(s: string) {
    forall c :: c in s && IsBreak(c) ==> c == '\n'
  }

  lemma {:induction false} SplitChars(s: string)
    ensures forall l, c :: l in Split(s) && c in l ==> c in s
  {
    if s != "" {
      var t, c := s[..|s| - 1], s[|s| - 1];
      SplitChars(t);
      SplitSnoc(t, c);
      assert t + [c] == s;
      assert LastLine(t) in Split(t);
      assert forall l :: l in Closed(t) ==> l in Split(t);
    }
  }

  lemma {:induction false} TerminatedChars(lines: seq<string>)
    ensures forall c :: c in Terminated(lines) ==> c == '\n' || exists i :: 0 <= i < |lines| && c in lines[i]
  {
    if lines != [] {
      var rest := lines[..|lines| - 1];
      TerminatedChars(rest);
      forall c | c in Terminated(lines) && c != '\n' ensures exists i :: 0 <= i < |lines| && c in lines[i] {
        if c in Terminated(rest) {
          var i :| 0 <= i < |rest| && c in rest[i];
          assert c in lines[i];
        } else {
          assert c in lines[|lines| - 1];
        }
      }
    }
  }

  lemma CharsInLines(s: string)
    ensures forall c :: c in s && c != '\n' ==> exists i :: 0 <= i < |Split(s)| && c in Split(s)[i]
  {
    hide Split;
    var lines := Split(s);
    JoinSplit(s);
    TerminatedChars(Closed(s));
    forall c | c in s && c != '\n' ensures exists i :: 0 <= i < |lines| && c in lines[i] {
      if c in Terminated(Closed(s)) {
        var i :| 0 <= i < |Closed(s)| && c in Closed(s)[i];
        assert c in lines[i];
      } else {
        assert c in lines[|lines| - 1];
      }
    }
  }

  /** The lines of a text broken by newlines only hold no break character, and conversely. */
  lemma TameLines(s: string)
    ensures NewlinesOnly(s) <==> forall l :: l in Split(s) ==> NoBreaks(l)
  {
    hide Split;
    SplitChars(s);
    SplitLinesAreLines(s);
    if forall l :: l in Split(s) ==> NoBreaks(l) {
      CharsInLines(s);
      var lines := Split(s);
      forall c | c in s && c != '\n' ensures !IsBreak(c) {
        var i :| 0 <= i < |lines| && c in lines[i];
        assert lines[i] in lines;
      }
    }
  }

  lemma {:induction false} StripRightPart(s: string)
    ensures exists v :: s == StripRight(s) + v
  {
    if s != "" && IsSpace(s[|s| - 1]) {
      StripRightPart(s[..|s| - 1]);
      var v :| s[..|s| - 1] == StripRight(s[..|s| - 1]) + v;
      assert s == StripRight(s) + (v + [s[|s| - 1]]);
    } else {
      assert s == StripRight(s) + "";
    }
  }

  lemma {:induction false} StripLeftPart(s: string)
    ensures exists u :: s == u + StripLeft(s)
  {
    if s != "" && IsSpace(s[0]) {
      StripLeftPart(s[1..]);
      var u :| s[1..] == u + StripLeft(s[1..]);
      assert s == ([s[0]] + u) + StripLeft(s);
    } else {
      assert s == "" + StripLeft(s);
    }
  }

  lemma NewlineIsSpace()
    ensures IsSpace('\n') && !IsSpace('#')
  {
  }

  lemma {:induction false} StripLeftEmpty(s: string)
    requires StripLeft(s) == ""
    ensures forall c :: c in s ==> IsSpace(c)
  {
    if s != "" {
      StripLeftEmpty(s[1..]);
      assert s == [s[0]] + s[1..];
    }
  }

  lemma {:induction false} StripLeftKeeps(s: string, after: string)
    requires StripLeft(s) != ""
    ensures StripLeft(s + after) == StripLeft(s) + after
  {
    if IsSpace(s[0]) {
      assert (s + after)[1..] == s[1..] + after;
      StripLeftKeeps(s[1..], after);
    }
  }

  lemma StripPaddedAny(before: string, s: string, after: string)
    requires forall c :: c in before || c in after ==> IsSpace(c)
    ensures Strip(before + s + after) == Strip(s)
  {
    assert before + s + after == before + (s + after);
    StripLeftSpaces(before, s + after);
    StripLeftPart(s);
    var u :| s == u + StripLeft(s);
    if StripLeft(s) == "" {
      StripLeftEmpty(s);
      StripLeftSpaces(s, after);
      StripLeftSpaces(after, "");
      assert after + "" == after;
    } else {
      StripLeftKeeps(s, after);
      StripRightSpaces(StripLeft(s), after);
    }
  }

  lemma StripNothing()
    ensures Strip("") == ""
  {
  }

  lemma UnescapedSplit(s: string)
    ensures Split(Unescape(s)) == UnescapeLines(Split(s))
  {
    hide Split, Join, NeedsEscape;
    SplitLinesAreLines(s);
    forall l | l in UnescapeLines(Split(s)) ensures OneLine(l) {
      var i :| 0 <= i < |Split(s)| && l == UnescapeLine(Split(s)[i]);
      assert Split(s)[i] in Split(s);
    }
    SplitJoin(UnescapeLines(Split(s)));
  }

  lemma UnescapedEnds(line: string)
    requires IsEscaped(line)
    ensures |UnescapeLine(line)| > 0 && UnescapeLine(line)[0] == '#'
    ensures UnescapeLine(line)[|UnescapeLine(line)| - 1] == line[|line| - 1]
  {
    MarkerStart(line[1..]);
  }

  lemma UnescapedLineEnds(line: string)
    ensures UnescapeLine(line) == "" <==> line == ""
    ensures line != "" ==> UnescapeLine(line)[|UnescapeLine(line)| - 1] == line[|line| - 1]
    ensures line != "" ==> UnescapeLine(line)[0] == line[0] || UnescapeLine(line)[0] == '#'
  {
    if IsEscaped(line) {
      UnescapedEnds(line);
    }
  }

  lemma EscapeNothing()
    ensures Unescape("") == ""
  {
    UnescapedLineEnds("");
    assert UnescapeLines(Split("")) == [""];
    JoinOne("");
  }

  /** A text of joined lines, as the lines between surrounding blank ones. */
  lemma JoinPadded(before: seq<string>, lines: seq<string>, after: seq<string>)
    requires AllBlank(before) && AllBlank(after) && lines != []
    ensures Strip(JoinAll(before + lines + after)) == Strip(Join(lines))
  {
    hide Strip, Terminated;
    TerminatedBlanks(before);
    var all := before + lines + after;
    NewlineIsSpace();
    if after == [] {
      assert all == before + lines;
      assert all[..|all| - 1] == before + lines[..|lines| - 1];
      TerminatedAppend(before, lines[..|lines| - 1]);
      assert Join(all) == Terminated(before) + Join(lines) + "";
      StripPaddedAny(Terminated(before), Join(lines), "");
    } else {
      assert all[..|all| - 1] == before + lines + after[..|after| - 1];
      TerminatedAppend(before + lines, after[..|after| - 1]);
      TerminatedAppend(before, lines);
      JoinTerminated(lines);
      TerminatedBlanks(after[..|after| - 1]);
      var tail := "\n" + Terminated(after[..|after| - 1]);
      assert Join(all) == Terminated(before) + Join(lines) + tail;
      StripPaddedAny(Terminated(before), Join(lines), tail);
    }
  }

  // ----- The core of a text and its margins

  function Lead(s: string): string {
    StripLeftShrinks(s);
    s[..|s| - |StripLeft(s)|]
  }

  function Trail(s: string): string {
    StripShrinks(StripLeft(s));
    StripLeft(s)[|Strip(s)|..]
  }

  predicate AllSpace(s: string) {
    forall c :: c in s ==> IsSpace(c)
  }

  lemma {:induction false} LeadIsSpace(s: string)
    ensures |StripLeft(s)| <= |s| && s[|s| - |StripLeft(s)|..] == StripLeft(s)
    ensures AllSpace(s[..|s| - |StripLeft(s)|])
  {
    if s != "" && IsSpace(s[0]) {
      LeadIsSpace(s[1..]);
      var n := |s| - |StripLeft(s)|;
      assert s[..n] == [s[0]] + s[1..][..n - 1];
    }
  }

  lemma {:induction false} TrailIsSpace(s: string)
    ensures |StripRight(s)| <= |s| && s[..|StripRight(s)|] == StripRight(s)
    ensures AllSpace(s[|StripRight(s)|..])
  {
    if s != "" && IsSpace(s[|s| - 1]) {
      var rest := s[..|s| - 1];
      TrailIsSpace(rest);
      assert s[|StripRight(s)|..] == rest[|StripRight(s)|..] + [s[|s| - 1]];
    }
  }

  /** A text is its core between white space. */
  lemma Margins(s: string)
    ensures s == Lead(s) + Strip(s) + Trail(s)
    ensures AllSpace(Lead(s)) && AllSpace(Trail(s)) && Trim(Strip(s))
    ensures Strip(s) == "" ==> Trail(s) == ""
  {
    LeadIsSpace(s);
    TrailIsSpace(StripLeft(s));
    StripFixed(s);
    StripLeftShrinks(s);
    if Strip(s) == "" && StripLeft(s) != "" {
      StripRightKeepsFirst(StripLeft(s));
    }
  }

  /** The i-th line of a core with the margin on its own line. */
  function RawLine(before: string, core: seq<string>, after: string, i: nat): string
    requires i < |core|
  {
    (if i == 0 then LastLine(before) else "") + core[i] + (if i == |core| - 1 then Split(after)[0] else "")
  }

  function RawLines(before: string, core: seq<string>, after: string): (r: seq<string>)
    ensures |r| == |core| && forall i :: 0 <= i < |core| ==> r[i] == RawLine(before, core, after, i)
  {
    seq(|core|, i requires 0 <= i < |core| => RawLine(before, core, after, i))
  }

  /** The lines of a text, by those of its core and its margins. */
  lemma SplitAround(before: string, core: string, after: string)
    ensures Split(before + core + after) ==
      Closed(before) + RawLines(before, Split(core), after) + Split(after)[1..]
  {
    hide Split;
    SplitAppend(before, core);
    SplitAppend(before + core, after);
    var lines := Split(core);
    var raw := RawLines(before, lines, after);
    var joined := Closed(before) + [LastLine(before) + lines[0]] + lines[1..];
    assert Split(before + core) == joined;
    var n := |joined|;
    assert Closed(before + core) == joined[..n - 1] && LastLine(before + core) == joined[n - 1];
    AroundLines(before, lines, after);
    assert joined[..n - 1] + [joined[n - 1] + Split(after)[0]] == Closed(before) + raw;
  }

  lemma AroundLines(before: string, lines: seq<string>, after: string)
    requires lines != []
    ensures var joined := Closed(before) + [LastLine(before) + lines[0]] + lines[1..];
      var n := |joined|;
      joined[..n - 1] + [joined[n - 1] + Split(after)[0]] == Closed(before) + RawLines(before, lines, after)
  {
    hide Split, LastLine, Closed;
    var c := Closed(before);
    var joined := c + [LastLine(before) + lines[0]] + lines[1..];
    var n := |joined|;
    var whole := joined[..n - 1] + [joined[n - 1] + Split(after)[0]];
    var raw := RawLines(before, lines, after);
    assert |whole| == |c| + |lines|;
    forall i | 0 <= i < |lines| ensures whole[|c| + i] == raw[i] {
      assert raw[i] == RawLine(before, lines, after, i);
      assert "" + lines[i] == lines[i] && lines[i] + "" == lines[i];
      assert LastLine(before) + lines[0] + "" == LastLine(before) + lines[0];
    }
  }

  // ----- White lines

  lemma MarkerNotSpace()
    ensures !IsSpace('#') && !IsSpace('\\') && IsSpace('\n')
  {
  }

  /** A line that begins with white space is no marker line. */
  lemma SpaceFirst(line: string)
    requires line == "" || IsSpace(line[0])
    ensures !NeedsEscape(line) && EscapeLine(line) == line && !IsEscaped(line)
  {
    hide MarkerRole;
    MarkerNotSpace();
    if MarkerRole(line).Some? {
      MarkerStart(line);
    }
  }

  lemma SpaceLines(s: string)
    requires AllSpace(s)
    ensures forall l :: l in Split(s) ==> AllSpace(l)
  {
    hide Split, IsSpace;
    SplitChars(s);
  }

  // ----- Unescaping the stripped escape

  /** The raw line that holds the last line of the core. */
  function LastRaw(s: string): string {
    var core := Split(Strip(s));
    RawLine(Lead(s), core, Trail(s), |core| - 1)
  }

  /** No line of the core is an escaped marker line, and if the raw last line is a marker line, so is
      the core's. */
  predicate KeepsMarkers(s: string) {
    && (forall l :: l in Split(Strip(s)) ==> !IsEscaped(l))
    && (NeedsEscape(LastRaw(s)) ==> NeedsEscape(LastLine(Strip(s))))
  }

  /** A core line, escaped if its raw line is. */
  function Escaped(before: string, core: seq<string>, after: string, i: nat): string
    requires i < |core|
  {
    if NeedsEscape(RawLine(before, core, after, i)) then "\\" + core[i] else core[i]
  }

  function EscapedCore(before: string, core: seq<string>, after: string): (r: seq<string>)
    ensures |r| == |core| && forall i :: 0 <= i < |core| ==> r[i] == Escaped(before, core, after, i)
  {
    seq(|core|, i requires 0 <= i < |core| => Escaped(before, core, after, i))
  }

  /** Margins stay outside the backslash of a marker line. */
  lemma EscapeRaw(before: string, core: seq<string>, after: string, i: nat)
    requires i < |core| && AllSpace(before)
    ensures EscapeLine(RawLine(before, core, after, i)) ==
      RawLine(before, EscapedCore(before, core, after), after, i)
  {
    hide Split, NeedsEscape;
    var raw := RawLine(before, core, after, i);
    if NeedsEscape(raw) {
      RawMarkerStart(before, core, after, i);
      assert (if i == 0 then LastLine(before) else "") == "";
    }
  }

  /** Escaping a text escapes its core and leaves the margins alone. */
  lemma EscapeAround(before: string, core: string, after: string)
    requires AllSpace(before) && AllSpace(after)
    ensures Escape(before + core + after) == before + Join(EscapedCore(before, Split(core), after)) + after
  {
    hide Split, Join, Escape, RawLine, NeedsEscape, AllSpace;
    var s := before + core + after;
    var lines := EscapedCore(before, Split(core), after);
    EscapedCoreLines(before, core, after);
    SplitJoin(lines);
    SplitAround(before, core, after);
    SplitAround(before, Join(lines), after);
    EscapedSplit(s);
    WhiteEscapes(before);
    WhiteEscapes(after);
    forall i | 0 <= i < |lines|
      ensures EscapeLine(RawLines(before, Split(core), after)[i]) == RawLines(before, lines, after)[i]
    {
      EscapeRaw(before, Split(core), after, i);
    }
    var escaped := before + Join(lines) + after;
    assert Split(Escape(s)) == Split(escaped) by {
      var a, b, c := Closed(before), RawLines(before, Split(core), after), Split(after)[1..];
      assert EscapeLines(a + b + c) == a + RawLines(before, lines, after) + c;
    }
    JoinSplit(Escape(s));
    JoinSplit(escaped);
  }

  lemma WhiteEscapes(s: string)
    requires AllSpace(s)
    ensures forall l :: l in Split(s) ==> EscapeLine(l) == l
    ensures forall i :: 0 <= i < |Split(s)| ==> EscapeLine(Split(s)[i]) == Split(s)[i]
    ensures forall i :: 0 <= i < |Closed(s)| ==> EscapeLine(Closed(s)[i]) == Closed(s)[i]
  {
    hide Split, EscapeLine;
    SpaceLines(s);
    forall l | l in Split(s) ensures EscapeLine(l) == l {
      if l != "" {
        assert l[0] in l;
      }
      SpaceFirst(l);
    }
    assert forall i :: 0 <= i < |Split(s)| ==> Split(s)[i] in Split(s);
    assert forall i :: 0 <= i < |Closed(s)| ==> Closed(s)[i] == Split(s)[i];
  }

  lemma EscapedCoreLines(before: string, core: string, after: string)
    ensures forall l :: l in EscapedCore(before, Split(core), after) ==> OneLine(l)
  {
    hide Split, NeedsEscape, RawLine;
    SplitLinesAreLines(core);
    forall l | l in EscapedCore(before, Split(core), after) ensures OneLine(l) {
      var i :| 0 <= i < |Split(core)| && l == Escaped(before, Split(core), after, i);
      assert Split(core)[i] in Split(core);
    }
  }

  /** The escaped core of a trimmed text is trimmed. */
  lemma EscapedCoreTrim(before: string, core: string, after: string)
    requires Trim(core) && core != ""
    ensures Trim(Join(EscapedCore(before, Split(core), after)))
  {
    hide Split, Join, NeedsEscape, RawLine;
    var lines := EscapedCore(before, Split(core), after);
    EscapedCoreLines(before, core, after);
    SplitJoin(lines);
    Ends(core);
    Ends(Join(lines));
    MarkerNotSpace();
    assert Split(core)[0] != "" && LastLine(core) != "";
  }

  lemma UnescapedBack(escaped: bool, line: string)
    ensures UnescapeLine(if escaped then "\\" + line else line) == line <==>
      if escaped then NeedsEscape(line) else !IsEscaped(line)
  {
    assert ("\\" + line)[1..] == line;
  }

  /** Unescaping the stripped escape of a text gives its core exactly when it keeps its markers. */
  lemma UnescapesExactly(s: string)
    ensures Unescape(Strip(Escape(s))) == Strip(s) <==> KeepsMarkers(s)
  {
    hide Split, Join, Escape, Unescape, Strip, NeedsEscape, IsEscaped, RawLine;
    Margins(s);
    var before, core, after := Lead(s), Strip(s), Trail(s);
    var lines := EscapedCore(before, Split(core), after);
    EscapeAround(before, core, after);
    StripPaddedAny(before, Join(lines), after);
    if core == "" {
      EmptyCore(s);
    } else {
      EscapedCoreTrim(before, core, after);
      StripFixed(Join(lines));
      UnescapedCore(before, core, after);
      CoreMarkers(s);
    }
  }

  lemma EmptyCore(s: string)
    requires Strip(s) == ""
    ensures Unescape(Strip(Escape(s))) == "" && KeepsMarkers(s)
  {
    hide Split, Strip, NeedsEscape, IsEscaped;
    Margins(s);
    EmptySplit();
    SpaceFirst("");
    WhiteEscapes(s);
    assert EscapeLines(Split(s)) == Split(s);
    JoinSplit(s);
    EscapeNothing();
    SpaceLines(Lead(s));
    assert LastLine(Lead(s)) in Split(Lead(s));
    assert LastRaw(s) == LastLine(Lead(s));
    if LastRaw(s) != "" {
      assert LastRaw(s)[0] in LastRaw(s);
    }
    SpaceFirst(LastRaw(s));
  }

  /** Unescaping brings the i-th line of the core back. */
  predicate ComesBack(before: string, core: seq<string>, after: string, i: nat)
    requires i < |core|
  {
    UnescapeLine(Escaped(before, core, after, i)) == core[i]
  }

  /** Unescaping the escaped core gives the core exactly when each line comes back. */
  lemma UnescapedCore(before: string, core: string, after: string)
    ensures Unescape(Join(EscapedCore(before, Split(core), after))) == core <==>
      forall i :: 0 <= i < |Split(core)| ==> ComesBack(before, Split(core), after, i)
  {
    hide Split, Join, NeedsEscape, UnescapeLine, Escaped;
    var lines := EscapedCore(before, Split(core), after);
    EscapedCoreLines(before, core, after);
    SplitJoin(lines);
    UnescapedSplit(Join(lines));
    JoinSplit(core);
    JoinSplit(Unescape(Join(lines)));
    var back := UnescapeLines(lines);
    assert Unescape(Join(lines)) == core <==> back == Split(core);
    forall i | 0 <= i < |back|
      ensures ComesBack(before, Split(core), after, i) <==> back[i] == Split(core)[i]
    {
      assert back[i] == UnescapeLine(Escaped(before, Split(core), after, i));
    }
    assert back == Split(core) <==> forall i :: 0 <= i < |back| ==> back[i] == Split(core)[i];
  }

  /** Each line of a non-empty core comes back exactly when the text keeps its markers. */
  lemma CoreMarkers(s: string)
    requires Strip(s) != ""
    ensures KeepsMarkers(s) <==>
      forall i :: 0 <= i < |Split(Strip(s))| ==> ComesBack(Lead(s), Split(Strip(s)), Trail(s), i)
  {
    hide Split, Strip, NeedsEscape, IsEscaped, RawLine, ComesBack, LastRaw;
    var core := Split(Strip(s));
    var n := |core|;
    assert LastLine(Strip(s)) == core[n - 1];
    forall i | 0 <= i < n
      ensures ComesBack(Lead(s), core, Trail(s), i) <==>
        !IsEscaped(core[i]) && (i == n - 1 && NeedsEscape(LastRaw(s)) ==> NeedsEscape(core[i]))
    {
      CoreMarker(s, i);
    }
    assert (forall l :: l in core ==> !IsEscaped(l)) <==> forall i :: 0 <= i < n ==> !IsEscaped(core[i]);
    assert ComesBack(Lead(s), core, Trail(s), n - 1) <==>
      !IsEscaped(core[n - 1]) && (NeedsEscape(LastRaw(s)) ==> NeedsEscape(core[n - 1]));
  }

  lemma CoreMarker(s: string, i: nat)
    requires Strip(s) != "" && i < |Split(Strip(s))|
    ensures var core := Split(Strip(s));
      ComesBack(Lead(s), core, Trail(s), i) <==>
        !IsEscaped(core[i]) && (i == |core| - 1 && NeedsEscape(LastRaw(s)) ==> NeedsEscape(core[i]))
  {
    hide Split, Strip, NeedsEscape, UnescapeLine;
    var core := Split(Strip(s));
    var raw := RawLine(Lead(s), core, Trail(s), i);
    UnescapedBack(NeedsEscape(raw), core[i]);
    if NeedsEscape(raw) {
      Margins(s);
      RawMarkerStart(Lead(s), core, Trail(s), i);
      EndLinesFull(Strip(s));
      if i < |core| - 1 {
        assert core[i] + "" == core[i] && "" + core[i] == core[i];
      }
      NotEscaped(core[i]);
    }
  }

  lemma NotEscaped(line: string)
    requires line == "" || line[0] == '#'
    ensures !IsEscaped(line)
  {
    hide NeedsEscape;
  }

  lemma EndLinesFull(core: string)
    requires Trim(core) && core != ""
    ensures Split(core)[0] != "" && LastLine(core) != ""
  {
    hide Split;
    Ends(core);
    MarkerNotSpace();
  }

  /** A raw marker line has no margin before it, and its core line begins with its marker. */
  lemma RawMarkerStart(before: string, core: seq<string>, after: string, i: nat)
    requires i < |core| && AllSpace(before) && NeedsEscape(RawLine(before, core, after, i))
    ensures i == 0 ==> LastLine(before) == ""
    ensures core[i] != "" ==> core[i][0] == '#'
  {
    hide Split, MarkerRole;
    var raw := RawLine(before, core, after, i);
    MarkerStart(raw);
    MarkerNotSpace();
    LastLineSpace(before);
  }

  lemma LastLineSpace(s: string)
    requires AllSpace(s)
    ensures LastLine(s) != "" ==> IsSpace(LastLine(s)[0])
  {
    hide Split;
    SpaceLines(s);
    assert LastLine(s) in Split(s);
    if LastLine(s) != "" {
      assert LastLine(s)[0] in LastLine(s);
    }
  }

  // ----- Telemetry

  /** The first line that is not blank is a telemetry comment. */
  predicate BeginsWithTelemetry(lines: seq<string>) {
    var i := FirstFull(lines);
    i < |lines| && IsTelemetry(Strip(lines[i]))
  }

  /** Blankness and telemetry of a line are the same after escaping. */
  lemma EscapedSame(line: string)
    ensures IsBlank(EscapeLine(line)) <==> IsBlank(line)
    ensures IsTelemetry(Strip(EscapeLine(line))) <==> IsTelemetry(Strip(line))
  {
    hide Strip, MarkerRole;
    if NeedsEscape(line) {
      MarkerStart(line);
      MarkerNotSpace();
      StripKeepsFirst(line);
      StripKeepsFirst(EscapeLine(line));
    }
  }

  lemma {:induction false} EscapedFirstFull(lines: seq<string>)
    ensures FirstFull(EscapeLines(lines)) == FirstFull(lines)
  {
    hide IsBlank, EscapeLine;
    if lines != [] {
      EscapedSame(lines[0]);
      assert EscapeLines(lines)[1..] == EscapeLines(lines[1..]);
      EscapedFirstFull(lines[1..]);
    }
  }

  lemma EscapedBegins(lines: seq<string>)
    ensures BeginsWithTelemetry(EscapeLines(lines)) <==> BeginsWithTelemetry(lines)
  {
    hide IsBlank, EscapeLine, FirstFull, IsTelemetry, Strip;
    EscapedFirstFull(lines);
    if FirstFull(lines) < |lines| {
      EscapedSame(lines[FirstFull(lines)]);
    }
  }

  lemma {:induction false} FirstFullAround(before: seq<string>, lines: seq<string>, after: seq<string>)
    requires AllBlank(before) && AllBlank(after)
    ensures FirstFull(before + lines + after) ==
      if FirstFull(lines) < |lines| then |before| + FirstFull(lines) else |before| + |lines| + |after|
  {
    hide IsBlank;
    BlankLine();
    var all := before + lines + after;
    var i := FirstFull(all);
    assert forall j :: 0 <= j < |before| ==> all[j] == before[j];
    assert forall j :: 0 <= j < |lines| ==> all[|before| + j] == lines[j];
    assert forall j :: 0 <= j < |after| ==> all[|before| + |lines| + j] == after[j];
    assert forall j :: |before| + |lines| <= j < |all| ==> all[j] == after[j - |before| - |lines|];
    var k := FirstFull(lines);
    FirstFullIs(all, if k < |lines| then |before| + k else |all|);
  }

  lemma FirstFullIs(lines: seq<string>, i: nat)
    requires i <= |lines| && (i < |lines| ==> !IsBlank(lines[i])) && forall j :: 0 <= j < i ==> IsBlank(lines[j])
    ensures FirstFull(lines) == i
  {
    hide IsBlank;
  }

  lemma BeginsAround(before: seq<string>, lines: seq<string>, after: seq<string>)
    requires AllBlank(before) && AllBlank(after)
    ensures BeginsWithTelemetry(before + lines + after) <==> BeginsWithTelemetry(lines)
  {
    hide IsBlank, FirstFull, IsTelemetry, Strip;
    FirstFullAround(before, lines, after);
  }

  // ----- Counting full lines

  function FullLines(lines: seq<string>): nat {
    if lines == [] then 0
    else FullLines(lines[..|lines| - 1]) + if IsBlank(lines[|lines| - 1]) then 0 else 1
  }

  lemma {:induction false} FullAppend(a: seq<string>, b: seq<string>)
    ensures FullLines(a + b) == FullLines(a) + FullLines(b)
  {
    hide IsBlank;
    if b == [] {
      assert a + b == a;
    } else {
      assert (a + b)[..|a + b| - 1] == a + b[..|b| - 1];
      FullAppend(a, b[..|b| - 1]);
    }
  }

  lemma FullOne(line: string)
    ensures FullLines([line]) == if IsBlank(line) then 0 else 1
  {
    assert [line][..0] == [];
  }

  lemma {:induction false} FullBlanks(lines: seq<string>)
    requires forall i :: 0 <= i < |lines| ==> IsBlank(lines[i])
    ensures FullLines(lines) == 0
  {
    hide IsBlank;
    if lines != [] {
      FullBlanks(lines[..|lines| - 1]);
    }
  }

  lemma {:induction false} FullSame(a: seq<string>, b: seq<string>)
    requires |a| == |b| && forall i :: 0 <= i < |a| ==> (IsBlank(a[i]) <==> IsBlank(b[i]))
    ensures FullLines(a) == FullLines(b)
  {
    hide IsBlank;
    if a != [] {
      FullSame(a[..|a| - 1], b[..|b| - 1]);
    }
  }

  lemma EscapedFull(lines: seq<string>)
    ensures FullLines(EscapeLines(lines)) == FullLines(lines)
  {
    hide IsBlank, EscapeLine;
    forall i | 0 <= i < |lines| ensures IsBlank(EscapeLines(lines)[i]) <==> IsBlank(lines[i]) {
      EscapedSame(lines[i]);
    }
    FullSame(EscapeLines(lines), lines);
  }

  lemma UnescapedBlank(line: string)
    ensures IsBlank(UnescapeLine(line)) <==> IsBlank(line)
  {
    hide Strip, NeedsEscape;
    if IsEscaped(line) {
      UnescapedEnds(line);
      MarkerNotSpace();
      StripKeepsFirst(line);
      StripKeepsFirst(UnescapeLine(line));
    }
  }

  lemma UnescapedFull(lines: seq<string>)
    ensures FullLines(UnescapeLines(lines)) == FullLines(lines)
  {
    hide IsBlank, UnescapeLine;
    forall i | 0 <= i < |lines| ensures IsBlank(UnescapeLines(lines)[i]) <==> IsBlank(lines[i]) {
      UnescapedBlank(lines[i]);
    }
    FullSame(UnescapeLines(lines), lines);
  }

  /** White space at the ends of a text makes no full line. */
  lemma AroundFull(before: string, core: string, after: string)
    requires AllSpace(before) && AllSpace(after)
    ensures FullLines(Split(before + core + after)) == FullLines(Split(core))
  {
    hide Split, IsBlank, AllSpace, RawLine;
    SplitAround(before, core, after);
    var raw := RawLines(before, Split(core), after);
    FullAppend(Closed(before) + raw, Split(after)[1..]);
    FullAppend(Closed(before), raw);
    WhiteBlank(before);
    WhiteBlank(after);
    FullBlanks(Closed(before));
    FullBlanks(Split(after)[1..]);
    forall i | 0 <= i < |raw| ensures IsBlank(raw[i]) <==> IsBlank(Split(core)[i]) {
      RawBlank(before, Split(core), after, i);
    }
    FullSame(raw, Split(core));
  }

  lemma WhiteBlank(s: string)
    requires AllSpace(s)
    ensures forall i :: 0 <= i < |Closed(s)| ==> IsBlank(Closed(s)[i])
    ensures forall i :: 0 <= i < |Split(s)[1..]| ==> IsBlank(Split(s)[1..][i])
  {
    hide Split, IsBlank, AllSpace;
    SpaceLines(s);
    forall i | 0 <= i < |Split(s)| ensures IsBlank(Split(s)[i]) {
      assert Split(s)[i] in Split(s);
      SpaceBlank(Split(s)[i]);
    }
  }

  lemma SpaceBlank(line: string)
    requires AllSpace(line)
    ensures IsBlank(line)
  {
    StripPaddedAny(line, "", "");
    StripNothing();
    assert line + "" + "" == line;
  }

  lemma RawBlank(before: string, core: seq<string>, after: string, i: nat)
    requires i < |core| && AllSpace(before) && AllSpace(after)
    ensures IsBlank(RawLine(before, core, after, i)) <==> IsBlank(core[i])
  {
    hide Split, Strip;
    SpaceLines(before);
    SpaceLines(after);
    assert LastLine(before) in Split(before) && Split(after)[0] in Split(after);
    StripPaddedAny(
      if i == 0 then LastLine(before) else "", core[i], if i == |core| - 1 then Split(after)[0] else "");
  }

  lemma StrippedFull(s: string)
    ensures FullLines(Split(Strip(s))) == FullLines(Split(s))
  {
    hide Split, Strip, Lead, Trail, FullLines;
    Margins(s);
    AroundFull(Lead(s), Strip(s), Trail(s));
  }

  lemma TelemetryFull(lines: seq<string>)
    ensures FullLines(WithoutTelemetry(lines)) + (if BeginsWithTelemetry(lines) then 1 else 0) == FullLines(lines)
  {
    hide IsTelemetry, IsBlank, Strip, FirstFull;
    var i := FirstFull(lines);
    if BeginsWithTelemetry(lines) {
      assert lines == lines[..i] + [lines[i]] + lines[i + 1..];
      FullAppend(lines[..i], [lines[i]]);
      FullAppend(lines[..i] + [lines[i]], lines[i + 1..]);
      FullAppend(lines[..i], lines[i + 1..]);
      FullOne(lines[i]);
    }
  }

  lemma WithoutTelemetryIn(lines: seq<string>)
    ensures forall l :: l in WithoutTelemetry(lines) ==> l in lines
    ensures !BeginsWithTelemetry(lines) ==> WithoutTelemetry(lines) == lines
  {
    hide IsTelemetry, IsBlank, Strip, FirstFull;
  }

  /** Reading a block keeps the number of full lines, but for a telemetry line. */
  lemma ReadFull(lines: seq<string>)
    requires forall l :: l in lines ==> OneLine(l)
    ensures FullLines(Split(ContentOf(lines))) + (if BeginsWithTelemetry(lines) then 1 else 0) == FullLines(lines)
  {
    hide Split, Strip, Unescape, Join, WithoutTelemetry, BeginsWithTelemetry, FullLines;
    var kept := WithoutTelemetry(lines);
    WithoutTelemetryIn(lines);
    TelemetryFull(lines);
    var text := JoinAll(kept);
    UnescapedSplit(Strip(text));
    UnescapedFull(Split(Strip(text)));
    StrippedFull(text);
    JoinedFull(kept);
  }

  lemma JoinedFull(lines: seq<string>)
    requires forall l :: l in lines ==> OneLine(l)
    ensures FullLines(Split(JoinAll(lines))) == FullLines(lines)
  {
    hide Split, Join, IsBlank;
    if lines == [] {
      EmptySplit();
      FullOne("");
      BlankLine();
    } else {
      SplitJoin(lines);
    }
  }

  // ----- Contents that read back as their cores

  /** Broken by newlines only, every line with the marker prefix a marker line, no telemetry comment
      first, and markers kept. */
  predicate Fits(content: string) {
    && NewlinesOnly(content)
    && (forall l :: l in Split(content) && MARKER_PREFIX <= l ==> MarkerRole(l).Some?)
    && !BeginsWithTelemetry(Split(content))
    && KeepsMarkers(content)
  }

  /** A block holding the escaped lines of a content, blank lines around them, reads back as the
      content's core exactly when the content has no telemetry comment first and keeps its markers. */
  lemma ContentRoundTrip(before: seq<string>, content: string, after: seq<string>)
    requires AllBlank(before) && AllBlank(after)
    ensures ContentOf(before + EscapeLines(Split(content)) + after) == Strip(content) <==>
      !BeginsWithTelemetry(Split(content)) && KeepsMarkers(content)
  {
    hide Split, Strip, Escape, Unescape, Join, ContentOf;
    hide KeepsMarkers, BeginsWithTelemetry, WithoutTelemetry, FullLines;
    var body := EscapeLines(Split(content));
    var all := before + body + after;
    BeginsAround(before, body, after);
    EscapedBegins(Split(content));
    if BeginsWithTelemetry(Split(content)) {
      BlockFull(before, content, after);
      StrippedFull(content);
    } else {
      WithoutTelemetryIn(all);
      ReadPlain(all);
      EscapedSplit(content);
      JoinSplit(Escape(content));
      JoinPadded(before, body, after);
      UnescapesExactly(content);
    }
  }

  lemma ReadPlain(lines: seq<string>)
    requires WithoutTelemetry(lines) == lines
    ensures ContentOf(lines) == Unescape(Strip(JoinAll(lines)))
  {
  }

  /** The full lines of what a whole block reads as. */
  lemma BlockFull(before: seq<string>, content: string, after: seq<string>)
    requires AllBlank(before) && AllBlank(after)
    ensures var all := before + EscapeLines(Split(content)) + after;
      FullLines(Split(ContentOf(all))) + (if BeginsWithTelemetry(all) then 1 else 0) == FullLines(Split(content))
  {
    hide Split, IsBlank, ContentOf, BeginsWithTelemetry, EscapeLine;
    var body := EscapeLines(Split(content));
    EscapedOneLine(content);
    BlanksFull(before);
    BlanksFull(after);
    var all := before + body + after;
    forall l | l in all ensures OneLine(l) {
      assert l in before || l in body || l in after;
    }
    ReadFull(all);
    FullAppend(before + body, after);
    FullAppend(before, body);
    EscapedFull(Split(content));
  }

  lemma BlanksFull(lines: seq<string>)
    requires AllBlank(lines)
    ensures FullLines(lines) == 0 && forall l :: l in lines ==> OneLine(l)
  {
    hide IsBlank;
    BlankLine();
    FullBlanks(lines);
  }

  lemma EscapedOneLine(content: string)
    ensures forall l :: l in EscapeLines(Split(content)) ==> OneLine(l)
  {
    hide Split, NeedsEscape;
    SplitLinesAreLines(content);
    forall l | l in EscapeLines(Split(content)) ensures OneLine(l) {
      var i :| 0 <= i < |Split(content)| && EscapeLines(Split(content))[i] == l;
      assert Split(content)[i] in Split(content);
    }
  }

  // ----- Clean contents

  /** A clean content is one that fits and has no margins. */
  lemma CleanIsTrimFit(content: string)
    ensures Clean(content) <==> Fits(content) && Strip(content) == content
  {
    hide Split, Strip, IsTelemetry, IsBlank, FirstFull, NeedsEscape;
    TameLines(content);
    StripFixed(content);
    if Strip(content) == content {
      TrimTelemetry(content);
      TrimMarkers(content);
    }
  }

  lemma TrimTelemetry(content: string)
    requires Trim(content)
    ensures BeginsWithTelemetry(Split(content)) <==> IsTelemetry(Strip(Split(content)[0]))
  {
    hide Split, IsTelemetry, IsBlank, FirstFull;
    if content == "" {
      EmptySplit();
      BlankLine();
      FirstFullIs([""], 1);
      StripNothing();
    } else {
      FirstLineFull(content);
      FirstFullIs(Split(content), 0);
    }
  }

  lemma TrimMarkers(content: string)
    requires Strip(content) == content
    ensures KeepsMarkers(content) <==> forall l :: l in Split(content) ==> !IsEscaped(l)
  {
    hide Split, Strip, IsEscaped, NeedsEscape;
    Margins(content);
    assert |Lead(content)| + |Trail(content)| == 0;
    EmptySplit();
    var core := Split(content);
    var last := core[|core| - 1];
    assert Lead(content) == "" && Trail(content) == "";
    assert "" + last + "" == last;
    assert LastRaw(content) == LastLine(content);
  }
}
