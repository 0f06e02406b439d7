/**
 What the transcript format means, in terms of the lines of a text alone.
 */
module TranscriptReading {
  import opened Journal
  import opened Text
  import opened TextLines
  import opened Transcript
  import opened TranscriptCodec

  // ----- Marker lines

  ghost function Opening(role: Role): string {
    match role
    case System => "## TOAS:SYSTEM"
    case User => "## TOAS:USER"
    case Assistant => "## TOAS:ASSISTANT"
    case Control => "## TOAS:CONTROL"
    case State => "## TOAS:STATE"
    case StateDiff => "## TOAS:STATE-DIFF"
  }

  /** After the role: nothing, a blank and anything, or a slash and something not blank. */
  ghost predicate MarksWith(line: string, role: Role, suffix: string) {
    && line == Opening(role) + suffix
    && (|| suffix == ""
        || suffix[0] in {' ', '\t'}
        || (suffix[0] == '/' && |suffix| >= 2 && suffix[1] !in {' ', '\t'}))
  }

  lemma OpeningIs(role: Role)
    ensures Opening(role) == MARKER_PREFIX + UpperName(role)
  {
  }

  lemma MarksExactly(line: string, role: Role)
    ensures MarksRole(line, role) <==> exists suffix :: MarksWith(line, role, suffix)
  {
    OpeningIs(role);
    var start := Opening(role);
    if MarksRole(line, role) {
      assert line == start + line[|start|..];
      assert MarksWith(line, role, line[|start|..]);
    }
    if suffix :| MarksWith(line, role, suffix) {
      assert line[|start|..] == suffix;
    }
  }

  /** No line marks two roles. */
  lemma OneRole(line: string, a: Role, b: Role)
    requires MarksRole(line, a) && MarksRole(line, b)
    ensures a == b
  {
    SameName(line, a);
    SameName(line, b);
    if a.State? && b.StateDiff? {
      NotBoth(line);
    } else if b.State? && a.StateDiff? {
      NotBoth(line);
    }
  }

  lemma SameName(line: string, role: Role)
    requires MarksRole(line, role)
    ensures |line| > 9 && line[8] == UpperName(role)[0] && line[9] == UpperName(role)[1]
  {
    var start := MARKER_PREFIX + UpperName(role);
    assert line[8] == start[8] && line[9] == start[9];
  }

  lemma NotBoth(line: string)
    ensures !(MarksRole(line, State) && MarksRole(line, StateDiff))
  {
    var long := MARKER_PREFIX + "STATE-DIFF";
    if long <= line {
      assert line[13] == long[13] == '-';
      assert MARKER_PREFIX + "STATE" == long[..13];
      assert line[13..][0] == '-';
    }
  }

  /** The role of a line, by its characters. */
  lemma MarkerGrammar(line: string, role: Role)
    ensures MarkerRole(line) == Some(role) <==> exists suffix :: MarksWith(line, role, suffix)
  {
    hide MarksRole;
    MarksExactly(line, role);
    if MarksRole(line, role) {
      OneRole(line, MarkerRole(line).value, role);
    }
  }

  /** A marker line without a carriage return. */
  ghost predicate PlainMarker(line: string) {
    '\r' !in line && exists role, suffix :: MarksWith(line, role, suffix)
  }

  /** Escaping puts a backslash before the marker lines; unescaping takes it from before one. */
  lemma EscapedExactly(line: string)
    ensures EscapeLine(line) == if PlainMarker(line) then "\\" + line else line
    ensures UnescapeLine(line) ==
      if line != "" && line[0] == '\\' && PlainMarker(line[1..]) then line[1..] else line
  {
    hide MarkerRole, PlainMarker;
    NeedsEscapeIs(line);
    if line != "" {
      NeedsEscapeIs(line[1..]);
    }
  }

  lemma NeedsEscapeIs(line: string)
    ensures NeedsEscape(line) <==> PlainMarker(line)
  {
    hide MarkerRole, MarksWith;
    if MarkerRole(line).Some? {
      var role := MarkerRole(line).value;
      MarkerGrammar(line, role);
      var suffix :| MarksWith(line, role, suffix);
    }
    if role, suffix :| MarksWith(line, role, suffix) {
      MarkerGrammar(line, role);
    }
  }

  // ----- What a text reads, by its marker lines

  /** The places of the marker lines, in order. */
  ghost predicate MarkersAt(lines: seq<string>, marks: seq<nat>) {
    && (forall i :: 0 <= i < |marks| ==> marks[i] < |lines| && MarkerRole(lines[marks[i]]).Some?)
    && (forall i, j :: 0 <= i < j < |marks| ==> marks[i] < marks[j])
    && (forall n: nat :: n < |lines| && MarkerRole(lines[n]).Some? ==> n in marks)
  }

  /** A marker line's block: the lines up to the next marker line, or to the end. */
  ghost function BlockLines(lines: seq<string>, marks: seq<nat>, k: nat): seq<string>
    requires MarkersAt(lines, marks) && k < |marks|
  {
    lines[marks[k] + 1..if k + 1 < |marks| then marks[k + 1] else |lines|]
  }

  ghost predicate ReadsAt(lines: seq<string>, marks: seq<nat>, entries: seq<Entry>, k: nat)
    requires MarkersAt(lines, marks) && k < |marks| && k < |entries|
  {
    && MarkerRole(lines[marks[k]]) == Some(entries[k].role)
    && entries[k].content == ContentOf(BlockLines(lines, marks, k))
  }

  /** One entry for each marker line: its role, and the content of its block. */
  ghost predicate Reads(lines: seq<string>, entries: seq<Entry>) {
    exists marks :: MarkersAt(lines, marks) && |entries| == |marks| &&
      forall k :: 0 <= k < |marks| ==> ReadsAt(lines, marks, entries, k)
  }

  /** A line the parser refuses: one with the prefix of a marker that is none, or a system marker
      that is not the first marker. */
  ghost predicate Refused(lines: seq<string>, k: nat)
    requires k < |lines|
  {
    || ("## TOAS:" <= lines[k] && MarkerRole(lines[k]).None?)
    || (MarkerRole(lines[k]) == Some(System) && exists j :: 0 <= j < k && MarkerRole(lines[j]).Some?)
  }

  /** The first line refused, and the error that names it. */
  ghost predicate FirstRefused(lines: seq<string>, k: nat, error: ParseError) {
    && k < |lines| && Refused(lines, k)
    && (forall j :: 0 <= j < k ==> !Refused(lines, j))
    && error == if MarkerRole(lines[k]) == Some(System) then SystemNotFirst else BadMarker(lines[k])
  }

  /** The parser between lines: the last marker's block is still open. */
  ghost predicate OpenAt(lines: seq<string>, marks: seq<nat>, p: Parser)
    requires MarkersAt(lines, marks)
  {
    && !p.thinking
    && (p.seenSystem ==> marks != [])
    && if marks == [] then p.role == None && p.lines == [] && p.entries == []
       else
         var last := |marks| - 1;
         && p.role == MarkerRole(lines[marks[last]])
         && p.lines == BlockLines(lines, marks, last)
         && |p.entries| == last
         && forall k :: 0 <= k < last ==> ReadsAt(lines, marks, p.entries, k)
  }

  /** The places of the marker lines so far still are that when a plain line follows. */
  lemma MarksPlain(lines: seq<string>, line: string, marks: seq<nat>)
    requires MarkersAt(lines, marks) && MarkerRole(line).None?
    ensures MarkersAt(lines + [line], marks)
    ensures marks != [] ==>
      BlockLines(lines + [line], marks, |marks| - 1) == BlockLines(lines, marks, |marks| - 1) + [line]
    ensures forall k :: 0 <= k < |marks| - 1 ==> BlockLines(lines + [line], marks, k) == BlockLines(lines, marks, k)
  {
    hide MarkerRole;
  }

  lemma MarksMarker(lines: seq<string>, line: string, marks: seq<nat>)
    requires MarkersAt(lines, marks) && MarkerRole(line).Some?
    ensures MarkersAt(lines + [line], marks + [|lines|])
    ensures BlockLines(lines + [line], marks + [|lines|], |marks|) == []
    ensures forall k :: 0 <= k < |marks| ==>
      BlockLines(lines + [line], marks + [|lines|], k) == BlockLines(lines, marks, k)
  {
    hide MarkerRole;
    var all, marks' := lines + [line], marks + [|lines|];
    forall n: nat | n < |all| && MarkerRole(all[n]).Some? ensures n in marks' {
      if n == |lines| {
        assert marks'[|marks|] == n;
      } else {
        assert n in marks;
      }
    }
  }

  lemma ReadsSame(a: seq<string>, marks: seq<nat>, b: seq<string>, marks': seq<nat>, entries: seq<Entry>,
                  entries': seq<Entry>, k: nat)
    requires MarkersAt(a, marks) && k < |marks| && k < |entries| && ReadsAt(a, marks, entries, k)
    requires MarkersAt(b, marks') && k < |marks'| && k < |entries'| && marks'[k] == marks[k]
    requires b[marks[k]] == a[marks[k]] && BlockLines(b, marks', k) == BlockLines(a, marks, k)
    requires entries'[k] == entries[k]
    ensures ReadsAt(b, marks', entries', k)
  {
  }

  /** A plain line joins the open block. */
  lemma PlainStep(lines: seq<string>, line: string, marks: seq<nat>, p: Parser)
    requires MarkersAt(lines, marks) && OpenAt(lines, marks, p)
    requires line != THINKING_START && MarkerRole(line).None? && !(MARKER_PREFIX <= line)
    ensures MarkersAt(lines + [line], marks)
    ensures ParseLine(p, line).Next? && OpenAt(lines + [line], marks, ParseLine(p, line).parser)
  {
    hide MarkerRole, MarkersAt, BlockLines, ReadsAt;
    MarksPlain(lines, line, marks);
    var p' := ParseLine(p, line).parser;
    if marks != [] {
      MarkIn(lines, marks, |marks| - 1);
      forall k | 0 <= k < |marks| - 1 ensures ReadsAt(lines + [line], marks, p'.entries, k) {
        MarkIn(lines, marks, k);
        ReadsSame(lines, marks, lines + [line], marks, p.entries, p'.entries, k);
      }
    }
  }

  lemma MarkIn(lines: seq<string>, marks: seq<nat>, k: nat)
    requires MarkersAt(lines, marks) && k < |marks|
    ensures marks[k] < |lines| && MarkerRole(lines[marks[k]]).Some?
  {
  }

  /** Closing the open block reads it. */
  lemma FlushReads(lines: seq<string>, marks: seq<nat>, p: Parser)
    requires MarkersAt(lines, marks) && OpenAt(lines, marks, p)
    ensures Flush(p).entries != [] <==> marks != []
    ensures |Flush(p).entries| == |marks| && Flush(p).lines == []
    ensures forall k :: 0 <= k < |marks| ==> ReadsAt(lines, marks, Flush(p).entries, k)
  {
    hide MarkerRole, MarkersAt, BlockLines, ContentOf;
    if marks != [] {
      MarkIn(lines, marks, |marks| - 1);
      forall k | 0 <= k < |marks| ensures ReadsAt(lines, marks, Flush(p).entries, k) {
        if k < |marks| - 1 {
          ReadsSame(lines, marks, lines, marks, p.entries, Flush(p).entries, k);
        }
      }
    }
  }

  /** A marker line that is not refused closes the open block and opens its own. */
  lemma MarkerStep(lines: seq<string>, line: string, marks: seq<nat>, p: Parser)
    requires MarkersAt(lines, marks) && OpenAt(lines, marks, p)
    requires line != THINKING_START && MarkerRole(line).Some?
    ensures MarkersAt(lines + [line], marks + [|lines|])
    ensures ParseLine(p, line) == Fail(SystemNotFirst) <==> MarkerRole(line) == Some(System) && marks != []
    ensures ParseLine(p, line).Fail? ==> ParseLine(p, line) == Fail(SystemNotFirst)
    ensures ParseLine(p, line).Next? ==> OpenAt(lines + [line], marks + [|lines|], ParseLine(p, line).parser)
  {
    hide MarkerRole, MarkersAt, BlockLines, ContentOf, ReadsAt;
    FlushReads(lines, marks, p);
    MarksMarker(lines, line, marks);
    if ParseLine(p, line).Next? {
      var all, marks', p' := lines + [line], marks + [|lines|], ParseLine(p, line).parser;
      forall k | 0 <= k < |marks| ensures ReadsAt(all, marks', p'.entries, k) {
        MarkIn(lines, marks, k);
        ReadsSame(lines, marks, all, marks', Flush(p).entries, p'.entries, k);
      }
    }
  }

  /** A line is refused by what comes before it. */
  lemma RefusedAfter(lines: seq<string>, line: string, marks: seq<nat>)
    requires MarkersAt(lines, marks)
    ensures Refused(lines + [line], |lines|) <==>
      || ("## TOAS:" <= line && MarkerRole(line).None?)
      || (MarkerRole(line) == Some(System) && marks != [])
    ensures forall k :: 0 <= k < |lines| ==> (Refused(lines + [line], k) <==> Refused(lines, k))
  {
    hide MarkerRole;
    var all := lines + [line];
    if marks != [] {
      assert all[marks[0]] == lines[marks[0]];
    } else {
      forall j | 0 <= j < |lines| ensures MarkerRole(all[j]).None? {
        assert all[j] == lines[j];
      }
    }
    forall k | 0 <= k < |lines| ensures Refused(all, k) <==> Refused(lines, k) {
      assert forall j :: 0 <= j <= k ==> all[j] == lines[j];
    }
  }

  /** Where the parser is after lines none of which begins a thinking block. */
  lemma {:induction false} PlainParse(lines: seq<string>, n: nat) returns (marks: seq<nat>, k: nat)
    requires n <= |lines| && THINKING_START !in lines
    ensures ParseLines(lines[..n], IDLE).Next? ==>
      && MarkersAt(lines[..n], marks) && OpenAt(lines[..n], marks, ParseLines(lines[..n], IDLE).parser)
      && forall j :: 0 <= j < n ==> !Refused(lines[..n], j)
    ensures ParseLines(lines[..n], IDLE).Fail? ==> FirstRefused(lines[..n], k, ParseLines(lines[..n], IDLE).error)
  {
    hide MarkerRole, MarkersAt, OpenAt, Refused, ParseLine;
    if n == 0 {
      marks, k := [], 0;
      NothingRead();
      assert lines[..0] == [];
    } else {
      marks, k := PlainParse(lines, n - 1);
      assert lines[..n][..n - 1] == lines[..n - 1];
      var before, line := lines[..n - 1], lines[n - 1];
      assert lines[..n] == before + [line];
      if ParseLines(before, IDLE).Fail? {
        RefusedStays(before, line, k, ParseLines(before, IDLE).error);
      } else {
        RefusedAfter(before, line, marks);
        var p := ParseLines(before, IDLE).parser;
        assert line in lines;
        if MarkerRole(line).Some? {
          MarkerStep(before, line, marks, p);
          marks, k := marks + [n - 1], n - 1;
        } else if MARKER_PREFIX <= line {
          BadStep(before, line, marks, p);
          k := n - 1;
        } else {
          PlainStep(before, line, marks, p);
        }
      }
    }
  }

  lemma NothingRead()
    ensures ParseLines([], IDLE) == Next(IDLE) && MarkersAt([], []) && OpenAt([], [], IDLE)
  {
  }

  lemma BadStep(lines: seq<string>, line: string, marks: seq<nat>, p: Parser)
    requires MarkersAt(lines, marks) && OpenAt(lines, marks, p)
    requires line != THINKING_START && MarkerRole(line).None? && MARKER_PREFIX <= line
    ensures ParseLine(p, line) == Fail(BadMarker(line))
  {
    hide MarkerRole;
  }

  lemma RefusedStays(lines: seq<string>, line: string, k: nat, error: ParseError)
    requires FirstRefused(lines, k, error)
    ensures FirstRefused(lines + [line], k, error)
  {
    hide MarkerRole;
    var all := lines + [line];
    forall j | 0 <= j <= k ensures Refused(all, j) <==> Refused(lines, j) {
      assert forall i :: 0 <= i <= j ==> all[i] == lines[i];
    }
  }

  /** A text without thinking blocks is rejected exactly when a line is refused, for the first such
      line; otherwise it reads one entry for each marker line. */
  lemma PlainReading(text: string)
    requires "## TOAS:THINKING" !in SplitLines(text)
    ensures var lines := SplitLines(text);
      match Parse(text)
      case Rejected(error) => exists k: nat :: FirstRefused(lines, k, error)
      case Parsed(entries) => Reads(lines, entries) && forall k :: 0 <= k < |lines| ==> !Refused(lines, k)
  {
    hide MarkerRole, MarkersAt, OpenAt, Refused, ReadsAt, SplitLines, Flush, FirstRefused;
    var lines := SplitLines(text);
    var marks, k := PlainParse(lines, |lines|);
    assert lines[..|lines|] == lines;
    if ParseLines(lines, IDLE).Next? {
      FlushReads(lines, marks, ParseLines(lines, IDLE).parser);
    }
  }

  // ----- Thinking blocks

  /** Inside a thinking block nothing is read. */
  lemma {:induction false} Thinking(lines: seq<string>, p: Parser)
    requires p.thinking && "## /TOAS:THINKING" !in lines
    ensures ParseLines(lines, p) == Next(p)
  {
    if lines != [] {
      Thinking(lines[..|lines| - 1], p);
      assert lines[|lines| - 1] in lines;
    }
  }

  /** A thinking block reads as if it were not there; one that is not ended hides the rest. */
  lemma ThinkingSkipped(before: seq<string>, hidden: seq<string>, after: seq<string>)
    requires "## TOAS:THINKING" !in before && "## /TOAS:THINKING" !in hidden
    ensures ParseLines(before + ["## TOAS:THINKING"] + hidden + ["## /TOAS:THINKING"] + after, IDLE) ==
      ParseLines(before + after, IDLE)
    ensures match ParseLines(before, IDLE)
      case Fail(error) => ParseLines(before + ["## TOAS:THINKING"] + hidden, IDLE) == Fail(error)
      case Next(p) => ParseLines(before + ["## TOAS:THINKING"] + hidden, IDLE) == Next(p.(thinking := true))
  {
    hide ParseLines, ParseLine;
    var start, end := ["## TOAS:THINKING"], ["## /TOAS:THINKING"];
    ParseLinesAppend(before, after, IDLE);
    ParseLinesAppend(before, start, IDLE);
    ParseLinesAppend(before + start, hidden, IDLE);
    ParseLinesAppend(before + start + hidden, end, IDLE);
    ParseLinesAppend(before + start + hidden + end, after, IDLE);
    if ParseLines(before, IDLE).Next? {
      var p := ParseLines(before, IDLE).parser;
      NotThinking(before);
      OneStep("## TOAS:THINKING", p);
      ThinkingEnds(p);
      Thinking(hidden, p.(thinking := true));
      OneStep("## /TOAS:THINKING", p.(thinking := true));
    }
  }

  lemma {:induction false} NotThinking(lines: seq<string>)
    requires "## TOAS:THINKING" !in lines
    ensures ParseLines(lines, IDLE).Next? ==> !ParseLines(lines, IDLE).parser.thinking
  {
    hide MarkerRole, Flush;
    if lines != [] {
      NotThinking(lines[..|lines| - 1]);
      assert lines[|lines| - 1] in lines;
      if ParseLines(lines[..|lines| - 1], IDLE).Next? {
        StaysAwake(ParseLines(lines[..|lines| - 1], IDLE).parser, lines[|lines| - 1]);
      }
    }
  }

  lemma StaysAwake(p: Parser, line: string)
    requires !p.thinking && line != "## TOAS:THINKING"
    ensures ParseLine(p, line).Next? ==> !ParseLine(p, line).parser.thinking
  {
    hide MarkerRole, ContentOf;
  }

  lemma ThinkingEnds(p: Parser)
    requires !p.thinking
    ensures ParseLine(p, "## TOAS:THINKING") == Next(p.(thinking := true))
    ensures ParseLine(p.(thinking := true), "## /TOAS:THINKING") == Next(p)
  {
    hide MarkerRole;
  }

  lemma OneStep(line: string, p: Parser)
    ensures ParseLines([line], p) == ParseLine(p, line)
  {
    hide ParseLine;
    assert [line][..0] == [];
  }

  // ----- A block's content

  ghost predicate IsComment(line: string, inner: string) {
    Strip(line) == "<!-- toas:" + inner
  }

  /** But for white space the line is a comment; the ends may share characters. */
  ghost predicate TelemetryComment(line: string) {
    && (exists inner :: IsComment(line, inner))
    && |Strip(line)| >= 3 && Strip(line)[|Strip(line)| - 3..] == "-->"
  }

  /** The n-th line is the first that is not blank. */
  ghost predicate FirstLineAt(lines: seq<string>, n: nat) {
    n < |lines| && Strip(lines[n]) != "" && forall i :: 0 <= i < n ==> Strip(lines[i]) == ""
  }

  lemma CommentIs(line: string)
    ensures TelemetryComment(line) <==> IsTelemetry(Strip(line))
  {
    hide Strip;
    var s := Strip(line);
    if IsTelemetry(s) {
      assert s == "<!-- toas:" + s[10..];
      assert IsComment(line, s[10..]);
    }
  }

  /** A block reads as its lines without a comment on the first line that is not blank: joined,
      stripped, and unescaped. */
  lemma BlockReads(lines: seq<string>, n: nat)
    requires FirstLineAt(lines, n)
    ensures ContentOf(lines) == Unescape(Strip(Join(lines))) || TelemetryComment(lines[n])
    ensures TelemetryComment(lines[n]) ==>
      ContentOf(lines) == if |lines| == 1 then "" else Unescape(Strip(Join(lines[..n] + lines[n + 1..])))
  {
    hide Strip, Unescape, Join, IsTelemetry, TelemetryComment;
    CommentIs(lines[n]);
    FirstFullIs(lines, n);
    NothingUnescaped();
  }

  lemma FirstFullIs(lines: seq<string>, n: nat)
    requires FirstLineAt(lines, n)
    ensures FirstFull(lines) == n
  {
    hide FirstFull, Strip;
    var i := FirstFull(lines);
    assert IsBlank(lines[n]) <==> Strip(lines[n]) == "";
  }

  lemma NothingUnescaped()
    ensures Unescape(Strip("")) == ""
  {
    hide Split;
    EmptySplit();
    assert UnescapeLines([""]) == [""];
    JoinOne("");
  }

  // ----- Line breaks

  /** The characters a line ends at. */
  const BREAKS: set<char> :=
    {'\n', '\U{0B}', '\U{0C}', '\r', '\U{1C}', '\U{1D}', '\U{1E}', '\U{85}', '\U{2028}', '\U{2029}'}

  lemma BreaksAre(c: char)
    ensures IsBreak(c) <==> c in BREAKS
  {
  }

  lemma FirstBreakIs(line: string, rest: string)
    requires forall c :: c in line ==> c !in BREAKS
    requires rest == "" || rest[0] in BREAKS
    ensures FirstBreak(line + rest) == |line|
    ensures (line + rest)[..|line|] == line && (line + rest)[|line|..] == rest
  {
    hide FirstBreak, IsBreak;
    var s := line + rest;
    forall j | 0 <= j < |line| ensures !IsBreak(s[j]) {
      assert s[j] == line[j] && line[j] in line;
      BreaksAre(line[j]);
    }
    if rest != "" {
      assert s[|line|] == rest[0];
      BreaksAre(rest[0]);
    }
  }

  /** A line ends at a break, a carriage return and a newline being one; a last line without a break
      is a line unless it is empty. */
  lemma SplitLinesAt(line: string, c: char, rest: string)
    requires forall d :: d in line ==> d !in BREAKS
    ensures SplitLines(line) == if line == "" then [] else [line]
    ensures SplitLines(line + "\r\n" + rest) == [line] + SplitLines(rest)
    ensures c in BREAKS && !(c == '\r' && rest != "" && rest[0] == '\n') ==>
      SplitLines(line + [c] + rest) == [line] + SplitLines(rest)
  {
    hide SplitLines, FirstBreak, IsBreak;
    LastLineAlone(line);
    LineThenReturn(line, rest);
    if c in BREAKS && !(c == '\r' && rest != "" && rest[0] == '\n') {
      LineThenBreak(line, c, rest);
    }
  }

  lemma LastLineAlone(line: string)
    requires forall d :: d in line ==> d !in BREAKS
    ensures SplitLines(line) == if line == "" then [] else [line]
  {
    hide FirstBreak, IsBreak;
    FirstBreakIs(line, "");
    assert line + "" == line;
  }

  lemma LineThenReturn(line: string, rest: string)
    requires forall d :: d in line ==> d !in BREAKS
    ensures SplitLines(line + "\r\n" + rest) == [line] + SplitLines(rest)
  {
    hide FirstBreak, IsBreak;
    FirstBreakIs(line, "\r\n" + rest);
    var s := line + ("\r\n" + rest);
    assert s == line + "\r\n" + rest;
    assert s[|line|] == '\r' && s[|line| + 1] == '\n' && s[|line| + 2..] == rest;
  }

  lemma LineThenBreak(line: string, c: char, rest: string)
    requires forall d :: d in line ==> d !in BREAKS
    requires c in BREAKS && !(c == '\r' && rest != "" && rest[0] == '\n')
    ensures SplitLines(line + [c] + rest) == [line] + SplitLines(rest)
  {
    hide FirstBreak, IsBreak;
    FirstBreakIs(line, [c] + rest);
    var s := line + ([c] + rest);
    assert s == line + [c] + rest && s[|line|] == c && s[|line| + 1..] == rest;
  }

  // ----- White space

  const SPACES: set<char> :=
    {'\t', '\n', '\U{0B}', '\U{0C}', '\r', '\U{1C}', '\U{1D}', '\U{1E}', '\U{1F}', ' ', '\U{85}', '\U{A0}',
     '\U{1680}', '\U{2000}', '\U{2001}', '\U{2002}', '\U{2003}', '\U{2004}', '\U{2005}', '\U{2006}',
     '\U{2007}', '\U{2008}', '\U{2009}', '\U{200A}', '\U{2028}', '\U{2029}', '\U{202F}', '\U{205F}', '\U{3000}'}

  ghost predicate Spaces(s: string) {
    forall c :: c in s ==> c in SPACES
  }

  lemma SpacesAre(c: char)
    ensures IsSpace(c) <==> c in SPACES
  {
  }

  /** Stripping takes white space from both ends, all there is. */
  lemma StrippedExactly(s: string) returns (left: string, right: string)
    ensures s == left + Strip(s) + right && Spaces(left) && Spaces(right)
    ensures Strip(s) != "" ==> Strip(s)[0] !in SPACES && Strip(s)[|Strip(s)| - 1] !in SPACES
  {
    hide IsSpace, StripLeft, StripRight;
    StripFixed(s);
    left := LeftSpaces(s);
    right := RightSpaces(StripLeft(s));
    if Strip(s) != "" {
      SpacesAre(Strip(s)[0]);
      SpacesAre(Strip(s)[|Strip(s)| - 1]);
    }
  }

  lemma {:induction false} LeftSpaces(s: string) returns (left: string)
    ensures s == left + StripLeft(s) && Spaces(left)
  {
    hide IsSpace;
    if s != "" && IsSpace(s[0]) {
      SpacesAre(s[0]);
      left := LeftSpaces(s[1..]);
      left := [s[0]] + left;
    } else {
      left := "";
    }
  }

  lemma {:induction false} RightSpaces(s: string) returns (right: string)
    ensures s == StripRight(s) + right && Spaces(right)
  {
    hide IsSpace;
    if s != "" && IsSpace(s[|s| - 1]) {
      SpacesAre(s[|s| - 1]);
      right := RightSpaces(s[..|s| - 1]);
      right := right + [s[|s| - 1]];
    } else {
      right := "";
    }
  }

  // ----- What is printed

  /** The text of one entry of one line: its marker line, a blank line if spaced, and the line. */
  ghost function PlainBlock(role: Role, line: string, spaced: bool): string {
    Opening(role) + (if role in {State, StateDiff} then "/1" else "")
    + (if spaced then "\n\n" else "\n") + line + "\n"
  }

  lemma PrintedPlain(role: Role, line: string, spaced: bool)
    requires OneLine(line) && MarkerRole(line).None?
    ensures Block(Entry(role, line), spaced) == PlainBlock(role, line, spaced)
  {
    hide MarkerRole, Split, Join;
    SplitOneLine(line);
    assert EscapeLines([line]) == [line];
    JoinOne(line);
    OpeningIs(role);
  }

  /** Entries of one line each that is no marker are printed with a blank line after each but the last. */
  lemma {:induction false} PrintedLines(entries: seq<Entry>, e: Entry, spaced: bool)
    requires forall x :: x in entries + [e] ==> OneLine(x.content) && MarkerRole(x.content).None?
    ensures Render([e], spaced) == PlainBlock(e.role, e.content, spaced)
    ensures entries != [] ==>
      Render(entries + [e], spaced) == Render(entries, spaced) + "\n" + PlainBlock(e.role, e.content, spaced)
  {
    hide MarkerRole, Block, PlainBlock, OneLine;
    assert (entries + [e])[|entries|] == e;
    PrintedPlain(e.role, e.content, spaced);
    assert (entries + [e])[..|entries|] == entries;
  }
}
