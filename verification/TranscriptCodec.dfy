/**
 Printing and parsing whole transcripts, and the round trip between them.
 */
module TranscriptCodec {
  import opened Journal
  import opened Text
  import opened TextLines
  import opened Transcript

  // ----- Printing

  function Separator(spaced: bool): string {
    if spaced then "\n\n" else "\n"
  }

  function Block(e: Entry, spaced: bool): string {
    RenderMarker(e.role) + Separator(spaced) + Escape(e.content) + "\n"
  }

  /** The blocks, joined by newlines. */
  function Render(entries: seq<Entry>, spaced: bool): string {
    if entries == [] then ""
    else if |entries| == 1 then Block(entries[0], spaced)
    else Render(entries[..|entries| - 1], spaced) + "\n" + Block(entries[|entries| - 1], spaced)
  }

  method RenderTranscript(entries: seq<Entry>, spaced: bool) returns (text: string)
    ensures text == Render(entries, spaced)
  {
    hide Block;
    var blocks: seq<string> := [];
    for i := 0 to |entries|
      invariant |blocks| == i && forall j :: 0 <= j < i ==> blocks[j] == Block(entries[j], spaced)
    {
      blocks := blocks + [Block(entries[i], spaced)];
    }
    text := "";
    for i := 0 to |blocks|
      invariant text == Render(entries[..i], spaced)
    {
      assert entries[..i + 1][..i] == entries[..i];
      text := if i == 0 then blocks[i] else text + "\n" + blocks[i];
    }
    assert entries[..|entries|] == entries;
  }

  // ----- Parsing

  datatype ParseError = SystemNotFirst | BadMarker(line: string)

  datatype ParseResult = Parsed(entries: seq<Entry>) | Rejected(error: ParseError)

  datatype Parser = Parser(
    role: Option<Role>,
    lines: seq<string>,
    entries: seq<Entry>,
    seenSystem: bool,
    thinking: bool)

  const IDLE := Parser(None, [], [], false, false)

  datatype StepResult = Next(parser: Parser) | Fail(error: ParseError)

  predicate IsTelemetry(line: string) {
    "<!-- toas:" <= line && EndsWith(line, "-->")
  }

  predicate EndsWith(s: string, end: string) {
    |end| <= |s| && s[|s| - |end|..] == end
  }

  predicate IsBlank(line: string) {
    Strip(line) == ""
  }

  /** The first line that is not blank. */
  function FirstFull(lines: seq<string>): (i: nat)
    ensures i <= |lines| && (i < |lines| ==> !IsBlank(lines[i])) && forall j :: 0 <= j < i ==> IsBlank(lines[j])
  {
    if lines == [] || !IsBlank(lines[0]) then 0 else 1 + FirstFull(lines[1..])
  }

  /** A block's lines without a leading telemetry comment. */
  function WithoutTelemetry(lines: seq<string>): seq<string> {
    var i := FirstFull(lines);
    if i < |lines| && IsTelemetry(Strip(lines[i])) then lines[..i] + lines[i + 1..] else lines
  }

  function JoinAll(lines: seq<string>): string {
    if lines == [] then "" else Join(lines)
  }

  /** The content a block's lines hold. */
  function ContentOf(lines: seq<string>): string {
    Unescape(Strip(JoinAll(WithoutTelemetry(lines))))
  }

  function Flush(p: Parser): Parser {
    match p.role
    case None => p.(lines := [])
    case Some(role) => p.(entries := p.entries + [Entry(role, ContentOf(p.lines))], lines := [])
  }

  function ParseLine(p: Parser, line: string): StepResult {
    if p.thinking then Next(if line == THINKING_END then p.(thinking := false) else p)
    else if line == THINKING_START then Next(p.(thinking := true))
    else
      match MarkerRole(line)
      case Some(role) =>
        var q := Flush(p);
        if role == System && (q.seenSystem || q.entries != []) then Fail(SystemNotFirst)
        else Next(q.(role := Some(role), seenSystem := q.seenSystem || role == System))
      case None =>
        if MARKER_PREFIX <= line then Fail(BadMarker(line))
        else if p.role.Some? then Next(p.(lines := p.lines + [line]))
        else Next(p)
  }

  function ParseLines(lines: seq<string>, p: Parser): StepResult {
    if lines == [] then Next(p)
    else
      match ParseLines(lines[..|lines| - 1], p)
      case Fail(error) => Fail(error)
      case Next(q) => ParseLine(q, lines[|lines| - 1])
  }

  function Parse(text: string): ParseResult {
    match ParseLines(SplitLines(text), IDLE)
    case Fail(error) => Rejected(error)
    case Next(p) => Parsed(Flush(p).entries)
  }

  method ParseTranscript(text: string) returns (result: ParseResult)
    ensures result == Parse(text)
  {
    var lines := SplitLines(text);
    var p := IDLE;
    for i := 0 to |lines|
      invariant ParseLines(lines[..i], IDLE) == Next(p)
    {
      assert lines[..i + 1][..i] == lines[..i];
      var next := ParseLine(p, lines[i]);
      if next.Fail? {
        FailureStays(lines, i + 1);
        return Rejected(next.error);
      }
      p := next.parser;
    }
    assert lines[..|lines|] == lines;
    result := Parsed(Flush(p).entries);
  }

  lemma {:induction false} FailureStays(lines: seq<string>, n: nat)
    requires n <= |lines| && ParseLines(lines[..n], IDLE).Fail?
    ensures ParseLines(lines, IDLE) == ParseLines(lines[..n], IDLE)
    decreases |lines| - n
  {
    if n < |lines| {
      assert lines[..n + 1][..n] == lines[..n];
      FailureStays(lines, n + 1);
    } else {
      assert lines[..n] == lines;
    }
  }

  lemma {:induction false} ParseLinesAppend(a: seq<string>, b: seq<string>, p: Parser)
    ensures ParseLines(a + b, p) ==
      match ParseLines(a, p)
      case Fail(error) => Fail(error)
      case Next(q) => ParseLines(b, q)
  {
    if b == [] {
      assert a + b == a;
    } else {
      assert (a + b)[..|a + b| - 1] == a + b[..|b| - 1];
      ParseLinesAppend(a, b[..|b| - 1], p);
    }
  }

  // ----- Content that survives

  /** Lines a block may contain: no unrecognised marker line, no marker line already escaped. */
  predicate CleanLine(line: string) {
    && NoBreaks(line)
    && (MARKER_PREFIX <= line ==> MarkerRole(line).Some?)
    && !IsEscaped(line)
  }

  /** Stripped, of clean lines, not beginning with a telemetry comment. */
  predicate Clean(content: string) {
    && Strip(content) == content
    && (forall l :: l in Split(content) ==> CleanLine(l))
    && !IsTelemetry(Strip(Split(content)[0]))
  }

  /** An escaped line is plain text to the parser, unless it has the marker prefix and is no marker. */
  lemma PlainLine(line: string)
    requires NoBreaks(line) && (MARKER_PREFIX <= line ==> MarkerRole(line).Some?)
    ensures var l := EscapeLine(line);
      NoBreaks(l) && l != THINKING_START && MarkerRole(l).None? && !(MARKER_PREFIX <= l)
  {
    if NeedsEscape(line) {
      assert EscapeLine(line)[0] == '\\';
      if MarkerRole(EscapeLine(line)).Some? {
        MarkerStart(EscapeLine(line));
      }
    }
  }

  // ----- A block's content is read back

  predicate AllBlank(lines: seq<string>) {
    forall i :: 0 <= i < |lines| ==> lines[i] == ""
  }

  lemma {:induction false} StripLeftSpaces(spaces: string, s: string)
    requires forall c :: c in spaces ==> IsSpace(c)
    ensures StripLeft(spaces + s) == StripLeft(s)
  {
    if spaces == "" {
      assert spaces + s == s;
    } else {
      assert spaces[0] in spaces && (spaces + s)[1..] == spaces[1..] + s;
      StripLeftSpaces(spaces[1..], s);
    }
  }

  lemma {:induction false} StripRightSpaces(s: string, spaces: string)
    requires forall c :: c in spaces ==> IsSpace(c)
    ensures StripRight(s + spaces) == StripRight(s)
  {
    if spaces == "" {
      assert s + spaces == s;
    } else {
      assert spaces[|spaces| - 1] in spaces;
      assert (s + spaces)[..|s + spaces| - 1] == s + spaces[..|spaces| - 1];
      StripRightSpaces(s, spaces[..|spaces| - 1]);
    }
  }

  /** Neither end is white space. */
  predicate Trim(s: string) {
    s == "" || (!IsSpace(s[0]) && !IsSpace(s[|s| - 1]))
  }

  lemma {:induction false} StripShrinks(s: string)
    ensures |StripRight(s)| <= |s| && (StripRight(s) != s ==> |StripRight(s)| < |s|)
    ensures StripRight(s) != "" ==> !IsSpace(StripRight(s)[|StripRight(s)| - 1])
    ensures StripRight(s) <= s
  {
    if s != "" && IsSpace(s[|s| - 1]) {
      StripShrinks(s[..|s| - 1]);
    }
  }

  lemma {:induction false} StripLeftShrinks(s: string)
    ensures |StripLeft(s)| <= |s| && (StripLeft(s) != s ==> |StripLeft(s)| < |s|)
    ensures StripLeft(s) != "" ==> !IsSpace(StripLeft(s)[0])
  {
    if s != "" && IsSpace(s[0]) {
      StripLeftShrinks(s[1..]);
    }
  }

  /** Stripping leaves alone exactly the texts with no white space at either end. */
  lemma StripFixed(s: string)
    ensures Strip(s) == s <==> Trim(s)
    ensures Trim(Strip(s))
  {
    StripLeftShrinks(s);
    StripShrinks(StripLeft(s));
    StripShrinks(s);
  }

  lemma {:induction false} TerminatedBlanks(lines: seq<string>)
    requires AllBlank(lines)
    ensures forall c :: c in Terminated(lines) ==> c == '\n'
  {
    if lines != [] {
      TerminatedBlanks(lines[..|lines| - 1]);
    }
  }

  /** The first and last characters of a text, by its lines. */
  lemma Ends(s: string)
    ensures s == "" <==> Split(s) == [""]
    ensures s != "" && Split(s)[0] == "" ==> s[0] == '\n'
    ensures Split(s)[0] != "" ==> s != "" && s[0] == Split(s)[0][0]
    ensures s != "" && LastLine(s) == "" ==> s[|s| - 1] == '\n'
    ensures LastLine(s) != "" ==> s != "" && s[|s| - 1] == LastLine(s)[|LastLine(s)| - 1]
  {
    hide Split;
    JoinSplit(s);
    var lines := Split(s);
    assert lines == [lines[0]] + lines[1..];
    if |lines| == 1 {
      assert Closed(s) == [];
    } else {
      assert Closed(s) == [lines[0]] + lines[1..|lines| - 1];
      TerminatedAppend([lines[0]], lines[1..|lines| - 1]);
      assert [lines[0]][..0] == [];
      assert s[|lines[0]|] == '\n';
    }
  }

  lemma BlankLine()
    ensures IsBlank("") && !IsTelemetry("")
  {
  }

  /** The first line of a trimmed text is not blank. */
  lemma FirstLineFull(content: string)
    requires Trim(content) && content != ""
    ensures !IsBlank(Split(content)[0])
  {
    hide Split;
    Ends(content);
    var l := Split(content)[0];
    assert l != "" by {
      assert IsSpace('\n');
    }
    assert StripLeft(l) == l;
    StripRightKeepsFirst(l);
  }

  lemma {:induction false} StripRightKeepsFirst(s: string)
    requires s != "" && !IsSpace(s[0])
    ensures StripRight(s) != "" && StripRight(s)[0] == s[0]
  {
    if IsSpace(s[|s| - 1]) {
      StripRightKeepsFirst(s[..|s| - 1]);
    }
  }

  lemma StripKeepsFirst(s: string)
    requires s != "" && !IsSpace(s[0])
    ensures Strip(s) != "" && Strip(s)[0] == s[0]
  {
    StripRightKeepsFirst(s);
  }

}
