/**
 The transcript text format: role marker lines, each followed by a message's content with its
 own marker lines escaped.
 */
module Transcript {
  import opened Journal
  import opened Text
  import opened TextLines

  datatype Role = System | User | Assistant | Control | State | StateDiff

  /** A message of a transcript. */
  datatype Entry = Entry(role: Role, content: string)

  const MARKER_PREFIX := "## TOAS:"
  const THINKING_START := "## TOAS:THINKING"
  const THINKING_END := "## /TOAS:THINKING"

  function UpperName(role: Role): string {
    match role
    case System => "SYSTEM"
    case User => "USER"
    case Assistant => "ASSISTANT"
    case Control => "CONTROL"
    case State => "STATE"
    case StateDiff => "STATE-DIFF"
  }

  // ----- Marker lines

  /** What may follow the role name: nothing, white space and a stamp, or a version. */
  predicate ValidSuffix(s: string) {
    || s == ""
    || s[0] == ' '
    || s[0] == '\t'
    || (s[0] == '/' && |s| > 1 && s[1] != ' ' && s[1] != '\t')
  }

  predicate MarksRole(line: string, role: Role) {
    var start := MARKER_PREFIX + UpperName(role);
    start <= line && ValidSuffix(line[|start|..])
  }

  /** The role of a marker line. */
  function MarkerRole(line: string): Option<Role> {
    if MarksRole(line, System) then Some(System)
    else if MarksRole(line, User) then Some(User)
    else if MarksRole(line, Assistant) then Some(Assistant)
    else if MarksRole(line, Control) then Some(Control)
    else if MarksRole(line, State) then Some(State)
    else if MarksRole(line, StateDiff) then Some(StateDiff)
    else None
  }

  /** The marker line a role is rendered with. */
  function RenderMarker(role: Role): string {
    match role
    case State => "## TOAS:STATE/1"
    case StateDiff => "## TOAS:STATE-DIFF/1"
    case _ => MARKER_PREFIX + UpperName(role)
  }

  lemma RenderedMarkerIsRead(role: Role)
    ensures MarkerRole(RenderMarker(role)) == Some(role)
  {
    match role {
      case State => StateMarkerRead();
      case StateDiff => StateDiffMarkerRead();
      case _ => PlainMarkerRead(role);
    }
  }

  lemma PlainMarkerRead(role: Role)
    requires !role.State? && !role.StateDiff?
    ensures MarkerRole(RenderMarker(role)) == Some(role)
  {
    var line := RenderMarker(role);
    assert line[|line|..] == "";
    assert MarksRole(line, role);
    var at := |MARKER_PREFIX|;
    forall other | MarksRole(line, other) ensures UpperName(other)[0] == line[at] && other != role ==> role.System? {
      assert (MARKER_PREFIX + UpperName(other))[at] == line[at];
    }
    if role.System? {
      assert line[at + 1] == 'Y';
    }
  }

  lemma MarkedWith(line: string, role: Role, suffix: string)
    requires line == MARKER_PREFIX + UpperName(role) + suffix
    ensures MarksRole(line, role) <==> ValidSuffix(suffix)
  {
    assert line[|MARKER_PREFIX + UpperName(role)|..] == suffix;
  }

  lemma StateMarkerRead()
    ensures MarkerRole("## TOAS:STATE/1") == Some(State)
  {
    hide MarksRole;
    StateMarker("## TOAS:STATE/1");
    MarkedWith("## TOAS:STATE/1", State, "/1");
  }

  lemma StateDiffMarkerRead()
    ensures MarkerRole("## TOAS:STATE-DIFF/1") == Some(StateDiff)
  {
    hide MarksRole;
    StateMarker("## TOAS:STATE-DIFF/1");
    MarkedWith("## TOAS:STATE-DIFF/1", State, "-DIFF/1");
    MarkedWith("## TOAS:STATE-DIFF/1", StateDiff, "/1");
  }

  /** A line beginning with a state marker marks no other role. */
  lemma StateMarker(line: string)
    requires MARKER_PREFIX + "ST" <= line
    ensures !MarksRole(line, System) && !MarksRole(line, User)
    ensures !MarksRole(line, Assistant) && !MarksRole(line, Control)
  {
    assert line[|MARKER_PREFIX|] == 'S' && line[|MARKER_PREFIX| + 1] == 'T';
  }

  lemma RenderedMarkerShape(role: Role)
    ensures RenderMarker(role) != THINKING_START && NoBreaks(RenderMarker(role))
  {
    hide NoBreaks;
    RenderedNoBreaks(role);
    assert RenderMarker(role)[|MARKER_PREFIX|] == UpperName(role)[0] && THINKING_START[|MARKER_PREFIX|] == 'T';
  }

  lemma NoBreaksAppend(a: string, b: string)
    requires NoBreaks(a) && NoBreaks(b)
    ensures NoBreaks(a + b)
  {
  }

  lemma RenderedNoBreaks(role: Role)
    ensures NoBreaks(RenderMarker(role))
  {
    hide NoBreaks;
    NameNoBreaks(role);
    NoBreaksAppend(MARKER_PREFIX, UpperName(role));
    NoBreaksAppend(MARKER_PREFIX + UpperName(role), "/1");
    var plain := MARKER_PREFIX + UpperName(role);
    assert RenderMarker(role) == plain || RenderMarker(role) == plain + "/1";
  }

  lemma NameNoBreaks(role: Role)
    ensures NoBreaks(UpperName(role)) && NoBreaks(MARKER_PREFIX) && NoBreaks("/1")
  {
    match role {
      case System =>
      case User =>
      case Assistant =>
      case Control =>
      case State =>
      case StateDiff =>
    }
  }

  // ----- Escaping

  /** The lines the escaper takes for markers. */
  predicate NeedsEscape(line: string) {
    MarkerRole(line).Some? && '\r' !in line
  }

  predicate IsEscaped(line: string) {
    line != "" && line[0] == '\\' && NeedsEscape(line[1..])
  }

  function EscapeLine(line: string): string {
    if NeedsEscape(line) then "\\" + line else line
  }

  function UnescapeLine(line: string): string {
    if IsEscaped(line) then line[1..] else line
  }

  function MapLines(lines: seq<string>, f: string -> string): (r: seq<string>)
    ensures |r| == |lines| && forall i :: 0 <= i < |lines| ==> r[i] == f(lines[i])
  {
    seq(|lines|, i requires 0 <= i < |lines| => f(lines[i]))
  }

  function EscapeLines(lines: seq<string>): (r: seq<string>)
    ensures |r| == |lines| && forall i :: 0 <= i < |lines| ==> r[i] == EscapeLine(lines[i])
  {
    MapLines(lines, EscapeLine)
  }

  function UnescapeLines(lines: seq<string>): (r: seq<string>)
    ensures |r| == |lines| && forall i :: 0 <= i < |lines| ==> r[i] == UnescapeLine(lines[i])
  {
    MapLines(lines, UnescapeLine)
  }

  function Escape(content: string): string {
    Join(EscapeLines(Split(content)))
  }

  function Unescape(content: string): string {
    Join(UnescapeLines(Split(content)))
  }

  lemma EscapedSplit(content: string)
    ensures Split(Escape(content)) == EscapeLines(Split(content))
  {
    hide Split, Join, NeedsEscape;
    SplitLinesAreLines(content);
    forall l | l in EscapeLines(Split(content)) ensures OneLine(l) {
      var i :| 0 <= i < |Split(content)| && l == EscapeLine(Split(content)[i]);
      assert Split(content)[i] in Split(content);
    }
    SplitJoin(EscapeLines(Split(content)));
  }

  lemma UnescapeEscapedLine(line: string)
    ensures UnescapeLine(EscapeLine(line)) == line <==> !IsEscaped(line)
  {
    if NeedsEscape(line) {
      assert ("\\" + line)[1..] == line;
      MarkerStart(line);
    }
  }

  /** A marker line begins with the marker prefix. */
  lemma MarkerStart(line: string)
    requires MarkerRole(line).Some?
    ensures MARKER_PREFIX <= line && line[0] == '#'
  {
  }

  /** Unescaping undoes escaping exactly when no line was already escaped. */
  lemma EscapeRoundTrip(content: string)
    ensures Unescape(Escape(content)) == content <==> forall l :: l in Split(content) ==> !IsEscaped(l)
  {
    hide Split, Join, IsEscaped, UnescapeLine, EscapeLine;
    EscapedSplit(content);
    var lines := Split(content);
    var back := UnescapeLines(EscapeLines(lines));
    forall i | 0 <= i < |lines| ensures back[i] == lines[i] <==> !IsEscaped(lines[i]) {
      UnescapeEscapedLine(lines[i]);
    }
    JoinSplit(content);
    if Join(back) == content {
      BackIsLines(content, back);
      assert forall i :: 0 <= i < |lines| ==> back[i] == lines[i];
    } else if forall l :: l in lines ==> !IsEscaped(l) {
      assert forall i :: 0 <= i < |lines| ==> lines[i] in lines;
      assert back == lines;
    }
  }

  lemma BackIsLines(content: string, back: seq<string>)
    requires back == UnescapeLines(EscapeLines(Split(content))) && Join(back) == content
    ensures back == Split(content)
  {
    hide Split, Join, NeedsEscape;
    SplitLinesAreLines(content);
    forall l | l in back ensures OneLine(l) {
      var i :| 0 <= i < |back| && back[i] == l;
      assert Split(content)[i] in Split(content);
    }
    SplitJoin(back);
  }

  // ----- Python's splitlines()

  /** The characters str.splitlines() breaks at. */
  predicate IsBreak(c: char) {
    || '\n' <= c <= '\r'
    || '\U{1C}' <= c <= '\U{1E}'
    || c == '\U{85}'
    || c == '\U{2028}'
    || c == '\U{2029}'
  }

  function FirstBreak(s: string): (i: nat)
    ensures i <= |s| && (i < |s| ==> IsBreak(s[i])) && forall j :: 0 <= j < i ==> !IsBreak(s[j])
  {
    if s == "" || IsBreak(s[0]) then 0 else 1 + FirstBreak(s[1..])
  }

  function SplitLines(s: string): seq<string>
    decreases |s|
  {
    if s == "" then []
    else
      var i := FirstBreak(s);
      if i == |s| then [s]
      else
        var width := if s[i] == '\r' && i + 1 < |s| && s[i + 1] == '\n' then 2 else 1;
        [s[..i]] + SplitLines(s[i + width..])
  }

  predicate NoBreaks(line: string) {
    forall c :: c in line ==> !IsBreak(c)
  }

  /** Lines without any break character, each ended by a newline, are split back exactly. */
  lemma {:induction false} SplitLinesTerminated(lines: seq<string>)
    requires forall l :: l in lines ==> NoBreaks(l)
    ensures SplitLines(Terminated(lines)) == lines
  {
    if lines != [] {
      var l, rest := lines[0], lines[1..];
      SplitLinesTerminated(rest);
      assert lines == [l] + rest;
      TerminatedAppend([l], rest);
      assert [l][..0] == [];
      assert Terminated([l]) == l + "\n";
      FirstLine(l, Terminated(rest));
    }
  }

  lemma FirstLine(l: string, rest: string)
    requires NoBreaks(l)
    ensures SplitLines(l + "\n" + rest) == [l] + SplitLines(rest)
  {
    var s := l + "\n" + rest;
    assert s[|l|] == '\n';
    assert forall j :: 0 <= j < |l| ==> s[j] == l[j] && l[j] in l;
    assert FirstBreak(s) == |l|;
    assert s[..|l|] == l && s[|l| + 1..] == rest;
  }
}
