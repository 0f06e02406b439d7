/**
 The incremental marker escaper: text arrives in chunks of any size, and a backslash goes before
 exactly the lines that are a bare SYSTEM, USER or ASSISTANT marker.
 */
module StreamEscaper {
  import opened TextLines

  const SYSTEM_MARKER := "## TOAS:SYSTEM"
  const USER_MARKER := "## TOAS:USER"
  const ASSISTANT_MARKER := "## TOAS:ASSISTANT"

  predicate IsBare(line: string) {
    line == SYSTEM_MARKER || line == USER_MARKER || line == ASSISTANT_MARKER
  }

  /** Could still become a bare marker. */
  predicate IsProbe(start: string) {
    start <= SYSTEM_MARKER || start <= USER_MARKER || start <= ASSISTANT_MARKER
  }

  function EscapeLine(line: string): string {
    if IsBare(line) then "\\" + line else line
  }

  function EscapeLines(lines: seq<string>): (r: seq<string>)
    ensures |r| == |lines| && forall i :: 0 <= i < |lines| ==> r[i] == EscapeLine(lines[i])
  {
    seq(|lines|, i requires 0 <= i < |lines| => EscapeLine(lines[i]))
  }

  /** The escaped text. */
  function EscapeBare(text: string): string {
    Join(EscapeLines(Split(text)))
  }

  /** What has been put out once `text` has been seen: the open line is held back as long as it
      could become a marker. */
  function Emitted(text: string): string {
    Terminated(EscapeLines(Closed(text))) + if IsProbe(LastLine(text)) then "" else LastLine(text)
  }

  lemma EmittedSnoc(text: string, c: char)
    ensures Emitted(text + [c]) == Emitted(text) +
      if c == '\n' then
        if IsProbe(LastLine(text)) then EscapeLine(LastLine(text)) + "\n" else "\n"
      else if IsProbe(LastLine(text) + [c]) then ""
      else if IsProbe(LastLine(text)) then LastLine(text) + [c]
      else [c]
  {
    hide Split;
    SplitSnoc(text, c);
    if c == '\n' {
      assert Split(text) == Closed(text) + [LastLine(text)];
      assert EscapeLines(Split(text)) == EscapeLines(Closed(text)) + [EscapeLine(LastLine(text))];
      assert IsBare(LastLine(text)) ==> IsProbe(LastLine(text));
      assert Emitted(text + [c]) == Terminated(EscapeLines(Split(text)));
    } else {
      if IsProbe(LastLine(text) + [c]) {
        ProbePrefix(LastLine(text), c);
      }
    }
  }

  lemma ProbePrefix(start: string, c: char)
    requires IsProbe(start + [c])
    ensures IsProbe(start)
  {
    assert start <= start + [c];
  }

  lemma FlushedIsEscaped(text: string)
    ensures Emitted(text) + (if IsProbe(LastLine(text)) then EscapeLine(LastLine(text)) else "") == EscapeBare(text)
  {
    hide Split;
    assert EscapeLines(Split(text))[..|Split(text)| - 1] == EscapeLines(Closed(text));
    assert IsBare(LastLine(text)) ==> IsProbe(LastLine(text));
  }

  class Escaper {
    var lineStart: bool
    var probe: string
    ghost var seen: string  // all text fed so far

    ghost predicate Valid()
      reads this
    {
      && lineStart == IsProbe(LastLine(seen))
      && probe == if lineStart then LastLine(seen) else ""
    }

    constructor ()
      ensures Valid() && seen == ""
    {
      lineStart, probe, seen := true, "", "";
    }

    /** One character. */
    method FeedChar(ch: char) returns (out: string)
      requires Valid()
      modifies this
      ensures Valid() && seen == old(seen) + [ch]
      ensures Emitted(seen) == Emitted(old(seen)) + out
    {
      hide Emitted, Split;
      EmittedSnoc(seen, ch);
      SplitSnoc(seen, ch);
      seen := seen + [ch];
      assert IsProbe("");
      if lineStart {
        probe := probe + [ch];
        if IsProbe(probe) {
          NewlineEndsProbe(probe);
          return "";
        }
        if ch == '\n' {
          var line := probe[..|probe| - 1];
          out := if IsBare(line) then "\\" + line + "\n" else probe;
          probe := "";
          lineStart := true;
          return;
        }
        out := probe;
        probe := "";
        lineStart := false;
        return;
      }
      NoProbe(LastLine(old(seen)), ch);
      out := [ch];
      if ch == '\n' {
        lineStart := true;
      }
    }

    /** Puts out what the new text settles. */
    method Feed(text: string) returns (out: string)
      requires Valid()
      modifies this
      ensures Valid() && seen == old(seen) + text
      ensures Emitted(seen) == Emitted(old(seen)) + out
    {
      hide Emitted, Split, IsProbe;
      out := "";
      for i := 0 to |text|
        invariant Valid() && seen == old(seen) + text[..i]
        invariant Emitted(seen) == Emitted(old(seen)) + out
      {
        var more := FeedChar(text[i]);
        assert text[..i + 1] == text[..i] + [text[i]];
        out := out + more;
      }
      assert text[..|text|] == text;
    }

    /** Puts out the held-back rest. */
    method Flush() returns (out: string)
      requires Valid()
      modifies `lineStart, `probe
      ensures probe == "" && lineStart == (old(lineStart) && old(probe) == "")
      ensures Emitted(seen) + out == EscapeBare(seen)
    {
      hide Emitted, EscapeBare, Split;
      FlushedIsEscaped(seen);
      if probe == "" {
        return "";
      }
      if IsBare(probe) {
        out := "\\" + probe;
      } else {
        out := probe;
      }
      probe := "";
      lineStart := false;
    }
  }

  /** No marker has a newline in it. */
  lemma NewlineEndsProbe(start: string)
    requires IsProbe(start)
    ensures '\n' !in start
  {
  }

  lemma NoProbe(start: string, c: char)
    requires !IsProbe(start)
    ensures !IsProbe(start + [c])
  {
    if IsProbe(start + [c]) {
      ProbePrefix(start, c);
    }
  }

  /** However the text is cut into chunks, the stream is the escaped text. */
  method EscapeStream(chunks: seq<string>) returns (out: string)
    ensures out == EscapeBare(Concat(chunks))
  {
    hide Emitted, EscapeBare, Split;
    var escaper := new Escaper();
    NothingEmitted();
    out := "";
    for i := 0 to |chunks|
      invariant escaper.Valid() && fresh(escaper)
      invariant escaper.seen == Concat(chunks[..i]) && out == Emitted(escaper.seen)
    {
      assert chunks[..i + 1][..i] == chunks[..i];
      var more := escaper.Feed(chunks[i]);
      out := out + more;
    }
    assert chunks[..|chunks|] == chunks;
    var rest := escaper.Flush();
    out := out + rest;
  }

  lemma NothingEmitted()
    ensures Emitted("") == ""
  {
  }

  /** Line by line, the escaped text is the text with a backslash before the bare markers. */
  lemma EscapedLines(text: string)
    ensures Split(EscapeBare(text)) == EscapeLines(Split(text))
  {
    hide Split, Join;
    SplitLinesAreLines(text);
    forall l | l in EscapeLines(Split(text)) ensures OneLine(l) {
      var i :| 0 <= i < |Split(text)| && l == EscapeLine(Split(text)[i]);
      assert Split(text)[i] in Split(text);
    }
    SplitJoin(EscapeLines(Split(text)));
  }

  lemma EscapedLineAt(text: string, i: nat)
    requires i < |Split(text)|
    ensures |Split(EscapeBare(text))| == |Split(text)|
    ensures Split(EscapeBare(text))[i] ==
      if Split(text)[i] in ["## TOAS:SYSTEM", "## TOAS:USER", "## TOAS:ASSISTANT"] then "\\" + Split(text)[i]
      else Split(text)[i]
  {
    hide Split, EscapeBare;
    EscapedLines(text);
  }

  /** The line is the beginning of a bare marker, or all of one. */
  ghost predicate BeginsMarker(line: string) {
    exists k, n: nat :: 0 <= k < 3 && BeginsWith(["## TOAS:SYSTEM", "## TOAS:USER", "## TOAS:ASSISTANT"][k], n, line)
  }

  ghost predicate BeginsWith(marker: string, n: nat, line: string) {
    n <= |marker| && line == marker[..n]
  }

  /** Nothing is held back but an open line that begins a bare marker; all before it is out. */
  lemma HeldBack(text: string)
    ensures BeginsMarker(LastLine(text)) ==> Emitted(text) == Terminated(EscapeLines(Closed(text)))
    ensures !BeginsMarker(LastLine(text)) ==> Emitted(text) == Terminated(EscapeLines(Closed(text))) + LastLine(text)
  {
    hide Split, Terminated;
    var line, markers := LastLine(text), ["## TOAS:SYSTEM", "## TOAS:USER", "## TOAS:ASSISTANT"];
    if IsProbe(line) {
      var k := if line <= SYSTEM_MARKER then 0 else if line <= USER_MARKER then 1 else 2;
      assert BeginsWith(markers[k], |line|, line);
    }
  }
}
