/**
 Parsing what was printed gives back the same roles and contents.
 */
module TranscriptRoundTrip {
  import opened Journal
  import opened Text
  import opened TextLines
  import opened Transcript
  import opened TranscriptCodec
  import opened TranscriptMargins
  import BestPrefix

  // ----- Printed lines

  function Pad(spaced: bool): seq<string> {
    if spaced then [""] else []
  }

  function BodyLines(e: Entry): seq<string> {
    EscapeLines(Split(e.content))
  }

  function BlockLines(e: Entry, spaced: bool): seq<string> {
    [RenderMarker(e.role)] + Pad(spaced) + BodyLines(e)
  }

  function RenderedLines(entries: seq<Entry>, spaced: bool): seq<string> {
    if entries == [] then []
    else if |entries| == 1 then BlockLines(entries[0], spaced)
    else RenderedLines(entries[..|entries| - 1], spaced) + [""] + BlockLines(entries[|entries| - 1], spaced)
  }

  lemma BlockIsLines(e: Entry, spaced: bool)
    ensures Block(e, spaced) == Terminated(BlockLines(e, spaced))
  {
    hide Split, Join, RenderMarker, EscapeLine;
    var marker := RenderMarker(e.role);
    TerminatedAppend([marker] + Pad(spaced), BodyLines(e));
    TerminatedAppend([marker], Pad(spaced));
    JoinTerminated(BodyLines(e));
    TerminatedOne(marker);
    TerminatedOne("");
    assert "" + "\n" == "\n";
    if spaced {
      assert Terminated([marker] + Pad(spaced)) == marker + Separator(spaced);
    } else {
      assert [marker] + Pad(spaced) == [marker];
    }
  }

  lemma {:induction false} RenderIsLines(entries: seq<Entry>, spaced: bool)
    ensures Render(entries, spaced) == Terminated(RenderedLines(entries, spaced))
  {
    hide Block, BlockLines;
    if entries == [] {
    } else if |entries| == 1 {
      BlockIsLines(entries[0], spaced);
    } else {
      var rest, last := entries[..|entries| - 1], entries[|entries| - 1];
      RenderIsLines(rest, spaced);
      BlockIsLines(last, spaced);
      TerminatedAppend(RenderedLines(rest, spaced) + [""], BlockLines(last, spaced));
      TerminatedAppend(RenderedLines(rest, spaced), [""]);
      TerminatedOne("");
      assert "" + "\n" == "\n";
    }
  }

  // ----- Entries that survive

  /** A system message only at the top. */
  predicate SystemOnTop(entries: seq<Entry>) {
    forall i :: 0 < i < |entries| ==> entries[i].role != System
  }

  /** A system message only at the top, and contents that read back as their cores. */
  predicate Fitting(entries: seq<Entry>) {
    SystemOnTop(entries) && forall i :: 0 <= i < |entries| ==> Fits(entries[i].content)
  }

  /** A system message only at the top, and clean contents. */
  predicate Faithful(entries: seq<Entry>) {
    SystemOnTop(entries) && forall i :: 0 <= i < |entries| ==> Clean(entries[i].content)
  }

  /** The entries with their contents stripped. */
  function Stripped(entries: seq<Entry>): (r: seq<Entry>)
    ensures |r| == |entries|
    ensures forall i :: 0 <= i < |entries| ==> r[i] == Entry(entries[i].role, Strip(entries[i].content))
  {
    seq(|entries|, i requires 0 <= i < |entries| => Entry(entries[i].role, Strip(entries[i].content)))
  }

  /** The faithful entries are those that fit and have no margins. */
  lemma FaithfulIsFitting(entries: seq<Entry>)
    ensures Faithful(entries) <==> Fitting(entries) && Stripped(entries) == entries
  {
    hide Clean, Fits, Strip;
    forall i | 0 <= i < |entries|
      ensures Clean(entries[i].content) <==> Fits(entries[i].content) && Stripped(entries)[i] == entries[i]
    {
      CleanIsTrimFit(entries[i].content);
    }
    assert Stripped(entries) == entries <==> forall i :: 0 <= i < |entries| ==> Stripped(entries)[i] == entries[i];
  }

  predicate Plain(line: string) {
    NoBreaks(line) && line != THINKING_START && MarkerRole(line).None? && !(MARKER_PREFIX <= line)
  }

  lemma BodyIsPlain(e: Entry)
    requires Fits(e.content)
    ensures forall i :: 0 <= i < |BodyLines(e)| ==> Plain(BodyLines(e)[i])
    ensures Plain("")
  {
    hide Split, Strip, EscapeLine, MarkerRole, KeepsMarkers, BeginsWithTelemetry;
    TameLines(e.content);
    forall i | 0 <= i < |BodyLines(e)| ensures Plain(BodyLines(e)[i]) {
      assert Split(e.content)[i] in Split(e.content);
      PlainLine(Split(e.content)[i]);
    }
    EmptyIsPlain();
  }

  lemma EmptyIsPlain()
    ensures Plain("")
  {
    if MarkerRole("").Some? {
      MarkerStart("");
    }
  }

  lemma BlockHasNoBreaks(e: Entry, spaced: bool)
    requires Fits(e.content)
    ensures forall l :: l in BlockLines(e, spaced) ==> NoBreaks(l)
  {
    hide RenderMarker, Split, Fits;
    BodyIsPlain(e);
    RenderedMarkerShape(e.role);
  }

  lemma {:induction false} RenderedHasNoBreaks(entries: seq<Entry>, spaced: bool)
    requires Fitting(entries)
    ensures forall l :: l in RenderedLines(entries, spaced) ==> NoBreaks(l)
  {
    hide BlockLines, Fits, NoBreaks;
    if entries != [] {
      BlockHasNoBreaks(entries[|entries| - 1], spaced);
      EmptyIsPlain();
      if |entries| > 1 {
        RenderedHasNoBreaks(entries[..|entries| - 1], spaced);
      }
    }
  }

  // ----- Parsing the printed lines

  /** Plain lines are gathered into the open block. */
  lemma {:induction false} PlainLinesGather(lines: seq<string>, p: Parser)
    requires p.role.Some? && !p.thinking
    requires forall i :: 0 <= i < |lines| ==> Plain(lines[i])
    ensures ParseLines(lines, p) == Next(p.(lines := p.lines + lines))
  {
    hide MarkerRole, Flush;
    if lines == [] {
      assert p.lines + lines == p.lines;
    } else {
      PlainLinesGather(lines[..|lines| - 1], p);
      assert p.lines + lines == p.lines + lines[..|lines| - 1] + [lines[|lines| - 1]];
    }
  }

  /** A block closes the one before it and stays open with its body gathered. */
  lemma BlockParses(e: Entry, spaced: bool, p: Parser)
    requires !p.thinking && Fits(e.content)
    requires e.role == System ==> p.role.None? && p.entries == [] && !p.seenSystem
    ensures ParseLines(BlockLines(e, spaced), p) ==
      Next(Flush(p).(
        role := Some(e.role),
        lines := Pad(spaced) + BodyLines(e),
        seenSystem := p.seenSystem || e.role == System))
  {
    hide RenderMarker, Split, Fits, ContentOf, MarkerRole;
    var marker := RenderMarker(e.role);
    RenderedMarkerIsRead(e.role);
    RenderedMarkerShape(e.role);
    BodyIsPlain(e);
    assert BlockLines(e, spaced) == [marker] + (Pad(spaced) + BodyLines(e));
    ParseLinesAppend([marker], Pad(spaced) + BodyLines(e), p);
    OneLineParse(marker, p);
    var q := Flush(p).(role := Some(e.role), seenSystem := p.seenSystem || e.role == System);
    PlainLinesGather(Pad(spaced) + BodyLines(e), q);
    assert q.lines + (Pad(spaced) + BodyLines(e)) == Pad(spaced) + BodyLines(e);
  }

  lemma OneLineParse(line: string, p: Parser)
    ensures ParseLines([line], p) == ParseLine(p, line)
  {
    assert [line][..0] == [];
  }

  /** The parser with all entries but the last read, and the last one's lines gathered. */
  function OpenAtLast(entries: seq<Entry>, spaced: bool): Parser
    requires entries != []
  {
    var n := |entries| - 1;
    Parser(
      Some(entries[n].role),
      Pad(spaced) + BodyLines(entries[n]),
      Stripped(entries[..n]),
      entries[0].role == System,
      false)
  }

  /** After the printed lines of some entries the last one is open and the others are read back. */
  lemma {:induction false} RenderedParses(entries: seq<Entry>, spaced: bool)
    requires Fitting(entries) && entries != []
    ensures var n := |entries| - 1;
      ParseLines(RenderedLines(entries, spaced), IDLE) ==
        Next(OpenAtLast(entries, spaced))
  {
    hide BlockLines, Fits, ContentOf, RenderedLines, ParseLines, BodyLines, Strip;
    var n := |entries| - 1;
    BlockParses(entries[0], spaced, IDLE);
    if n == 0 {
      RenderedOne(entries, spaced);
    } else {
      var rest, last := entries[..n], entries[n];
      RenderedParses(rest, spaced);
      var open := OpenAtLast(rest, spaced);
      RenderedMore(entries, spaced);
      ParseLinesAppend(RenderedLines(rest, spaced) + [""], BlockLines(last, spaced), IDLE);
      ParseLinesAppend(RenderedLines(rest, spaced), [""], IDLE);
      BlankGathers(open);
      var closed := open.(lines := open.lines + [""]);
      BlockParses(last, spaced, closed);
      FlushReads(rest[n - 1], spaced, closed, [""]);
      assert Stripped(rest[..n - 1]) + [Stripped(rest)[n - 1]] == Stripped(entries[..n]);
    }
  }

  lemma RenderedOne(entries: seq<Entry>, spaced: bool)
    requires |entries| == 1
    ensures RenderedLines(entries, spaced) == BlockLines(entries[0], spaced)
  {
  }

  lemma RenderedMore(entries: seq<Entry>, spaced: bool)
    requires |entries| > 1
    ensures RenderedLines(entries, spaced) ==
      RenderedLines(entries[..|entries| - 1], spaced) + [""] + BlockLines(entries[|entries| - 1], spaced)
  {
  }

  lemma BlankGathers(p: Parser)
    requires p.role.Some? && !p.thinking
    ensures ParseLines([""], p) == Next(p.(lines := p.lines + [""]))
  {
    EmptyIsPlain();
    PlainLinesGather([""], p);
  }

  /** Closing an open block reads its entry back, with the content stripped. */
  lemma FlushReads(e: Entry, spaced: bool, p: Parser, after: seq<string>)
    requires Fits(e.content) && AllBlank(after)
    requires p.role == Some(e.role) && p.lines == Pad(spaced) + BodyLines(e) + after
    ensures Flush(p) == p.(entries := p.entries + [Entry(e.role, Strip(e.content))], lines := [])
  {
    hide ContentOf, Strip, KeepsMarkers, BeginsWithTelemetry, Split;
    ContentRoundTrip(Pad(spaced), e.content, after);
  }

  /** Entries that fit are read back with their contents stripped, for both spacings. */
  lemma FittingReads(entries: seq<Entry>, spaced: bool)
    requires Fitting(entries)
    ensures Parse(Render(entries, spaced)) == Parsed(Stripped(entries))
  {
    hide Fits, ContentOf, RenderedLines, ParseLines, BodyLines, Render, Split, Strip;
    RenderIsLines(entries, spaced);
    RenderedHasNoBreaks(entries, spaced);
    SplitLinesTerminated(RenderedLines(entries, spaced));
    if entries == [] {
      NothingRendered(spaced);
    } else {
      RenderedParses(entries, spaced);
      var n := |entries| - 1;
      var open := OpenAtLast(entries, spaced);
      assert Pad(spaced) + BodyLines(entries[n]) + [] == Pad(spaced) + BodyLines(entries[n]);
      FlushReads(entries[n], spaced, open, []);
      assert Stripped(entries[..n]) + [Stripped(entries)[n]] == Stripped(entries);
    }
  }

  /** The round trip, for both spacings. */
  lemma TranscriptRoundTrips(entries: seq<Entry>, spaced: bool)
    requires Faithful(entries)
    ensures Parse(Render(entries, spaced)) == Parsed(entries)
  {
    hide *;
    FaithfulIsFitting(entries);
    FittingReads(entries, spaced);
  }

  lemma NothingRendered(spaced: bool)
    ensures RenderedLines([], spaced) == [] && ParseLines([], IDLE) == Next(IDLE)
  {
  }

  // ----- Against the log

  function RoleName(role: Role): string {
    match role
    case System => "system"
    case User => "user"
    case Assistant => "assistant"
    case Control => "control"
    case State => "state"
    case StateDiff => "state-diff"
  }

  function TurnsOf(entries: seq<Entry>): (turns: seq<Turn>)
    ensures |turns| == |entries|
    ensures forall i :: 0 <= i < |entries| ==> turns[i] == Turn(RoleName(entries[i].role), entries[i].content)
  {
    seq(|entries|, i requires 0 <= i < |entries| => Turn(RoleName(entries[i].role), entries[i].content))
  }

  /** A transcript projected from entries that fit matches its own lineage to the end: contents are
      compared stripped. */
  lemma ProjectionMatchesLineage(byId: map<Id, Message>, head: Id, entries: seq<Entry>)
    requires Rooted(byId, head) && Lineage(byId, head) == TurnsOf(entries) && Fitting(entries)
    ensures var parsed := Parse(Render(entries, true));
      parsed.Parsed? && BestPrefix.Lcp(TurnsOf(parsed.entries), Lineage(byId, head)) == |Lineage(byId, head)|
  {
    hide *;
    FittingReads(entries, true);
    StrippedAgree(entries);
  }

  lemma StrippedAgree(entries: seq<Entry>)
    ensures |TurnsOf(entries)| == |entries|
    ensures BestPrefix.Lcp(TurnsOf(Stripped(entries)), TurnsOf(entries)) == |entries|
  {
    hide Strip, RoleName;
    var a, b := TurnsOf(Stripped(entries)), TurnsOf(entries);
    forall i | 0 <= i < |entries| ensures BestPrefix.SameTurn(a[i], b[i]) {
      StripFixed(Strip(entries[i].content));
      StripFixed(entries[i].content);
    }
    assert BestPrefix.AgreeUpTo(a, b, |entries|);
    assert !BestPrefix.AgreeUpTo(a, b, |entries| + 1);
  }
}
