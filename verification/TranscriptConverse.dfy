/**
 Which transcripts survive printing and parsing: exactly the faithful ones.
 */
module TranscriptConverse {
  import opened Journal
  import opened Text
  import opened TextLines
  import opened Transcript
  import opened TranscriptCodec
  import opened TranscriptMargins
  import opened TranscriptRoundTrip
  import BestPrefix

  // ----- What parsed contents look like

  /** Trimmed, and broken into lines by newlines only. */
  predicate Tame(content: string) {
    Trim(content) && NewlinesOnly(content)
  }

  predicate AllNoBreaks(lines: seq<string>) {
    forall i :: 0 <= i < |lines| ==> NoBreaks(lines[i])
  }

  lemma {:induction false} SplitLinesNoBreaks(s: string)
    ensures AllNoBreaks(SplitLines(s))
    decreases |s|
  {
    if s != "" {
      var i := FirstBreak(s);
      assert NoBreaks(s[..i]);
      if i < |s| {
        var width := if s[i] == '\r' && i + 1 < |s| && s[i + 1] == '\n' then 2 else 1;
        SplitLinesNoBreaks(s[i + width..]);
      }
    }
  }

  lemma {:induction false} TerminatedNewlinesOnly(lines: seq<string>)
    requires AllNoBreaks(lines)
    ensures NewlinesOnly(Terminated(lines))
  {
    if lines != [] {
      TerminatedNewlinesOnly(lines[..|lines| - 1]);
    }
  }

  /** Stripping takes a part out of the middle. */
  lemma StripPart(s: string) returns (u: string, v: string)
    ensures s == u + Strip(s) + v
  {
    StripLeftPart(s);
    u :| s == u + StripLeft(s);
    StripRightPart(StripLeft(s));
    v :| StripLeft(s) == Strip(s) + v;
  }

  /** Unescaping keeps a text trimmed. */
  lemma UnescapeKeepsTrim(s: string)
    requires Trim(s)
    ensures Trim(Unescape(s))
  {
    hide Split, Unescape, UnescapeLine, NeedsEscape, IsEscaped;
    UnescapedSplit(s);
    Ends(s);
    Ends(Unescape(s));
    var lines := Split(s);
    UnescapedLineEnds(lines[0]);
    UnescapedLineEnds(lines[|lines| - 1]);
    NewlineIsSpace();
  }

  lemma UnescapeKeepsNewlinesOnly(s: string)
    requires NewlinesOnly(s)
    ensures NewlinesOnly(Unescape(s))
  {
    hide Split, Unescape, NeedsEscape;
    TameLines(s);
    UnescapedSplit(s);
    forall l | l in Split(Unescape(s)) ensures NoBreaks(l) {
      var i :| 0 <= i < |Split(s)| && l == UnescapeLine(Split(s)[i]);
      assert Split(s)[i] in Split(s);
    }
    TameLines(Unescape(s));
  }

  /** Every content read from a block of break-free lines is tame. */
  lemma ContentIsTame(lines: seq<string>)
    requires AllNoBreaks(lines)
    ensures Tame(ContentOf(lines))
  {
    hide Strip, Unescape, IsTelemetry, FirstFull, Trim;
    var ls := WithoutTelemetry(lines);
    assert AllNoBreaks(ls);
    var text := JoinAll(ls);
    if ls != [] {
      TerminatedNewlinesOnly(ls[..|ls| - 1]);
    }
    assert NewlinesOnly(text);
    var u, v := StripPart(text);
    assert NewlinesOnly(Strip(text)) by {
      assert forall c :: c in Strip(text) ==> c in text;
    }
    StripFixed(text);
    UnescapeKeepsTrim(Strip(text));
    UnescapeKeepsNewlinesOnly(Strip(text));
  }

  ghost predicate TameEntries(entries: seq<Entry>) {
    forall i :: 0 <= i < |entries| ==> Tame(entries[i].content)
  }

  lemma {:induction false} ParsedLinesTame(lines: seq<string>)
    requires AllNoBreaks(lines)
    ensures ParseLines(lines, IDLE).Next? ==>
      var p := ParseLines(lines, IDLE).parser; AllNoBreaks(p.lines) && TameEntries(p.entries)
  {
    hide Tame, NoBreaks, ContentOf, MarkerRole;
    if lines != [] {
      var rest := lines[..|lines| - 1];
      ParsedLinesTame(rest);
      if ParseLines(rest, IDLE).Next? {
        FlushTame(ParseLines(rest, IDLE).parser);
      }
    }
  }

  lemma FlushTame(p: Parser)
    requires AllNoBreaks(p.lines) && TameEntries(p.entries)
    ensures TameEntries(Flush(p).entries)
  {
    hide Tame, NoBreaks, ContentOf;
    ContentIsTame(p.lines);
  }

  /** Whatever is parsed, its contents are trimmed and broken by newlines only. */
  lemma ParsedIsTame(text: string)
    ensures Parse(text).Parsed? ==> TameEntries(Parse(text).entries)
  {
    hide ParseLines, Flush, Tame;
    SplitLinesNoBreaks(text);
    ParsedLinesTame(SplitLines(text));
    match ParseLines(SplitLines(text), IDLE)
    case Fail(_) =>
    case Next(p) => FlushTame(p);
  }

  // ----- What the parser keeps of a block

  function ThinkingAfter(lines: seq<string>): bool {
    if lines == [] then false
    else
      var last := lines[|lines| - 1];
      if ThinkingAfter(lines[..|lines| - 1]) then last != THINKING_END else last == THINKING_START
  }

  /** The lines outside thinking blocks. */
  function Survivors(lines: seq<string>): (r: seq<string>)
    ensures |r| <= |lines|
  {
    if lines == [] then []
    else
      var rest, last := lines[..|lines| - 1], lines[|lines| - 1];
      if ThinkingAfter(rest) || last == THINKING_START then Survivors(rest) else Survivors(rest) + [last]
  }

  /** Without thinking blocks, no line may look like a marker and not be one. */
  predicate Recognised(lines: seq<string>) {
    (forall i :: 0 <= i < |lines| ==> lines[i] != THINKING_START) ==>
      forall i :: 0 <= i < |lines| ==> !(MARKER_PREFIX <= lines[i])
  }

  /** Without a thinking block every line survives. */
  lemma {:induction false} SurvivorsAll(lines: seq<string>)
    requires forall i :: 0 <= i < |lines| ==> lines[i] != THINKING_START
    ensures Survivors(lines) == lines && !ThinkingAfter(lines)
  {
    if lines != [] {
      SurvivorsAll(lines[..|lines| - 1]);
    }
  }

  /** A thinking block loses a full line, its first. */
  lemma {:induction false} SurvivorsFull(lines: seq<string>)
    ensures FullLines(Survivors(lines)) <= FullLines(lines)
    ensures FullLines(Survivors(lines)) == FullLines(lines) ==>
      forall i :: 0 <= i < |lines| ==> lines[i] != THINKING_START
    ensures forall l :: l in Survivors(lines) ==> l in lines
  {
    hide IsBlank;
    ThinkingNotBlank();
    if lines != [] {
      var rest, last := lines[..|lines| - 1], lines[|lines| - 1];
      assert lines == rest + [last];
      SurvivorsFull(rest);
      FullOne(last);
      FullAppend(Survivors(rest), [last]);
      if forall i :: 0 <= i < |rest| ==> rest[i] != THINKING_START {
        SurvivorsAll(rest);
      }
    }
  }

  lemma ThinkingNotBlank()
    ensures !IsBlank(THINKING_START)
  {
    MarkerNotSpace();
    StripKeepsFirst(THINKING_START);
  }

  predicate NoMarkers(lines: seq<string>) {
    forall i :: 0 <= i < |lines| ==> MarkerRole(lines[i]).None?
  }

  lemma {:induction false} Gather(lines: seq<string>, q: Parser)
    requires NoMarkers(lines) && ParseLines(lines, q).Next?
    ensures var p := ParseLines(lines, q).parser;
      && p.role == q.role && p.entries == q.entries
      && (!q.thinking && q.role.Some? ==>
           && p.lines == q.lines + Survivors(lines)
           && p.thinking == ThinkingAfter(lines)
           && Recognised(lines))
  {
    hide MarkerRole, Recognised, Survivors, ThinkingAfter, ParseLine;
    if lines == [] {
      NothingGathered(q);
    } else {
      var rest := lines[..|lines| - 1];
      assert forall i :: 0 <= i < |rest| ==> rest[i] == lines[i];
      Gather(rest, q);
      var last := lines[|lines| - 1];
      assert lines == rest + [last];
      GatherOne(ParseLines(rest, q).parser, last);
      SurvivorsSnoc(rest, last);
      if !q.thinking && q.role.Some? {
        assert q.lines + Survivors(rest) + [last] == q.lines + (Survivors(rest) + [last]);
      }
    }
  }

  lemma NothingGathered(q: Parser)
    ensures ParseLines([], q) == Next(q) && q.lines + Survivors([]) == q.lines
    ensures !ThinkingAfter([]) && Recognised([])
  {
  }

  /** What a line that is no marker does to the parser. */
  lemma GatherOne(p: Parser, line: string)
    requires MarkerRole(line).None? && ParseLine(p, line).Next?
    ensures var next := ParseLine(p, line).parser;
      && next.role == p.role && next.entries == p.entries
      && (p.role.Some? ==>
           && next.thinking == (if p.thinking then line != THINKING_END else line == THINKING_START)
           && next.lines == p.lines + (if p.thinking || line == THINKING_START then [] else [line])
           && (!p.thinking && line != THINKING_START ==> !(MARKER_PREFIX <= line)))
  {
    hide MarkerRole, Flush;
    assert p.lines + [] == p.lines;
  }

  lemma SurvivorsSnoc(rest: seq<string>, last: string)
    ensures Survivors(rest + [last]) ==
      Survivors(rest) + (if ThinkingAfter(rest) || last == THINKING_START then [] else [last])
    ensures ThinkingAfter(rest + [last]) ==
      if ThinkingAfter(rest) then last != THINKING_END else last == THINKING_START
    ensures Recognised(rest) && (!ThinkingAfter(rest) && last != THINKING_START ==> !(MARKER_PREFIX <= last)) ==>
      Recognised(rest + [last])
  {
    var lines := rest + [last];
    assert lines[..|lines| - 1] == rest;
    assert Survivors(rest) + [] == Survivors(rest);
    if forall i :: 0 <= i < |lines| ==> lines[i] != THINKING_START {
      assert forall i :: 0 <= i < |rest| ==> rest[i] == lines[i];
      SurvivorsAll(rest);
    }
  }

  lemma BodyNoMarkers(e: Entry)
    requires NewlinesOnly(e.content)
    ensures NoMarkers(BodyLines(e)) && AllNoBreaks(BodyLines(e))
  {
    hide Split, MarkerRole;
    TameLines(e.content);
    forall i | 0 <= i < |BodyLines(e)|
      ensures MarkerRole(BodyLines(e)[i]).None? && NoBreaks(BodyLines(e)[i])
    {
      assert Split(e.content)[i] in Split(e.content);
      EscapedNoMarker(Split(e.content)[i]);
    }
  }

  lemma EscapedNoMarker(line: string)
    requires NoBreaks(line)
    ensures MarkerRole(EscapeLine(line)).None? && NoBreaks(EscapeLine(line))
  {
    hide MarkerRole;
    assert IsBreak('\r') && !IsBreak('\\');
    if NeedsEscape(line) && MarkerRole(EscapeLine(line)).Some? {
      MarkerStart(EscapeLine(line));
    }
  }

  /** An open block holds the surviving lines of its entry. */
  ghost predicate Holds(p: Parser, e: Entry, spaced: bool) {
    && p.role == Some(e.role)
    && p.lines == Pad(spaced) + Survivors(BodyLines(e))
    && p.thinking == ThinkingAfter(BodyLines(e))
    && Recognised(BodyLines(e))
  }

  /** A block met inside a thinking block opens nothing; otherwise it closes the one before. */
  lemma BlockFromAny(e: Entry, spaced: bool, q: Parser)
    requires NewlinesOnly(e.content) && ParseLines(BlockLines(e, spaced), q).Next?
    ensures var p := ParseLines(BlockLines(e, spaced), q).parser;
      && (q.thinking ==> p.role == q.role && p.entries == q.entries)
      && (!q.thinking ==>
           && Holds(p, e, spaced)
           && p.entries == Flush(q).entries
           && !(e.role == System && Flush(q).entries != []))
  {
    hide MarkerRole, RenderMarker, BodyLines, Recognised, ThinkingAfter, Survivors, ContentOf, NewlinesOnly;
    var marker := RenderMarker(e.role);
    RenderedMarkerIsRead(e.role);
    RenderedMarkerShape(e.role);
    assert BlockLines(e, spaced) == [marker] + (Pad(spaced) + BodyLines(e));
    ParseLinesAppend([marker], Pad(spaced) + BodyLines(e), q);
    OneLineParse(marker, q);
    ParseLinesAppend(Pad(spaced), BodyLines(e), ParseLine(q, marker).parser);
    PadParses(spaced, ParseLine(q, marker).parser);
    BodyNoMarkers(e);
    Gather(BodyLines(e), ParseLines(Pad(spaced), ParseLine(q, marker).parser).parser);
    assert q.lines + [] == q.lines && [] + Pad(spaced) == Pad(spaced);
  }

  lemma PadParses(spaced: bool, q: Parser)
    ensures ParseLines(Pad(spaced), q).Next?
    ensures var p := ParseLines(Pad(spaced), q).parser;
      && p.role == q.role && p.entries == q.entries && (q.thinking ==> p.thinking)
      && (!q.thinking && q.role.Some? ==> !p.thinking && p.lines == q.lines + Pad(spaced))
  {
    hide MarkerRole;
    BlankFromAny(q);
    assert q.lines + [] == q.lines;
  }

  lemma BlankFromAny(q: Parser)
    ensures ParseLines([""], q) == Next(if q.thinking || q.role.None? then q else q.(lines := q.lines + [""]))
  {
    hide MarkerRole;
    EmptyIsPlain();
    OneLineParse("", q);
  }

  // ----- A block that reads back is clean

  /** A content that reads back as its core from the surviving lines of its block fits. */
  lemma ReadsBackOnlyFits(e: Entry, spaced: bool, after: seq<string>)
    requires NewlinesOnly(e.content) && AllBlank(after) && Recognised(BodyLines(e))
    requires ContentOf(Pad(spaced) + Survivors(BodyLines(e)) + after) == Strip(e.content)
    ensures Fits(e.content)
  {
    hide Split, Strip, ContentOf, Survivors, EscapeLine, KeepsMarkers, BeginsWithTelemetry, NewlinesOnly, MarkerRole;
    NothingLost(e, spaced, after);
    SurvivorsAll(BodyLines(e));
    ContentRoundTrip(Pad(spaced), e.content, after);
    TameLines(e.content);
    forall l | l in Split(e.content) && MARKER_PREFIX <= l ensures MarkerRole(l).Some? {
      var i :| 0 <= i < |BodyLines(e)| && l == Split(e.content)[i];
      assert BodyLines(e)[i] == EscapeLine(l);
      RecognisedMarker(l);
    }
  }

  lemma RecognisedMarker(l: string)
    requires MARKER_PREFIX <= l && !(MARKER_PREFIX <= EscapeLine(l))
    ensures MarkerRole(l).Some?
  {
    hide MarkerRole;
  }

  /** What is read has as many full lines as the core, so no thinking block took any. */
  lemma NothingLost(e: Entry, spaced: bool, after: seq<string>)
    requires AllBlank(after)
    requires ContentOf(Pad(spaced) + Survivors(BodyLines(e)) + after) == Strip(e.content)
    ensures forall i :: 0 <= i < |BodyLines(e)| ==> BodyLines(e)[i] != THINKING_START
  {
    hide Split, Strip, ContentOf, Survivors, EscapeLine, FullLines, BeginsWithTelemetry;
    var kept := Survivors(BodyLines(e));
    var all := Pad(spaced) + kept + after;
    SurvivorsFull(BodyLines(e));
    EscapedOneLine(e.content);
    BlanksFull(Pad(spaced));
    BlanksFull(after);
    forall l | l in all ensures OneLine(l) {
      assert l in Pad(spaced) || l in kept || l in after;
    }
    ReadFull(all);
    FullAppend(Pad(spaced) + kept, after);
    FullAppend(Pad(spaced), kept);
    StrippedFull(e.content);
    EscapedFull(Split(e.content));
  }

  // ----- Whole transcripts

  ghost predicate NewlineEntries(entries: seq<Entry>) {
    forall i :: 0 <= i < |entries| ==> NewlinesOnly(entries[i].content)
  }

  /** How many entries a parser has read or is reading. */
  function Count(p: Parser): nat {
    |p.entries| + if p.role.Some? then 1 else 0
  }

  ghost function After(entries: seq<Entry>, spaced: bool): StepResult {
    ParseLines(RenderedLines(entries, spaced), IDLE)
  }

  /** The printed lines of one more entry. */
  lemma AfterOneMore(entries: seq<Entry>, spaced: bool)
    requires |entries| > 1 && After(entries, spaced).Next?
    ensures var before := After(entries[..|entries| - 1], spaced);
      && before.Next?
      && var q := if before.parser.thinking || before.parser.role.None? then before.parser
                  else before.parser.(lines := before.parser.lines + [""]);
        After(entries, spaced) == ParseLines(BlockLines(entries[|entries| - 1], spaced), q)
  {
    hide ParseLines, RenderedLines, BlockLines;
    RenderedMore(entries, spaced);
    var rest, last := entries[..|entries| - 1], entries[|entries| - 1];
    ParseLinesAppend(RenderedLines(rest, spaced) + [""], BlockLines(last, spaced), IDLE);
    ParseLinesAppend(RenderedLines(rest, spaced), [""], IDLE);
    if After(rest, spaced).Next? {
      BlankFromAny(After(rest, spaced).parser);
    }
  }

  /** No more entries are read than were printed. */
  lemma {:induction false} CountBounded(entries: seq<Entry>, spaced: bool)
    requires entries != [] && NewlineEntries(entries) && After(entries, spaced).Next?
    ensures var p := After(entries, spaced).parser; p.role.Some? && Count(p) <= |entries|
  {
    hide NewlinesOnly, ParseLines, BlockLines, After, BodyLines, Survivors, Recognised, ContentOf;
    var n := |entries| - 1;
    if n == 0 {
      AfterOne(entries, spaced);
      BlockFromAny(entries[0], spaced, IDLE);
    } else {
      AfterOneMore(entries, spaced);
      CountBounded(entries[..n], spaced);
      var before := After(entries[..n], spaced).parser;
      BlockFromAny(entries[n], spaced, if before.thinking then before else before.(lines := before.lines + [""]));
    }
  }

  lemma AfterOne(entries: seq<Entry>, spaced: bool)
    requires |entries| == 1
    ensures After(entries, spaced) == ParseLines(BlockLines(entries[0], spaced), IDLE)
  {
    RenderedOne(entries, spaced);
  }

  /** If as many entries are read as were printed, and those closed so far are the ones printed,
      stripped, they fit, and the open one holds its surviving lines. */
  lemma {:induction false} ReadFittingly(entries: seq<Entry>, spaced: bool)
    requires entries != [] && NewlineEntries(entries) && After(entries, spaced).Next?
    requires var p := After(entries, spaced).parser;
      Count(p) == |entries| && p.role.Some? && p.entries == Stripped(entries[..|entries| - 1])
    ensures var n := |entries| - 1;
      && Fitting(entries[..n])
      && (n > 0 ==> entries[n].role != System)
      && Holds(After(entries, spaced).parser, entries[n], spaced)
  {
    hide NewlinesOnly, ParseLines, BlockLines, After, BodyLines, Survivors, Recognised, ContentOf, Fits, ThinkingAfter;
    hide Strip;
    var n := |entries| - 1;
    if n == 0 {
      AfterOne(entries, spaced);
      BlockFromAny(entries[0], spaced, IDLE);
    } else {
      AfterOneMore(entries, spaced);
      var rest := entries[..n];
      CountBounded(rest, spaced);
      var before := After(rest, spaced).parser;
      var q := if before.thinking then before else before.(lines := before.lines + [""]);
      BlockFromAny(entries[n], spaced, q);
      assert !before.thinking;
      ClosedIsLast(rest, before.entries, Entry(before.role.value, ContentOf(q.lines)));
      ReadFittingly(rest, spaced);
      ReadsBackOnlyFits(rest[n - 1], spaced, [""]);
      FittingSnoc(rest);
    }
  }

  lemma ClosedIsLast(entries: seq<Entry>, before: seq<Entry>, closed: Entry)
    requires entries != [] && Stripped(entries) == before + [closed]
    ensures before == Stripped(entries[..|entries| - 1])
    ensures closed == Entry(entries[|entries| - 1].role, Strip(entries[|entries| - 1].content))
  {
    hide Strip;
    var n := |entries| - 1;
    assert before == Stripped(entries)[..n];
    assert closed == Stripped(entries)[n];
  }

  lemma FittingSnoc(entries: seq<Entry>)
    requires entries != []
    requires var n := |entries| - 1;
      Fitting(entries[..n]) && (n > 0 ==> entries[n].role != System) && Fits(entries[n].content)
    ensures Fitting(entries)
  {
    hide Fits;
    var n := |entries| - 1;
    assert forall i :: 0 <= i < n ==> entries[..n][i] == entries[i];
  }

  lemma {:induction false} NewlinesHaveNoBreaks(entries: seq<Entry>, spaced: bool)
    requires NewlineEntries(entries)
    ensures forall l :: l in RenderedLines(entries, spaced) ==> NoBreaks(l)
  {
    hide BlockLines, NewlinesOnly, NoBreaks;
    if entries != [] {
      NewlineBlock(entries[|entries| - 1], spaced);
      EmptyIsPlain();
      if |entries| > 1 {
        NewlinesHaveNoBreaks(entries[..|entries| - 1], spaced);
      }
    }
  }

  lemma NewlineBlock(e: Entry, spaced: bool)
    requires NewlinesOnly(e.content)
    ensures forall l :: l in BlockLines(e, spaced) ==> NoBreaks(l)
    ensures NoBreaks("")
  {
    hide RenderMarker, BodyLines, NewlinesOnly;
    BodyNoMarkers(e);
    RenderedMarkerShape(e.role);
  }

  /** Contents broken by newlines only are read back stripped exactly when the entries fit. */
  lemma ReadsExactly(entries: seq<Entry>, spaced: bool)
    requires NewlineEntries(entries)
    ensures Parse(Render(entries, spaced)) == Parsed(Stripped(entries)) <==> Fitting(entries)
  {
    hide Render, NewlinesOnly, Fits, Fitting, ParseLines, RenderedLines, SplitLines, Flush, Strip;
    if Fitting(entries) {
      FittingReads(entries, spaced);
    } else if Parse(Render(entries, spaced)) == Parsed(Stripped(entries)) {
      RenderIsLines(entries, spaced);
      NewlinesHaveNoBreaks(entries, spaced);
      SplitLinesTerminated(RenderedLines(entries, spaced));
      OnlyFitting(entries, spaced);
    }
  }

  lemma OnlyFitting(entries: seq<Entry>, spaced: bool)
    requires NewlineEntries(entries) && After(entries, spaced).Next?
    requires Flush(After(entries, spaced).parser).entries == Stripped(entries)
    ensures Fitting(entries)
  {
    hide NewlinesOnly, Fits, ParseLines, RenderedLines, After, ContentOf, BodyLines, Recognised, Survivors;
    hide ThinkingAfter, Strip;
    if entries != [] {
      var n := |entries| - 1;
      var p := After(entries, spaced).parser;
      CountBounded(entries, spaced);
      assert p.entries + [Entry(p.role.value, ContentOf(p.lines))] == Stripped(entries);
      assert p.entries == Stripped(entries)[..n] == Stripped(entries[..n]);
      ReadFittingly(entries, spaced);
      assert p.lines + [] == p.lines;
      assert ContentOf(p.lines) == Stripped(entries)[n].content;
      ReadsBackOnlyFits(entries[n], spaced, []);
      FittingSnoc(entries);
    }
  }

  /** Printing then parsing gives the same entries exactly when they are faithful. */
  lemma RoundTripIffFaithful(entries: seq<Entry>, spaced: bool)
    ensures Parse(Render(entries, spaced)) == Parsed(entries) <==> Faithful(entries)
  {
    hide Render, Trim, NewlinesOnly, Faithful, Fitting, Parse, Strip;
    FaithfulIsFitting(entries);
    if Faithful(entries) {
      TranscriptRoundTrips(entries, spaced);
    } else if Parse(Render(entries, spaced)) == Parsed(entries) {
      ParsedIsTame(Render(entries, spaced));
      forall i | 0 <= i < |entries| ensures Stripped(entries)[i] == entries[i] {
        StripFixed(entries[i].content);
      }
      assert Stripped(entries) == entries;
      ReadsExactly(entries, spaced);
    }
  }

  // ----- Against the log

  lemma RoleNamesDiffer(a: Role, b: Role)
    requires RoleName(a) == RoleName(b)
    ensures a == b
  {
    assert RoleName(a)[0] == RoleName(b)[0] && |RoleName(a)| == |RoleName(b)|;
  }

  /** The margins are broken by newlines only. */
  predicate NewlineMargins(content: string) {
    NewlinesOnly(Lead(content)) && NewlinesOnly(Trail(content))
  }

  /** Tame entries that agree turn by turn with others are those, stripped. */
  lemma AgreementIsStripping(a: seq<Entry>, b: seq<Entry>)
    requires TameEntries(a) && |a| >= |b|
    requires BestPrefix.AgreeUpTo(TurnsOf(a), TurnsOf(b), |b|)
    ensures a[..|b|] == Stripped(b)
    ensures forall i :: 0 <= i < |b| ==> NewlinesOnly(Strip(b[i].content))
  {
    hide Strip, RoleName, Trim, NewlinesOnly;
    forall i | 0 <= i < |b| ensures a[i] == Stripped(b)[i] && NewlinesOnly(Strip(b[i].content)) {
      assert BestPrefix.SameTurn(TurnsOf(a)[i], TurnsOf(b)[i]);
      RoleNamesDiffer(a[i].role, b[i].role);
      StripFixed(a[i].content);
    }
  }

  lemma CoreNewlines(content: string)
    requires NewlineMargins(content) && NewlinesOnly(Strip(content))
    ensures NewlinesOnly(content)
  {
    hide Strip, Lead, Trail;
    Margins(content);
  }

  lemma NoMoreParsed(entries: seq<Entry>, spaced: bool)
    requires NewlineEntries(entries) && Parse(Render(entries, spaced)).Parsed?
    ensures |Parse(Render(entries, spaced)).entries| <= |entries|
  {
    hide NewlinesOnly, ContentOf, ParseLines, RenderedLines, SplitLines, Render, After;
    RenderIsLines(entries, spaced);
    NewlinesHaveNoBreaks(entries, spaced);
    SplitLinesTerminated(RenderedLines(entries, spaced));
    AfterIs(entries, spaced);
    if entries == [] {
      NothingRendered(spaced);
    } else {
      CountBounded(entries, spaced);
    }
  }

  lemma AfterIs(entries: seq<Entry>, spaced: bool)
    ensures After(entries, spaced) == ParseLines(RenderedLines(entries, spaced), IDLE)
  {
  }

  /** For contents whose white space at either end is broken by newlines only, a projected transcript
      matches its own lineage to the end exactly when its entries fit. */
  lemma ProjectionMatchesExactly(byId: map<Id, Message>, head: Id, entries: seq<Entry>)
    requires Rooted(byId, head) && Lineage(byId, head) == TurnsOf(entries)
    requires forall i :: 0 <= i < |entries| ==> NewlineMargins(entries[i].content)
    ensures var parsed := Parse(Render(entries, true));
      (&& parsed.Parsed?
       && BestPrefix.Lcp(TurnsOf(parsed.entries), Lineage(byId, head)) == |Lineage(byId, head)|)
      <==> Fitting(entries)
  {
    hide Lineage, Rooted, Parse, Render, NewlinesOnly, Trim, Fitting, BestPrefix.Lcp, BestPrefix.AgreeUpTo, Strip;
    hide NewlineMargins;
    var parsed := Parse(Render(entries, true));
    if Fitting(entries) {
      ProjectionMatchesLineage(byId, head, entries);
    } else if parsed.Parsed? && BestPrefix.Lcp(TurnsOf(parsed.entries), TurnsOf(entries)) == |entries| {
      ParsedIsTame(Render(entries, true));
      LongEnough(parsed.entries, entries);
      AgreementIsStripping(parsed.entries, entries);
      forall i | 0 <= i < |entries| ensures NewlinesOnly(entries[i].content) {
        CoreNewlines(entries[i].content);
      }
      NoMoreParsed(entries, true);
      assert parsed.entries[..|entries|] == parsed.entries;
      ReadsExactly(entries, true);
    }
  }

  lemma LongEnough(a: seq<Entry>, b: seq<Entry>)
    requires BestPrefix.Lcp(TurnsOf(a), TurnsOf(b)) == |b|
    ensures |a| >= |b| && BestPrefix.AgreeUpTo(TurnsOf(a), TurnsOf(b), |b|)
  {
    assert BestPrefix.AgreeUpTo(TurnsOf(a), TurnsOf(b), |b|);
  }

  // ----- A clean core is not enough

  /** A marker line with a no-break space at its end has the marker prefix and is no marker line. */
  lemma UnfitLine(line: string)
    requires line == "## TOAS:USER" + "\U{A0}"
    ensures MarkerRole(line).None? && MARKER_PREFIX <= line
  {
    var at := |MARKER_PREFIX|;
    assert line == MARKER_PREFIX + UpperName(User) + "\U{A0}";
    MarkedWith(line, User, "\U{A0}");
    assert line[at] == 'U';
    forall role | MarksRole(line, role) ensures UpperName(role)[0] == 'U' {
      assert (MARKER_PREFIX + UpperName(role))[at] == line[at];
    }
  }

  lemma CleanMarker(line: string)
    requires line == RenderMarker(User)
    ensures Clean(line)
  {
    hide MarkerRole;
    RenderedMarkerIsRead(User);
    RenderedMarkerShape(User);
    SplitOneLine(line) by {
      assert IsBreak('\n');
    }
    StripFixed(line);
    NotEscaped(line);
    assert line[0] == '#' && "<!-- toas:"[0] == '<';
    MarkerNotSpace();
  }

  /** A content whose core is clean and which does not fit: white space after a marker can make its
      raw line an unrecognised one. */
  lemma CleanCoreUnfit(content: string)
    requires content == "## TOAS:USER" + "\U{A0}"
    ensures Clean(Strip(content)) && NewlinesOnly(content) && !Fits(content)
  {
    hide Clean, Strip, Split, MarkerRole, KeepsMarkers, BeginsWithTelemetry;
    UnfitLine(content);
    CleanMarker("## TOAS:USER");
    SplitOneLine(content);
    StripFixed("## TOAS:USER");
    CleanIsTrimFit("## TOAS:USER");
    assert content == "" + "## TOAS:USER" + "\U{A0}";
    StripPaddedAny("", "## TOAS:USER", "\U{A0}");
    assert forall c :: c in content ==> c in "## TOAS:USER" || c == '\U{A0}';
  }
}
