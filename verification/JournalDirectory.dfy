/**
 The journal's directory as the program updates it in place: the hot file, the sealed segments,
 and their indexes.
 */
module JournalDirectory {
  import opened Journal
  import opened IndexRecords
  import opened JournalFiles
  import opened JournalDisk

  datatype SealResult = Unsealed | SealedAs(ordinal: nat, size: nat) | BadLayout

  class Directory {
    var hot: File
    var segments: map<nat, File>
    var clock: nat

    ghost function State(): Disk
      reads this
    {
      Disk(hot, segments, clock)
    }

    constructor ()
      ensures State() == EMPTY_DISK && Sound(State()) && History(State()) == []
    {
      hot, segments, clock := NO_FILE, map[], 1;
      new;
      EmptyInStep(hot);
    }

    method WriteMessageEvents(batch: seq<Line>)
      requires AllMessages(batch)
      modifies this
      ensures State() == MessagesWritten(old(State()), batch)
      ensures old(Sound(State())) ==> Sound(State()) && History(State()) == old(History(State())) + batch
    {
      hide InStep, Size, RecordsFrom;
      hot := WriteMessageLines(hot, batch, clock);
      clock := clock + 1;
      if old(Sound(State())) {
        PerformKeepsSound(old(State()), WriteMessages(batch));
      }
    }

    method AppendNodes(batch: seq<Line>)
      requires NoMessages(batch)
      modifies this
      ensures State() == RecordsAppended(old(State()), batch)
      ensures old(Sound(State())) ==> Sound(State()) && History(State()) == old(History(State())) + batch
    {
      hide InStep, Size, RecordsFrom;
      if batch != [] {
        hot := hot.(lines := Some(Lines(hot) + batch), version := clock);
      }
      clock := clock + 1;
      if old(Sound(State())) {
        PerformKeepsSound(old(State()), AppendRecords(batch));
      }
    }

    /** The ordinals of the sealed segments are 1, 2, ... with none missing. */
    method CheckLayout() returns (ok: bool)
      ensures ok <==> Contiguous(segments)
    {
      var expected := 1;
      while expected <= |segments|
        invariant 1 <= expected <= |segments| + 1
        invariant forall i: nat :: 1 <= i < expected ==> i in segments
      {
        if expected !in segments {
          return false;
        }
        expected := expected + 1;
      }
      OrdinalsFill(segments);
      ok := true;
    }

    /** Moves a hot file over the limit to the next segment and leaves an empty hot file. */
    method SealHotJournal(limit: nat) returns (result: SealResult)
      modifies this
      ensures result == BadLayout <==>
        !old(Contiguous(segments)) && old(hot).lines.Some? && Size(old(hot).lines.value) > limit
      ensures result == BadLayout ==> State() == old(State())
      ensures result != BadLayout ==> State() == Sealed(old(State()), limit)
      ensures result == Unsealed <==> old(hot).lines.None? || Size(old(hot).lines.value) <= limit
      ensures result.SealedAs? ==>
        && result.ordinal == old(|segments|) + 1
        && result.size == |Bytes(Lines(old(hot)))|
        && result.ordinal in segments
        && segments == old(segments)[result.ordinal := segments[result.ordinal]]
        && segments[result.ordinal].lines == old(hot).lines
        && Indexes(segments[result.ordinal])
        && hot.lines == Some([]) && hot.index.None? && hot.meta.None?
      ensures old(Sound(State())) ==> Sound(State()) && History(State()) == old(History(State()))
    {
      hide Rebuilt, InStep, Indexes, Bytes, Size;
      if hot.lines.None? {
        return Unsealed;
      }
      var size := Size(hot.lines.value);
      BytesSize(hot.lines.value);
      if size <= limit {
        return Unsealed;
      }
      var ok := CheckLayout();
      if !ok {
        return BadLayout;
      }
      var ordinal := |segments| + 1;
      hot := hot.(index := None);
      hot := hot.(meta := None);
      segments := segments[ordinal := hot];
      hot := File(Some([]), clock, None, None);
      clock := clock + 1;
      var indexed := RebuildIndex(segments[ordinal]);
      segments := segments[ordinal := indexed];
      result := SealedAs(ordinal, size);
      assert State() == Sealed(old(State()), limit);
      if old(Sound(State())) {
        PerformKeepsSound(old(State()), Seal(limit));
      }
    }

    /** The segments in order, then the hot file; a layout with a gap is refused. */
    method ReadLogicalHistory() returns (history: Option<seq<Line>>)
      ensures history.Some? <==> Contiguous(segments)
      ensures history.Some? ==> history.value == History(State())
    {
      var ok := CheckLayout();
      if !ok {
        return None;
      }
      var lines: seq<Line> := [];
      for i := 0 to |segments|
        invariant lines == SegmentLines(segments, i)
      {
        lines := lines + Lines(segments[i + 1]);
      }
      if hot.lines.Some? {
        lines := lines + hot.lines.value;
      }
      history := Some(lines);
    }

    /** Brings one source's index up to date, rebuilding an absent one, and reads it. */
    method ReadOrRebuild(f: File) returns (f': File, records: seq<Record>)
      ensures f' == SourceIndexed(f) && records == SourceRead(f)
    {
      f' := f;
      if f.index.None? {
        f' := RebuildIndex(f);
      }
      f', records := ReadIndex(f');
    }

    /** Reads the hot file's own index; it gives the records of the hot file's messages, or none if
        there is no index. */
    method ReadHotIndex() returns (records: seq<Record>)
      modifies this
      ensures State() == HotRead(old(State())) && records == IndexRead(old(hot))
      ensures old(Sound(State())) ==>
        && Sound(State())
        && History(State()) == old(History(State()))
        && (HistoryFits(Lines(hot)) ==> LocateAll(records, Lines(hot), 0))
    {
      hide InStep, Sound, IndexRead, Expected, HistoryFits, Current, LocateAll;
      hot, records := ReadIndex(hot);
      if old(Sound(State())) {
        PerformKeepsSound(old(State()), Operation.ReadHotIndex);
        HotReadsRight(old(State()));
      }
    }

    /** Reads the indexes of all sources in order, numbering their records from zero; a layout with
        a gap is refused. */
    method ReadLogicalIndex() returns (result: Option<seq<LogicalRecord>>)
      modifies this
      ensures result.Some? <==> old(Contiguous(segments))
      ensures result.None? ==> State() == old(State())
      ensures result.Some? ==> State() == Indexed(old(State())) && result.value == LogicalIndex(old(State()))
      ensures old(Sound(State())) ==>
        && Sound(State())
        && History(State()) == old(History(State()))
        && (HistoryFits(History(State())) ==>
              Lists(result.value, History(State())) && ListsFiles(result.value, FilesOf(State()), |segments|))
    {
      hide SourceIndexed, SourceRead, InStep, Lists, ListsFiles, FilesOf, HistoryFits, Sound, Indexed;
      hide LogicalIndex, SegmentIndex, History;
      ghost var before := State();
      if Sound(before) {
        LogicalReadIsRight(before);
      }
      var ok := CheckLayout();
      if !ok {
        return None;
      }
      var index := ReadSegments();
      if hot.lines.Some? {
        var f, records := ReadOrRebuild(hot);
        hot := f;
        index := AppendNumbered(index, 0, records);
      }
      AllIndexed(before, State());
      SameFiles(before);
      LogicalIndexIs(before, index);
      result := Some(index);
    }

    /** Reads the indexes of the sealed segments in order. */
    method ReadSegments() returns (index: seq<LogicalRecord>)
      requires Contiguous(segments)
      modifies this`segments
      ensures segments.Keys == old(segments).Keys
      ensures forall j :: 1 <= j <= |old(segments)| ==> segments[j] == SourceIndexed(old(segments)[j])
      ensures index == SegmentIndex(old(segments), |old(segments)|)
    {
      hide SourceIndexed, SourceRead;
      index := [];
      for i := 0 to |segments|
        invariant segments.Keys == old(segments).Keys
        invariant forall j :: 1 <= j <= i ==> segments[j] == SourceIndexed(old(segments)[j])
        invariant forall j :: i < j <= |old(segments)| ==> segments[j] == old(segments)[j]
        invariant index == SegmentIndex(old(segments), i)
      {
        var f, records := ReadOrRebuild(segments[i + 1]);
        segments := segments[i + 1 := f];
        index := AppendNumbered(index, i + 1, records);
      }
    }

    method AppendNumbered(before: seq<LogicalRecord>, source: nat, records: seq<Record>)
        returns (index: seq<LogicalRecord>)
      ensures index == Numbered(before, source, records)
    {
      index := before;
      for i := 0 to |records|
        invariant |index| == |before| + i
        invariant forall j :: 0 <= j < |before| ==> index[j] == before[j]
        invariant forall j :: 0 <= j < i ==>
          index[|before| + j] == LogicalRecord(|before| + j, source, records[j])
      {
        index := index + [LogicalRecord(|index|, source, records[i])];
      }
    }
  }

  /** Indexing every source is what a reading of the logical index does. */
  lemma AllIndexed(before: Disk, after: Disk)
    requires Contiguous(before.segments) && after.segments.Keys == before.segments.Keys
    requires forall i :: 1 <= i <= |before.segments| ==> after.segments[i] == SourceIndexed(before.segments[i])
    requires after.hot == if before.hot.lines.Some? then SourceIndexed(before.hot) else before.hot
    requires after.clock == before.clock
    ensures after == Indexed(before)
  {
    hide SourceIndexed;
    assert after.segments == Indexed(before).segments;
  }

  /** Indexing leaves every source's lines. */
  lemma SameFiles(d: Disk)
    requires Contiguous(d.segments)
    ensures Contiguous(Indexed(d).segments) && |Indexed(d).segments| == |d.segments|
    ensures FilesOf(Indexed(d)) == FilesOf(d)
  {
    hide Contiguous, Indexed, SegmentFiles, Lines;
    IndexingKeepsLines(d);
    SameSegmentFiles(d, Indexed(d));
  }

  lemma SameSegmentFiles(a: Disk, b: Disk)
    requires Contiguous(a.segments) && a.segments.Keys == b.segments.Keys
    requires forall i :: i in a.segments ==> b.segments[i].lines == a.segments[i].lines
    ensures Contiguous(b.segments) && |a.segments| == |b.segments|
    ensures SegmentFiles(b.segments, |b.segments|) == SegmentFiles(a.segments, |a.segments|)
  {
    assert |a.segments.Keys| == |b.segments.Keys|;
  }

  lemma LogicalIndexIs(d: Disk, index: seq<LogicalRecord>)
    requires Contiguous(d.segments)
    requires
      var sealed := SegmentIndex(d.segments, |d.segments|);
      index == if d.hot.lines.Some? then Numbered(sealed, 0, SourceRead(d.hot)) else sealed
    ensures index == LogicalIndex(d)
  {
    hide SourceRead, SegmentIndex;
  }

  /** As many ordinals as the largest expected one, all of 1 to n among them: no others. */
  lemma OrdinalsFill(segments: map<nat, File>)
    requires forall i: nat :: 1 <= i <= |segments| ==> i in segments
    ensures Contiguous(segments)
  {
    var n := |segments|;
    var all := Ordinals(n);
    assert all <= segments.Keys;
    assert |segments.Keys| == n;
    SubsetOfSameSize(all, segments.Keys);
  }

  ghost function Ordinals(n: nat): (s: set<nat>)
    ensures |s| == n && forall i: nat :: i in s <==> 1 <= i <= n
  {
    if n == 0 then {} else Ordinals(n - 1) + {n}
  }

  lemma SubsetOfSameSize(a: set<nat>, b: set<nat>)
    requires a <= b && |a| == |b|
    ensures a == b
  {
    assert b == a + (b - a);
    assert |b| == |a| + |b - a|;
  }
}
