/**
 The journal as a storage machine: a hot file, sealed segments numbered from one, and the
 operations on them, each taken as a whole.
 */
module JournalDisk {
  import opened Journal
  import opened IndexRecords
  import opened JournalFiles

  /** `clock` is the fingerprint the next write will give its file. */
  datatype Disk = Disk(hot: File, segments: map<nat, File>, clock: nat)

  const NO_FILE := File(None, 0, None, None)

  const EMPTY_DISK := Disk(NO_FILE, map[], 1)

  /** Sealed segments are numbered 1, 2, ... without a gap. */
  ghost predicate Contiguous(segments: map<nat, File>) {
    forall i: nat :: i in segments <==> 1 <= i <= |segments|
  }

  /** The lines of segments 1 to n. */
  ghost function SegmentLines(segments: map<nat, File>, n: nat): seq<Line>
    requires forall i :: 1 <= i <= n ==> i in segments
  {
    if n == 0 then [] else SegmentLines(segments, n - 1) + Lines(segments[n])
  }

  /** The logical history: the segments in order, then the hot file. */
  ghost function History(d: Disk): seq<Line>
    requires Contiguous(d.segments)
  {
    SegmentLines(d.segments, |d.segments|) + Lines(d.hot)
  }

  lemma {:induction false} SegmentLinesSame(a: map<nat, File>, b: map<nat, File>, n: nat)
    requires forall i :: 1 <= i <= n ==> i in a && i in b && Lines(a[i]) == Lines(b[i])
    ensures SegmentLines(a, n) == SegmentLines(b, n)
  {
    if n > 0 {
      SegmentLinesSame(a, b, n - 1);
    }
  }

  /** Moving the hot file to the next segment leaves the history as it was. */
  lemma SealKeepsHistory(d: Disk, sealed: File, hot: File)
    requires Contiguous(d.segments) && Lines(sealed) == Lines(d.hot) && Lines(hot) == []
    ensures |d.segments| + 1 !in d.segments
    ensures var d' := d.(hot := hot, segments := d.segments[|d.segments| + 1 := sealed]);
      && Contiguous(d'.segments)
      && |d'.segments| == |d.segments| + 1
      && History(d') == History(d)
  {
    hide Contiguous;
    var n := |d.segments|;
    var grown := d.segments[n + 1 := sealed];
    GrownSegments(d.segments, sealed);
    SegmentLinesSame(d.segments, grown, n);
    assert SegmentLines(grown, n + 1) == SegmentLines(d.segments, n) + Lines(d.hot);
  }

  /** One more segment at the next ordinal. */
  lemma GrownSegments(segments: map<nat, File>, sealed: File)
    requires Contiguous(segments)
    ensures forall i :: 1 <= i <= |segments| ==> i in segments && i != |segments| + 1
    ensures |segments| + 1 !in segments
    ensures var grown := segments[|segments| + 1 := sealed]; Contiguous(grown) && |grown| == |segments| + 1
  {
    var n := |segments|;
    var grown := segments[n + 1 := sealed];
    assert grown.Keys == segments.Keys + {n + 1};
    assert |grown.Keys| == n + 1;
  }

  /** Changing indexes only leaves the history as it was. */
  lemma SameLinesSameHistory(a: Disk, b: Disk)
    requires Contiguous(a.segments) && a.segments.Keys == b.segments.Keys
    requires forall i :: i in a.segments ==> Lines(a.segments[i]) == Lines(b.segments[i])
    requires Lines(a.hot) == Lines(b.hot)
    ensures Contiguous(b.segments) && |a.segments| == |b.segments| && History(a) == History(b)
  {
    assert |a.segments.Keys| == |b.segments.Keys|;
    SegmentLinesSame(a.segments, b.segments, |a.segments|);
  }

  // ----- Operations

  datatype Operation =
    | WriteMessages(batch: seq<Line>)
    | AppendRecords(batch: seq<Line>)
    | Seal(limit: nat)
    | ReadHotIndex
    | ReadLogicalIndex

  predicate Proper(op: Operation) {
    match op
    case WriteMessages(batch) => AllMessages(batch)
    case AppendRecords(batch) => NoMessages(batch)
    case _ => true
  }

  function MessagesWritten(d: Disk, batch: seq<Line>): Disk {
    Disk(Written(d.hot, batch, d.clock), d.segments, d.clock + 1)
  }

  function RecordsAppended(d: Disk, batch: seq<Line>): Disk {
    Disk(Appended(d.hot, batch, d.clock), d.segments, d.clock + 1)
  }

  /** A seal moves a hot file over the limit to the next segment and indexes it there. */
  function Sealed(d: Disk, limit: nat): Disk {
    if d.hot.lines.None? || Size(d.hot.lines.value) <= limit then d
    else
      Disk(
        File(Some([]), d.clock, None, None),
        d.segments[|d.segments| + 1 := Rebuilt(File(d.hot.lines, d.hot.version, None, None))],
        d.clock + 1)
  }

  /** Reading, seeking or searching the hot index rebuilds it if it is out of date. */
  function HotRead(d: Disk): Disk {
    d.(hot := Current(d.hot))
  }

  /** Reading the logical index brings the index of every source up to date. */
  function Indexed(d: Disk): Disk {
    Disk(
      if d.hot.lines.Some? then SourceIndexed(d.hot) else d.hot,
      map i | i in d.segments :: SourceIndexed(d.segments[i]),
      d.clock)
  }

  function Perform(d: Disk, op: Operation): Disk {
    match op
    case WriteMessages(batch) => MessagesWritten(d, batch)
    case AppendRecords(batch) => RecordsAppended(d, batch)
    case Seal(limit) => Sealed(d, limit)
    case ReadHotIndex => HotRead(d)
    case ReadLogicalIndex => Indexed(d)
  }

  function BatchOf(op: Operation): seq<Line> {
    match op
    case WriteMessages(batch) => batch
    case AppendRecords(batch) => batch
    case _ => []
  }

  function Run(ops: seq<Operation>): Disk {
    if ops == [] then EMPTY_DISK else Perform(Run(ops[..|ops| - 1]), ops[|ops| - 1])
  }

  function BatchesOf(ops: seq<Operation>): seq<Line> {
    if ops == [] then [] else BatchesOf(ops[..|ops| - 1]) + BatchOf(ops[|ops| - 1])
  }

  // ----- What every run keeps

  /** Ordinals without a gap, and every index what a rebuild would store. */
  ghost predicate Sound(d: Disk) {
    && Contiguous(d.segments)
    && InStep(d.hot)
    && (forall i :: i in d.segments ==> d.segments[i].lines.Some? && InStep(d.segments[i]))
  }

  lemma PerformKeepsSound(d: Disk, op: Operation)
    requires Sound(d) && Proper(op)
    ensures Sound(Perform(d, op))
    ensures History(Perform(d, op)) == History(d) + BatchOf(op)
  {
    hide InStep, Written, Appended, Rebuilt, SourceIndexed, Size;
    match op {
      case WriteMessages(batch) =>
        WriteKeepsStep(d.hot, batch, d.clock);
        WrittenLines(d.hot, batch, d.clock);
      case AppendRecords(batch) =>
        AppendKeepsStep(d.hot, batch, d.clock);
        WrittenLines(d.hot, batch, d.clock);
      case Seal(limit) =>
        SealKeepsSound(d, limit);
      case ReadHotIndex =>
        HotReadKeepsSound(d);
      case ReadLogicalIndex =>
        IndexingKeepsSound(d);
    }
  }

  lemma HotReadKeepsSound(d: Disk)
    requires Sound(d)
    ensures Sound(HotRead(d)) && History(HotRead(d)) == History(d)
  {
    hide InStep, Expected, Encode;
    RebuildIsInStep(d.hot);
    SameLinesSameHistory(d, HotRead(d));
  }

  lemma WrittenLines(f: File, batch: seq<Line>, stamp: nat)
    ensures Lines(Written(f, batch, stamp)) == Lines(f) + batch
    ensures Lines(Appended(f, batch, stamp)) == Lines(f) + batch
  {
    hide RecordsFrom, Size, Encode;
    assert Lines(f) + [] == Lines(f);
  }

  lemma SealKeepsSound(d: Disk, limit: nat)
    requires Sound(d)
    ensures Sound(Sealed(d, limit)) && History(Sealed(d, limit)) == History(d)
  {
    hide InStep, Size;
    var sealed := File(d.hot.lines, d.hot.version, None, None);
    var emptied := File(Some([]), d.clock, None, None);
    SealKeepsHistory(d, Rebuilt(sealed), emptied);
    RebuildIsInStep(sealed);
    EmptyInStep(emptied);
  }

  lemma EmptyInStep(f: File)
    requires Lines(f) == [] && f.index.None?
    ensures InStep(f)
  {
  }

  lemma IndexingKeepsSound(d: Disk)
    requires Sound(d)
    ensures Sound(Indexed(d)) && History(Indexed(d)) == History(d)
  {
    hide InStep, Rebuilt, Expected;
    IndexingKeepsLines(d);
    RebuildIsInStep(d.hot);
    forall i | i in d.segments ensures InStep(SourceIndexed(d.segments[i])) {
      RebuildIsInStep(d.segments[i]);
    }
    SameLinesSameHistory(d, Indexed(d));
  }

  lemma IndexingKeepsLines(d: Disk)
    ensures Indexed(d).segments.Keys == d.segments.Keys && Indexed(d).hot.lines == d.hot.lines
    ensures d.hot.lines.None? ==> Indexed(d).hot == d.hot
    ensures forall i :: i in d.segments ==> Indexed(d).segments[i].lines == d.segments[i].lines
  {
    hide Encode, Expected;
  }

  /** In every run from an empty journal nothing is lost, ordinals stay gapless, and the stored
      indexes are those a rebuild would store. */
  lemma {:induction false} EveryRun(ops: seq<Operation>)
    requires forall op :: op in ops ==> Proper(op)
    ensures Sound(Run(ops)) && History(Run(ops)) == BatchesOf(ops)
  {
    if ops == [] {
      EmptyInStep(NO_FILE);
    } else {
      EveryRun(ops[..|ops| - 1]);
      PerformKeepsSound(Run(ops[..|ops| - 1]), ops[|ops| - 1]);
    }
  }

  // ----- The logical index

  /** `source` is the segment's ordinal, or 0 for the hot file. */
  datatype LogicalRecord = LogicalRecord(position: nat, source: nat, record: Record)

  /** Numbers the records of one source on from the ones before. */
  function Numbered(before: seq<LogicalRecord>, source: nat, records: seq<Record>): (r: seq<LogicalRecord>)
    ensures |r| == |before| + |records|
    ensures forall i :: 0 <= i < |before| ==> r[i] == before[i]
    ensures forall i :: 0 <= i < |records| ==> r[|before| + i] == LogicalRecord(|before| + i, source, records[i])
  {
    before + seq(|records|, i requires 0 <= i < |records| => LogicalRecord(|before| + i, source, records[i]))
  }

  ghost function SegmentIndex(segments: map<nat, File>, n: nat): seq<LogicalRecord>
    requires forall i :: 1 <= i <= n ==> i in segments
  {
    if n == 0 then [] else Numbered(SegmentIndex(segments, n - 1), n, SourceRead(segments[n]))
  }

  /** What a reading of the logical index returns. */
  ghost function LogicalIndex(d: Disk): seq<LogicalRecord>
    requires Contiguous(d.segments)
  {
    var sealed := SegmentIndex(d.segments, |d.segments|);
    if d.hot.lines.Some? then Numbered(sealed, 0, SourceRead(d.hot)) else sealed
  }

  /** The message ids of a history, in order. */
  function MessageIds(lines: seq<Line>): seq<seq<Byte>> {
    if lines == [] then []
    else
      MessageIds(lines[..|lines| - 1]) +
        match lines[|lines| - 1].message
        case Some(id) => [id]
        case None => []
  }

  lemma {:induction false} MessageIdsAppend(a: seq<Line>, b: seq<Line>)
    ensures MessageIds(a + b) == MessageIds(a) + MessageIds(b)
  {
    if b == [] {
      assert a + b == a;
    } else {
      assert (a + b)[..|a + b| - 1] == a + b[..|b| - 1];
      MessageIdsAppend(a, b[..|b| - 1]);
    }
  }

  lemma {:induction false} ExpectedIds(lines: seq<Line>, line: nat, pos: nat)
    ensures var records := RecordsFrom(lines, line, pos);
      |records| == |MessageIds(lines)| && forall i :: 0 <= i < |records| ==> records[i].id == MessageIds(lines)[i]
  {
    if lines != [] {
      ExpectedIds(lines[..|lines| - 1], line, pos);
    }
  }

  /** Lines an index can record: ids it can store, line numbers below 2^32, offsets below 2^64. */
  ghost predicate HistoryFits(lines: seq<Line>) {
    && (forall l :: l in lines && l.message.Some? ==> Storable(l.message.value))
    && |lines| <= Pow256(4)
    && Size(lines) < Pow256(8)
  }

  lemma FitsParts(a: seq<Line>, b: seq<Line>)
    requires HistoryFits(a + b)
    ensures HistoryFits(a) && HistoryFits(b)
  {
    hide Pow256;
    SizeAppend(a, b);
    assert forall l :: l in a || l in b ==> l in a + b;
  }

  lemma {:induction false} RecordsBounded(lines: seq<Line>)
    requires forall l :: l in lines && l.message.Some? ==> Storable(l.message.value)
    ensures forall n :: 0 <= n < |Expected(lines)| ==>
      var record := Expected(lines)[n];
      record.line < |lines| && record.offset <= Size(lines) && Storable(record.id)
  {
    hide Storable;
    if lines != [] {
      var rest, last := lines[..|lines| - 1], lines[|lines| - 1];
      assert lines == rest + [last];
      RecordsBounded(rest);
      var records := Expected(rest);
      assert Expected(lines) ==
        records + if last.message.Some? then [Record(|rest|, Size(rest), last.message.value)] else [];
    }
  }

  lemma FitsIsExact(lines: seq<Line>)
    requires HistoryFits(lines)
    ensures Exact(Expected(lines))
  {
    hide Pow256, Storable, Expected;
    RecordsBounded(lines);
  }

  /** The logical index lists exactly the messages of a history, numbered from zero. */
  ghost predicate Lists(index: seq<LogicalRecord>, lines: seq<Line>) {
    && |index| == |MessageIds(lines)|
    && forall i :: 0 <= i < |index| ==> index[i].position == i && index[i].record.id == MessageIds(lines)[i]
  }

  /** The lines of every source of the logical index, in order. */
  ghost function FilesOf(d: Disk): seq<seq<Line>>
    requires Contiguous(d.segments)
  {
    SegmentFiles(d.segments, |d.segments|) + if d.hot.lines.Some? then [d.hot.lines.value] else []
  }

  ghost function SegmentFiles(segments: map<nat, File>, n: nat): (files: seq<seq<Line>>)
    requires forall i :: 1 <= i <= n ==> i in segments
    ensures |files| == n && forall i :: 1 <= i <= n ==> files[i - 1] == Lines(segments[i])
  {
    seq(n, i requires 0 <= i < n => Lines(segments[i + 1]))
  }

  /** Where a source stands in that order: the segments by ordinal, then the hot file, source 0. */
  function Place(source: nat, segments: nat): nat {
    if source == 0 then segments else source - 1
  }

  /** Numbered from zero: one record for each message line of each source, naming the source, the line
      and the place in the source where the line begins; source by source, line by line. */
  ghost predicate ListsFiles(index: seq<LogicalRecord>, files: seq<seq<Line>>, segments: nat) {
    && (forall j :: 0 <= j < |index| ==> index[j].position == j)
    && (forall j :: 0 <= j < |index| ==>
          var q := Place(index[j].source, segments); q < |files| && Locates(index[j].record, files[q]))
    && (forall j, k :: 0 <= j < k < |index| ==> Precedes(index[j], index[k], segments))
    && (forall q, i :: 0 <= q < |files| && 0 <= i < |files[q]| && files[q][i].message.Some? ==>
          LogicalFor(index, q, i, segments))
  }

  predicate Precedes(a: LogicalRecord, b: LogicalRecord, segments: nat) {
    var p, q := Place(a.source, segments), Place(b.source, segments);
    p < q || (p == q && a.record.line < b.record.line)
  }

  ghost predicate LogicalFor(index: seq<LogicalRecord>, q: nat, i: nat, segments: nat) {
    exists j :: 0 <= j < |index| && Place(index[j].source, segments) == q && index[j].record.line == i
  }

  /** One more source, numbered on. */
  lemma ListsOneMore(index: seq<LogicalRecord>, files: seq<seq<Line>>, segments: nat,
                     source: nat, records: seq<Record>, lines: seq<Line>)
    requires ListsFiles(index, files, segments) && Place(source, segments) == |files|
    requires LocateAll(records, lines, 0)
    ensures ListsFiles(Numbered(index, source, records), files + [lines], segments)
  {
    hide Locates, Numbered, Precedes, LogicalFor, Place;
    NumberedOn(index, source, records);
    var more, longer := Numbered(index, source, records), files + [lines];
    forall j | 0 <= j < |more|
      ensures var q := Place(more[j].source, segments); q < |longer| && Locates(more[j].record, longer[q])
    {
      assert j < |index| ==> more[j] == index[j];
    }
    forall j, k | 0 <= j < k < |more| ensures Precedes(more[j], more[k], segments) {
      OrderMore(index, files, segments, source, records, lines, j, k);
    }
    forall q, i | 0 <= q < |longer| && 0 <= i < |longer[q]| && longer[q][i].message.Some?
      ensures LogicalFor(more, q, i, segments)
    {
      FoundMore(index, files, segments, source, records, lines, q, i);
    }
  }

  lemma NumberedOn(index: seq<LogicalRecord>, source: nat, records: seq<Record>)
    ensures var more := Numbered(index, source, records);
      && |more| == |index| + |records|
      && (forall j :: 0 <= j < |index| ==> more[j] == index[j])
      && (forall j :: |index| <= j < |more| ==> more[j] == LogicalRecord(j, source, records[j - |index|]))
  {
  }

  lemma OrderMore(index: seq<LogicalRecord>, files: seq<seq<Line>>, segments: nat,
                  source: nat, records: seq<Record>, lines: seq<Line>, j: nat, k: nat)
    requires ListsFiles(index, files, segments) && Place(source, segments) == |files|
    requires LocateAll(records, lines, 0) && j < k < |index| + |records|
    ensures var more := Numbered(index, source, records);
      k < |more| && Precedes(more[j], more[k], segments)
  {
    hide Locates, Numbered, LogicalFor, Place;
    NumberedOn(index, source, records);
  }

  lemma FoundMore(index: seq<LogicalRecord>, files: seq<seq<Line>>, segments: nat,
                  source: nat, records: seq<Record>, lines: seq<Line>, q: nat, i: nat)
    requires ListsFiles(index, files, segments) && Place(source, segments) == |files|
    requires LocateAll(records, lines, 0)
    requires q < |files| + 1 && i < |(files + [lines])[q]| && (files + [lines])[q][i].message.Some?
    ensures LogicalFor(Numbered(index, source, records), q, i, segments)
  {
    hide Locates, Numbered, Precedes, Place;
    NumberedOn(index, source, records);
    var more := Numbered(index, source, records);
    if q < |files| {
      assert LogicalFor(index, q, i, segments);
      var j :| 0 <= j < |index| && Place(index[j].source, segments) == q && index[j].record.line == i;
      assert more[j] == index[j];
    } else {
      assert RecordFor(records, i);
      var j :| 0 <= j < |records| && records[j].line == i;
      assert more[|index| + j].record == records[j];
    }
  }

  lemma NumberedLists(before: seq<LogicalRecord>, lines: seq<Line>, source: nat, more: seq<Line>)
    requires Lists(before, lines)
    ensures Lists(Numbered(before, source, Expected(more)), lines + more)
  {
    hide MessageIds, RecordsFrom;
    MessageIdsAppend(lines, more);
    ExpectedIds(more, 0, 0);
  }

  lemma {:induction false} SegmentIndexLists(segments: map<nat, File>, n: nat)
    requires forall i :: 1 <= i <= n ==> i in segments
    requires forall i :: 1 <= i <= n ==> segments[i].lines.Some? && Safe(segments[i])
    requires HistoryFits(SegmentLines(segments, n))
    ensures Lists(SegmentIndex(segments, n), SegmentLines(segments, n))
  {
    hide SourceRead, Safe, Expected, Exact, HistoryFits;
    if n > 0 {
      FitsParts(SegmentLines(segments, n - 1), Lines(segments[n]));
      FitsIsExact(Lines(segments[n]));
      SegmentIndexLists(segments, n - 1);
      SafeReadsRight(segments[n]);
      NumberedLists(SegmentIndex(segments, n - 1), SegmentLines(segments, n - 1), n, Lines(segments[n]));
    }
  }

  lemma IndexNext(segments: map<nat, File>, n: nat)
    requires forall i :: 1 <= i <= n ==> i in segments
    ensures n == 0 ==> SegmentIndex(segments, n) == []
    ensures n > 0 ==>
      SegmentIndex(segments, n) == Numbered(SegmentIndex(segments, n - 1), n, SourceRead(segments[n]))
  {
    hide Numbered, SourceRead;
  }

  lemma FilesNext(segments: map<nat, File>, n: nat)
    requires forall i :: 1 <= i <= n ==> i in segments
    ensures n == 0 ==> SegmentFiles(segments, n) == []
    ensures n > 0 ==> SegmentFiles(segments, n) == SegmentFiles(segments, n - 1) + [Lines(segments[n])]
  {
    hide Lines, SegmentFiles;
    if n > 0 {
      var before, after := SegmentFiles(segments, n - 1), SegmentFiles(segments, n);
      forall i | 0 <= i < n ensures after[i] == (before + [Lines(segments[n])])[i] {
        assert after[(i + 1) - 1] == Lines(segments[i + 1]);
        assert i < n - 1 ==> before[(i + 1) - 1] == Lines(segments[i + 1]);
      }
    }
  }

  lemma LinesNext(segments: map<nat, File>, n: nat)
    requires n > 0 && forall i :: 1 <= i <= n ==> i in segments
    ensures SegmentLines(segments, n) == SegmentLines(segments, n - 1) + Lines(segments[n])
  {
    hide Lines;
  }

  lemma {:induction false} SegmentIndexFiles(segments: map<nat, File>, n: nat, all: nat)
    requires n <= all && forall i :: 1 <= i <= n ==> i in segments
    requires forall i :: 1 <= i <= n ==> segments[i].lines.Some? && Safe(segments[i])
    requires HistoryFits(SegmentLines(segments, n))
    ensures ListsFiles(SegmentIndex(segments, n), SegmentFiles(segments, n), all)
  {
    hide SourceRead, Safe, Expected, Exact, HistoryFits, LocateAll, ListsFiles, Numbered;
    hide SegmentIndex, SegmentFiles, SegmentLines;
    IndexNext(segments, n);
    FilesNext(segments, n);
    if n == 0 {
      NothingListed(all);
    } else {
      LinesNext(segments, n);
      FitsParts(SegmentLines(segments, n - 1), Lines(segments[n]));
      FitsIsExact(Lines(segments[n]));
      SegmentIndexFiles(segments, n - 1, all);
      SafeReadsRight(segments[n]);
      ExpectedLocate(Lines(segments[n]));
      ListsOneMore(
        SegmentIndex(segments, n - 1), SegmentFiles(segments, n - 1), all,
        n, SourceRead(segments[n]), Lines(segments[n]));
    }
  }

  lemma NothingListed(all: nat)
    ensures ListsFiles([], [], all)
  {
  }

  /** And it points to every message's line in its own source. */
  lemma LogicalIndexPoints(d: Disk)
    requires Contiguous(d.segments)
    requires forall i :: i in d.segments ==> d.segments[i].lines.Some? && Safe(d.segments[i])
    requires Safe(d.hot) && HistoryFits(History(d))
    ensures ListsFiles(LogicalIndex(d), FilesOf(d), |d.segments|)
  {
    hide SourceRead, Safe, Expected, Exact, HistoryFits, LocateAll, ListsFiles, SegmentIndex, SegmentFiles;
    var n := |d.segments|;
    FitsParts(SegmentLines(d.segments, n), Lines(d.hot));
    SegmentIndexFiles(d.segments, n, n);
    if d.hot.lines.Some? {
      FitsIsExact(Lines(d.hot));
      SafeReadsRight(d.hot);
      ExpectedLocate(Lines(d.hot));
      ListsOneMore(
        SegmentIndex(d.segments, n), SegmentFiles(d.segments, n), n, 0, SourceRead(d.hot), Lines(d.hot));
    } else {
      assert SegmentFiles(d.segments, n) + [] == SegmentFiles(d.segments, n);
    }
  }

  /** Whenever every index is absent, known to be out of date, or in step, the logical index lists
      exactly the messages of the logical history, in order, at positions 0 to N-1. */
  lemma LogicalIndexIsRight(d: Disk)
    requires Contiguous(d.segments)
    requires forall i :: i in d.segments ==> d.segments[i].lines.Some? && Safe(d.segments[i])
    requires Safe(d.hot) && HistoryFits(History(d))
    ensures Lists(LogicalIndex(d), History(d))
    ensures ListsFiles(LogicalIndex(d), FilesOf(d), |d.segments|)
  {
    hide SourceRead, Safe, Expected, Exact, HistoryFits, ListsFiles, FilesOf;
    LogicalIndexPoints(d);
    FitsParts(SegmentLines(d.segments, |d.segments|), Lines(d.hot));
    SegmentIndexLists(d.segments, |d.segments|);
    if d.hot.lines.Some? {
      FitsIsExact(Lines(d.hot));
      SafeReadsRight(d.hot);
      NumberedLists(SegmentIndex(d.segments, |d.segments|), SegmentLines(d.segments, |d.segments|), 0, Lines(d.hot));
    } else {
      assert SegmentLines(d.segments, |d.segments|) + [] == SegmentLines(d.segments, |d.segments|);
    }
  }

  /** In a sound journal the hot file's own index, read at any moment, gives its messages. */
  lemma HotReadsRight(d: Disk)
    requires Sound(d)
    ensures Lines(HotRead(d).hot) == Lines(d.hot)
    ensures HistoryFits(Lines(d.hot)) ==>
      IndexRead(d.hot) == Expected(Lines(d.hot)) && LocateAll(IndexRead(d.hot), Lines(d.hot), 0)
  {
    hide Expected, HistoryFits, Decode, Encode, Exact, LocateAll;
    ExpectedLocate(Lines(d.hot));
    if HistoryFits(Lines(d.hot)) {
      FitsIsExact(Lines(d.hot));
      DecodeEncode(Expected(Lines(d.hot)));
      InStepIndexRead(d.hot);
    }
  }

  lemma InStepIndexRead(f: File)
    requires InStep(f) && Decode(Encode(Expected(Lines(f)))) == Expected(Lines(f))
    ensures IndexRead(f) == Expected(Lines(f))
  {
    RebuildIsInStep(f);
    if Current(f).index.None? {
      EmptyEncoding(Expected(Lines(f)));
    }
  }

  lemma EmptyEncoding(records: seq<Record>)
    ensures Encode(records) == [] ==> records == []
  {
  }

  /** In a sound journal a logical-index read keeps the history and lists its messages. */
  lemma LogicalReadIsRight(d: Disk)
    requires Sound(d)
    ensures Contiguous(d.segments)
    ensures Sound(Indexed(d)) && History(Indexed(d)) == History(d)
    ensures HistoryFits(History(d)) ==>
      Lists(LogicalIndex(d), History(d)) && ListsFiles(LogicalIndex(d), FilesOf(d), |d.segments|)
  {
    hide InStep, HistoryFits, Lists, ListsFiles, FilesOf, LogicalIndex, History, Indexed, Contiguous;
    IndexingKeepsSound(d);
    if HistoryFits(History(d)) {
      LogicalIndexIsRight(d);
    }
  }
}
