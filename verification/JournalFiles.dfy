/**
 One journal file with its index: what appending, rebuilding and reading do to it.

 A line is its bytes and, if it records a message, the message's id.  `version` stands for the
 file's stat fingerprint, which every write changes; `meta` is the fingerprint last stamped
 beside the index.
 */
module JournalFiles {
  import opened Journal
  import opened IndexRecords

  datatype Line = Line(raw: seq<Byte>, message: Option<seq<Byte>>)

  datatype File = File(
    lines: Option<seq<Line>>,
    version: nat,
    index: Option<seq<Byte>>,
    meta: Option<nat>)

  function Lines(f: File): seq<Line> {
    if f.lines.Some? then f.lines.value else []
  }

  function IndexBytes(f: File): seq<Byte> {
    if f.index.Some? then f.index.value else []
  }

  function Size(lines: seq<Line>): nat {
    if lines == [] then 0 else Size(lines[..|lines| - 1]) + |lines[|lines| - 1].raw|
  }

  /** The index records of lines that start at line number `line` and byte `pos`. */
  function RecordsFrom(lines: seq<Line>, line: nat, pos: nat): seq<Record> {
    if lines == [] then []
    else
      var rest := lines[..|lines| - 1];
      var last := lines[|lines| - 1];
      RecordsFrom(rest, line, pos) +
        if last.message.Some? then [Record(line + |rest|, pos + Size(rest), last.message.value)] else []
  }

  /** What an index of these lines has to hold. */
  function Expected(lines: seq<Line>): seq<Record> {
    RecordsFrom(lines, 0, 0)
  }

  lemma {:induction false} SizeAppend(a: seq<Line>, b: seq<Line>)
    ensures Size(a + b) == Size(a) + Size(b)
  {
    if b == [] {
      assert a + b == a;
    } else {
      assert (a + b)[..|a + b| - 1] == a + b[..|b| - 1];
      SizeAppend(a, b[..|b| - 1]);
    }
  }

  lemma {:induction false} RecordsAppend(a: seq<Line>, b: seq<Line>, line: nat, pos: nat)
    ensures RecordsFrom(a + b, line, pos) == RecordsFrom(a, line, pos) + RecordsFrom(b, line + |a|, pos + Size(a))
  {
    if b == [] {
      assert a + b == a;
    } else {
      assert (a + b)[..|a + b| - 1] == a + b[..|b| - 1];
      RecordsAppend(a, b[..|b| - 1], line, pos);
      SizeAppend(a, b[..|b| - 1]);
    }
  }

  // ----- Where records point

  /** What the file holds: its lines' bytes one after the other. */
  function Bytes(lines: seq<Line>): seq<Byte> {
    if lines == [] then [] else Bytes(lines[..|lines| - 1]) + lines[|lines| - 1].raw
  }

  /** A record of a message line: its number, the place in the file where it begins, and its id. */
  predicate Locates(record: Record, lines: seq<Line>) {
    && record.line < |lines|
    && lines[record.line].message == Some(record.id)
    && record.offset == |Bytes(lines[..record.line])|
    && var end := record.offset + |lines[record.line].raw|;
       end <= |Bytes(lines)| && Bytes(lines)[record.offset..end] == lines[record.line].raw
  }

  /** One record for each message line from line `from` on, in order. */
  ghost predicate LocateAll(records: seq<Record>, lines: seq<Line>, from: nat) {
    && (forall j :: 0 <= j < |records| ==> from <= records[j].line && Locates(records[j], lines))
    && (forall j, k :: 0 <= j < k < |records| ==> records[j].line < records[k].line)
    && (forall i :: from <= i < |lines| && lines[i].message.Some? ==> RecordFor(records, i))
  }

  ghost predicate RecordFor(records: seq<Record>, i: nat) {
    exists j :: 0 <= j < |records| && records[j].line == i
  }

  lemma BytesSnoc(lines: seq<Line>, line: Line)
    ensures Bytes(lines + [line]) == Bytes(lines) + line.raw
  {
    assert (lines + [line])[..|lines|] == lines;
  }

  lemma {:induction false} BytesSize(lines: seq<Line>)
    ensures |Bytes(lines)| == Size(lines)
  {
    if lines != [] {
      BytesSize(lines[..|lines| - 1]);
    }
  }

  /** A record still locates its line after another line. */
  lemma LocatesMore(record: Record, lines: seq<Line>, line: Line)
    requires Locates(record, lines)
    ensures Locates(record, lines + [line])
  {
    hide Bytes;
    BytesSnoc(lines, line);
    var more := lines + [line];
    assert more[..record.line] == lines[..record.line] && more[record.line] == lines[record.line];
  }

  lemma LocatesLast(lines: seq<Line>, line: Line)
    requires line.message.Some?
    ensures Locates(Record(|lines|, Size(lines), line.message.value), lines + [line])
  {
    hide Bytes, Size, Locates;
    BytesSize(lines);
    BytesSnoc(lines, line);
    LocatesAt(lines + [line], |lines|, lines, line);
  }

  lemma LocatesAt(whole: seq<Line>, n: nat, before: seq<Line>, line: Line)
    requires whole == before + [line] && n == |before| && line.message.Some?
    requires Bytes(whole) == Bytes(before) + line.raw
    ensures Locates(Record(n, |Bytes(before)|, line.message.value), whole)
  {
    hide Bytes;
    assert whole[..n] == before && whole[n] == line;
    Tail(Bytes(before), line.raw);
  }

  lemma Tail(a: seq<Byte>, b: seq<Byte>)
    ensures (a + b)[|a|..|a| + |b|] == b
  {
  }

  /** The records of lines that follow others locate them in the whole file. */
  lemma {:induction false} RecordsLocate(before: seq<Line>, lines: seq<Line>)
    ensures LocateAll(RecordsFrom(lines, |before|, Size(before)), before + lines, |before|)
  {
    hide Locates, Size;
    if lines == [] {
      assert before + lines == before;
    } else {
      var rest, last := lines[..|lines| - 1], lines[|lines| - 1];
      RecordsLocate(before, rest);
      SizeAppend(before, rest);
      var records := RecordsFrom(rest, |before|, Size(before));
      assert before + lines == (before + rest) + [last];
      LocateNext(records, before + rest, |before|, last);
    }
  }

  lemma LocateNext(records: seq<Record>, lines: seq<Line>, from: nat, line: Line)
    requires LocateAll(records, lines, from) && from <= |lines|
    ensures LocateAll(
      records + if line.message.Some? then [Record(|lines|, Size(lines), line.message.value)] else [],
      lines + [line],
      from)
  {
    hide Locates, Size;
    var more := records + if line.message.Some? then [Record(|lines|, Size(lines), line.message.value)] else [];
    var longer := lines + [line];
    forall j | 0 <= j < |more| ensures from <= more[j].line && Locates(more[j], longer) {
      if j < |records| {
        LocatesMore(records[j], lines, line);
      } else {
        LocatesLast(lines, line);
      }
    }
    LinesLogged(records, lines, from);
    forall i | from <= i < |longer| && longer[i].message.Some? ensures RecordFor(more, i) {
      if i < |lines| {
        assert lines[i] == longer[i] && RecordFor(records, i);
        var j :| 0 <= j < |records| && records[j].line == i;
        assert more[j].line == i;
      } else {
        assert more[|records|].line == i;
      }
    }
  }

  lemma LinesLogged(records: seq<Record>, lines: seq<Line>, from: nat)
    requires LocateAll(records, lines, from)
    ensures forall j :: 0 <= j < |records| ==> records[j].line < |lines|
  {
    hide Bytes;
  }

  /** The records of all lines of a file. */
  lemma ExpectedLocate(lines: seq<Line>)
    ensures LocateAll(Expected(lines), lines, 0)
  {
    hide RecordsFrom, LocateAll;
    assert [] + lines == lines;
    assert Size([]) == 0;
    RecordsLocate([], lines);
  }

  /** Nothing else locates all message lines. */
  lemma {:induction false} LocateUnique(a: seq<Record>, b: seq<Record>, lines: seq<Line>, from: nat)
    requires LocateAll(a, lines, from) && LocateAll(b, lines, from)
    ensures a == b
  {
    hide Bytes;
    forall i | 0 <= i < |a| && i < |b| ensures a[i] == b[i] {
      SameRecord(a, b, lines, from, i);
    }
    NoLonger(a, b, lines, from);
    NoLonger(b, a, lines, from);
  }

  lemma {:induction false} SameRecord(a: seq<Record>, b: seq<Record>, lines: seq<Line>, from: nat, i: nat)
    requires LocateAll(a, lines, from) && LocateAll(b, lines, from) && i < |a| && i < |b|
    ensures a[i] == b[i]
    decreases i
  {
    hide LocateAll;
    forall k | 0 <= k < i ensures a[k] == b[k] {
      SameRecord(a, b, lines, from, k);
    }
    NotSkipped(a, b, lines, from, i);
    NotSkipped(b, a, lines, from, i);
    OneRecord(a, b, lines, from, i);
  }

  /** With the same records before it, a record is of no earlier line. */
  lemma NotSkipped(a: seq<Record>, b: seq<Record>, lines: seq<Line>, from: nat, i: nat)
    requires LocateAll(a, lines, from) && LocateAll(b, lines, from) && i < |a| && i < |b|
    requires forall k :: 0 <= k < i ==> a[k] == b[k]
    ensures b[i].line <= a[i].line
  {
    hide Bytes;
    assert Locates(a[i], lines);
    assert RecordFor(b, a[i].line);
    var j :| 0 <= j < |b| && b[j].line == a[i].line;
    assert j >= i;
  }

  lemma OneRecord(a: seq<Record>, b: seq<Record>, lines: seq<Line>, from: nat, i: nat)
    requires LocateAll(a, lines, from) && LocateAll(b, lines, from) && i < |a| && i < |b|
    requires a[i].line == b[i].line
    ensures a[i] == b[i]
  {
    hide Bytes;
    assert Locates(a[i], lines) && Locates(b[i], lines);
  }

  lemma NoLonger(a: seq<Record>, b: seq<Record>, lines: seq<Line>, from: nat)
    requires LocateAll(a, lines, from) && LocateAll(b, lines, from)
    ensures |a| <= |b|
  {
    hide Bytes;
    if |a| > |b| {
      var n := |b|;
      assert Locates(a[n], lines) && RecordFor(b, a[n].line);
      var j :| 0 <= j < |b| && b[j].line == a[n].line;
      SameRecord(a, b, lines, from, j);
    }
  }

  // ----- The operations on one file

  /** Rebuilding: the index of the current lines, no index file for no messages, stamped. */
  function Rebuilt(f: File): File {
    if f.lines.None? then f.(index := None, meta := None)
    else
      var records := Expected(f.lines.value);
      f.(index := if records == [] then None else Some(Encode(records)), meta := Some(f.version))
  }

  /** An index whose stamp is out of date is rebuilt; an absent one is left absent. */
  function Current(f: File): File {
    if f.index.None? then f
    else if f.lines.None? then f.(index := None, meta := None)
    else if f.meta != Some(f.version) then Rebuilt(f)
    else f
  }

  function IndexRead(f: File): seq<Record> {
    var now := Current(f);
    if now.index.Some? then Decode(now.index.value) else []
  }

  /** Reading as one source of the logical index: an absent index is rebuilt first. */
  function SourceIndexed(f: File): File {
    Current(if f.index.None? then Rebuilt(f) else f)
  }

  function SourceRead(f: File): seq<Record> {
    IndexRead(if f.index.None? then Rebuilt(f) else f)
  }

  /** Writing messages extends the index from the current line count and size, and stamps it. */
  function Written(f: File, batch: seq<Line>, stamp: nat): File {
    if batch == [] then f
    else
      var records := RecordsFrom(batch, |Lines(f)|, Size(Lines(f)));
      var grown := f.(lines := Some(Lines(f) + batch), version := stamp);
      if records == [] then grown
      else grown.(index := Some(IndexBytes(f) + Encode(records)), meta := Some(stamp))
  }

  /** Appending other records leaves the index alone. */
  function Appended(f: File, batch: seq<Line>, stamp: nat): File {
    if batch == [] then f else f.(lines := Some(Lines(f) + batch), version := stamp)
  }

  predicate AllMessages(batch: seq<Line>) {
    forall l :: l in batch ==> l.message.Some?
  }

  predicate NoMessages(batch: seq<Line>) {
    forall l :: l in batch ==> l.message.None?
  }

  // ----- The operations as they are performed

  lemma EncodeSnoc(records: seq<Record>, i: nat)
    requires i < |records|
    ensures Encode(records[..i + 1]) == Encode(records[..i]) + Pack(records[i])
  {
    assert records[..i + 1][..i] == records[..i];
  }

  method AppendIndexRecords(file: Option<seq<Byte>>, records: seq<Record>) returns (grown: seq<Byte>)
    ensures grown == (if file.Some? then file.value else []) + Encode(records)
  {
    hide Pack, Encode;
    assert Encode(records[..0]) == [] by {
      EncodeNone();
    }
    grown := if file.Some? then file.value else [];
    ghost var before := grown;
    for i := 0 to |records|
      invariant grown == before + Encode(records[..i])
    {
      grown := grown + Pack(records[i]);
      EncodeSnoc(records, i);
      assert grown == before + (Encode(records[..i]) + Pack(records[i]));
    }
    assert records[..|records|] == records;
  }

  /** A stamped index of exactly the message lines, or no index file if there are none. */
  ghost predicate Indexes(f: File) {
    && f.lines.Some?
    && f.meta == Some(f.version)
    && exists records :: LocateAll(records, f.lines.value, 0) && Holds(f, records)
  }

  ghost predicate Holds(f: File, records: seq<Record>) {
    if records == [] then f.index.None? else f.index == Some(Encode(records))
  }

  lemma RebuiltIndexes(f: File)
    requires f.lines.Some?
    ensures Indexes(Rebuilt(f)) && Rebuilt(f).lines == f.lines && Rebuilt(f).version == f.version
  {
    hide Encode, RecordsFrom, LocateAll;
    ExpectedLocate(f.lines.value);
    assert Holds(Rebuilt(f), Expected(f.lines.value));
  }

  /** The index of the file as it is: each record points to where its message's line begins. */
  method RebuildIndex(f: File) returns (f': File)
    ensures f' == Rebuilt(f)
    ensures f'.lines == f.lines && f'.version == f.version
    ensures if f.lines.None? then f'.index.None? && f'.meta.None? else Indexes(f')
  {
    hide Indexes;
    if f.lines.Some? {
      RebuiltIndexes(f);
    }
    if f.lines.None? {
      return f.(index := None, meta := None);
    }
    var lines := f.lines.value;
    var records: seq<Record> := [];
    var lineNumber, byteOffset := 0, 0;
    while lineNumber < |lines|
      invariant lineNumber <= |lines| && byteOffset == Size(lines[..lineNumber])
      invariant records == Expected(lines[..lineNumber])
    {
      var raw := lines[lineNumber];
      assert lines[..lineNumber + 1][..lineNumber] == lines[..lineNumber];
      if raw.message.Some? {
        records := records + [Record(lineNumber, byteOffset, raw.message.value)];
      }
      byteOffset := byteOffset + |raw.raw|;
      lineNumber := lineNumber + 1;
    }
    assert lines[..|lines|] == lines;
    f' := f.(index := None, meta := None);
    if records != [] {
      var index := AppendIndexRecords(f'.index, records);
      assert [] + Encode(records) == Encode(records);
      f' := f'.(index := Some(index));
    }
    f' := f'.(meta := Some(f.version));
  }

  /** A rebuilt index is current: it is not rebuilt again. */
  lemma RebuiltIsCurrent(f: File)
    ensures Current(Rebuilt(f)) == Rebuilt(f) && SourceIndexed(SourceIndexed(f)).index == SourceIndexed(f).index
  {
    hide Encode, RecordsFrom;
  }

  method EnsureCurrentIndex(f: File) returns (f': File)
    ensures f' == Current(f)
    ensures f.index.None? || (f.lines.Some? && f.meta == Some(f.version)) ==> f' == f
    ensures f.index.Some? && f.lines.None? ==> f'.index.None? && f'.meta.None? && f'.lines.None?
    ensures f.index.Some? && f.lines.Some? && f.meta != Some(f.version) ==> f'.lines == f.lines && Indexes(f')
  {
    hide Indexes;
    if f.index.None? {
      return f;
    }
    if f.lines.None? {
      return f.(index := None, meta := None);
    }
    f' := f;
    if f.meta != Some(f.version) {
      f' := RebuildIndex(f);
    }
  }

  method ReadIndex(f: File) returns (f': File, records: seq<Record>)
    ensures f' == Current(f) && records == IndexRead(f)
    ensures |records| == |IndexBytes(f')| / 44
    ensures forall n :: 0 <= n < |records| ==>
      44 * n + 44 <= |IndexBytes(f')| && records[n] == Unpack(IndexBytes(f')[44 * n..44 * n + 44])
  {
    hide Unpack, Current;
    f' := EnsureCurrentIndex(f);
    records := [];
    if f'.index.None? {
      return;
    }
    var file := f'.index.value;
    var count := |file| / RECORD_SIZE;
    for i := 0 to count
      invariant records == Decode(file)[..i]
    {
      records := records + [Unpack(RecordAt(file, i))];
    }
  }

  method SeekIndexByPosition(f: File, n: nat) returns (f': File, record: Option<Record>)
    ensures f' == Current(f)
    ensures record == if n < |IndexRead(f)| then Some(IndexRead(f)[n]) else None
  {
    f' := EnsureCurrentIndex(f);
    if f'.index.None? {
      return f', None;
    }
    var file := f'.index.value;
    if RECORD_SIZE * n + RECORD_SIZE <= |file| {
      assert n < |file| / RECORD_SIZE;
      record := Some(Unpack(RecordAt(file, n)));
    } else {
      assert n >= |file| / RECORD_SIZE;
      record := None;
    }
  }

  /** The n-th slot of an index file is there and holds the padded id. */
  predicate Stores(file: seq<Byte>, n: nat, id: seq<Byte>) {
    RECORD_SIZE * (n + 1) <= |file| && RecordAt(file, n)[12..] == PadId(id)
  }

  /** The first record stored under an id: its position and contents. */
  method FindIndexById(f: File, id: seq<Byte>) returns (f': File, found: Option<(nat, Record)>)
    ensures f' == Current(f)
    ensures found.Some? ==>
      && found.value.0 < |IndexRead(f)|
      && IndexRead(f)[found.value.0] == found.value.1
      && f'.index.Some? && Stores(f'.index.value, found.value.0, id)
      && forall n: nat :: n < found.value.0 ==> !Stores(f'.index.value, n, id)
    ensures found.None? && f'.index.Some? ==> forall n: nat :: !Stores(f'.index.value, n, id)
  {
    hide Decode, Unpack, PadId, Current;
    f' := EnsureCurrentIndex(f);
    if f'.index.None? {
      return f', None;
    }
    var file := f'.index.value;
    var pos := 0;
    while RECORD_SIZE * (pos + 1) <= |file|
      invariant forall n: nat :: n < pos ==> !Stores(file, n, id)
      decreases |file| - RECORD_SIZE * pos
    {
      if RecordAt(file, pos)[12..] == PadId(id) {
        WholeRecord(file, pos);
        return f', Some((pos, Unpack(RecordAt(file, pos))));
      }
      pos := pos + 1;
    }
    assert forall n: nat :: Stores(file, n, id) ==> n < pos;
    found := None;
  }

  lemma WholeRecord(file: seq<Byte>, n: nat)
    requires RECORD_SIZE * (n + 1) <= |file|
    ensures n < |Decode(file)| && Decode(file)[n] == Unpack(RecordAt(file, n))
  {
  }

  lemma WrittenRecords(f: File, batch: seq<Line>, stamp: nat)
    requires AllMessages(batch)
    ensures var f', records := Written(f, batch, stamp), RecordsFrom(batch, |Lines(f)|, Size(Lines(f)));
      batch != [] ==>
        && f'.lines == Some(Lines(f) + batch) && f'.version == stamp && f'.meta == Some(stamp)
        && LocateAll(records, Lines(f) + batch, |Lines(f)|) && f'.index == Some(IndexBytes(f) + Encode(records))
  {
    hide RecordsFrom, LocateAll, Encode, Size;
    RecordsLocate(Lines(f), batch);
    if batch != [] {
      SomeRecords(batch, |Lines(f)|, Size(Lines(f)));
    }
  }

  /** One message write: the records are computed before the lines go out. */
  method WriteMessageLines(f: File, batch: seq<Line>, stamp: nat) returns (f': File)
    requires AllMessages(batch)
    ensures f' == Written(f, batch, stamp)
    ensures batch != [] ==>
      && f'.lines == Some(Lines(f) + batch) && f'.version == stamp && f'.meta == Some(stamp)
      && exists records ::
        (LocateAll(records, Lines(f) + batch, |Lines(f)|) && f'.index == Some(IndexBytes(f) + Encode(records)))
  {
    hide RecordsFrom, LocateAll, Encode, Size;
    WrittenRecords(f, batch, stamp);
    if batch == [] {
      return f;
    }
    var records := BatchRecords(f, batch);
    f' := f.(lines := Some(Lines(f) + batch), version := stamp);
    if records != [] {
      var index := AppendIndexRecords(f'.index, records);
      f' := f'.(index := Some(index), meta := Some(stamp));
    }
  }

  /** The records of a batch, from the line count and the size before it. */
  method BatchRecords(f: File, batch: seq<Line>) returns (records: seq<Record>)
    requires AllMessages(batch)
    ensures records == RecordsFrom(batch, |Lines(f)|, Size(Lines(f)))
    ensures LocateAll(records, Lines(f) + batch, |Lines(f)|)
  {
    hide LocateAll;
    RecordsLocate(Lines(f), batch);
    var pos := Size(Lines(f));
    records := [];
    for i := 0 to |batch|
      invariant pos == Size(Lines(f)) + Size(batch[..i])
      invariant records == RecordsFrom(batch[..i], |Lines(f)|, Size(Lines(f)))
    {
      assert batch[..i + 1][..i] == batch[..i];
      assert batch[i] in batch;
      records := records + [Record(|Lines(f)| + i, pos, batch[i].message.value)];
      pos := pos + |batch[i].raw|;
    }
    assert batch[..|batch|] == batch;
  }

  // ----- When an index is right

  /** The stored index, or the empty one if there is none, is that of the lines. */
  predicate InStep(f: File) {
    IndexBytes(f) == Encode(Expected(Lines(f)))
  }

  /** Being in step is having stored exactly the records that locate the message lines. */
  lemma InStepLocates(f: File)
    ensures InStep(f) <==> exists records :: LocateAll(records, Lines(f), 0) && IndexBytes(f) == Encode(records)
  {
    hide Encode, RecordsFrom, LocateAll;
    var lines := Lines(f);
    ExpectedLocate(lines);
    forall records | LocateAll(records, lines, 0) ensures records == Expected(lines) {
      LocateUnique(records, Expected(lines), lines, 0);
    }
  }

  /** Being in step is having stored what a rebuild would store. */
  lemma InStepIsRebuilt(f: File)
    ensures InStep(f) <==> IndexBytes(f) == IndexBytes(Rebuilt(f))
  {
  }

  lemma RebuildIsInStep(f: File)
    ensures InStep(Rebuilt(f)) && (InStep(f) ==> InStep(Current(f)) && InStep(SourceIndexed(f)))
  {
  }

  lemma Cancel(a: seq<Byte>, b: seq<Byte>, more: seq<Byte>)
    ensures a + more == b + more <==> a == b
  {
    if a + more == b + more {
      assert |a| == |b|;
      assert a == (a + more)[..|a|] && b == (b + more)[..|b|];
    }
  }

  lemma ExpectedAppend(a: seq<Line>, b: seq<Line>)
    ensures Encode(Expected(a + b)) == Encode(Expected(a)) + Encode(RecordsFrom(b, |a|, Size(a)))
  {
    hide Encode, RecordsFrom, Size;
    RecordsAppend(a, b, 0, 0);
    EncodeAppend(Expected(a), RecordsFrom(b, |a|, Size(a)));
  }

  /** A message write keeps the index in step exactly when it was in step before. */
  lemma WriteKeepsStep(f: File, batch: seq<Line>, stamp: nat)
    ensures InStep(Written(f, batch, stamp)) <==> InStep(f)
  {
    hide Expected, RecordsFrom, Encode, Size;
    ExpectedAppend(Lines(f), batch);
    var records := RecordsFrom(batch, |Lines(f)|, Size(Lines(f)));
    Cancel(IndexBytes(f), Encode(Expected(Lines(f))), Encode(records));
    if records == [] {
      assert Encode(Expected(Lines(f))) + Encode(records) == Encode(Expected(Lines(f)));
    }
  }

  /** Other records have no index entries. */
  lemma AppendKeepsStep(f: File, batch: seq<Line>, stamp: nat)
    requires NoMessages(batch)
    ensures InStep(Appended(f, batch, stamp)) <==> InStep(f)
  {
    hide Expected, RecordsFrom, Encode, Size;
    ExpectedAppend(Lines(f), batch);
    NoRecords(batch, |Lines(f)|, Size(Lines(f)));
    assert Encode(Expected(Lines(f))) + Encode([]) == Encode(Expected(Lines(f)));
  }

  lemma {:induction false} NoRecords(batch: seq<Line>, line: nat, pos: nat)
    requires NoMessages(batch)
    ensures RecordsFrom(batch, line, pos) == []
  {
    if batch != [] {
      assert batch[|batch| - 1] in batch;
      NoRecords(batch[..|batch| - 1], line, pos);
    }
  }

  /** An index file of whole records reads as the lines' records exactly when it is in step. */
  lemma InStepReads(f: File)
    requires f.index.Some? && |f.index.value| % RECORD_SIZE == 0 && Exact(Expected(Lines(f)))
    ensures InStep(f) <==> Decode(f.index.value) == Expected(Lines(f))
  {
    hide Decode, Encode, Expected;
    DecodeEncode(Expected(Lines(f)));
    EncodeDecode(f.index.value);
  }

  /** An index that is absent, known to be out of date, or in step. */
  predicate Safe(f: File) {
    f.index.None? || f.meta != Some(f.version) || InStep(f)
  }

  /** A source of the logical index with a safe index reads right, whatever is in a stale index. */
  lemma SafeReadsRight(f: File)
    requires f.lines.Some? && Exact(Expected(f.lines.value)) && Safe(f)
    ensures SourceRead(f) == Expected(f.lines.value)
  {
    hide Decode, Encode, Expected;
    DecodeEncode(Expected(f.lines.value));
  }

  /** A source of the logical index reads right exactly when its index is safe. */
  lemma SourceReadsRight(f: File)
    requires f.lines.Some? && Exact(Expected(f.lines.value))
    requires f.index.Some? ==> |f.index.value| % RECORD_SIZE == 0
    ensures SourceRead(f) == Expected(f.lines.value) <==> Safe(f)
  {
    hide Decode, Encode, Expected;
    DecodeEncode(Expected(f.lines.value));
    if f.index.Some? {
      InStepReads(f);
    }
  }

  /** After a message write the index reads right exactly when it was in step before the write. */
  lemma WriteReadsRight(f: File, batch: seq<Line>, stamp: nat)
    requires batch != [] && AllMessages(batch) && Exact(Expected(Lines(f) + batch))
    requires f.index.Some? ==> |f.index.value| % RECORD_SIZE == 0
    ensures SourceRead(Written(f, batch, stamp)) == Expected(Lines(f) + batch) <==> InStep(f)
  {
    hide Decode, Expected, RecordsFrom, IndexRead, SourceRead, InStep, Encode;
    var f' := Written(f, batch, stamp);
    SomeRecords(batch, |Lines(f)|, Size(Lines(f)));
    WriteKeepsStep(f, batch, stamp);
    SourceReadsRight(f');
  }

  lemma SomeRecords(batch: seq<Line>, line: nat, pos: nat)
    requires batch != [] && AllMessages(batch)
    ensures RecordsFrom(batch, line, pos) != []
  {
    assert batch[|batch| - 1] in batch;
  }

  /** A seal that stops after dropping the hot index, followed by a message write, leaves an index
      that reads wrong whenever the file held a message. */
  lemma InterruptedSealThenWrite(f: File, batch: seq<Line>, stamp: nat)
    requires batch != [] && AllMessages(batch) && Exact(Expected(Lines(f) + batch))
    requires Expected(Lines(f)) != []
    ensures SourceRead(Written(f.(index := None), batch, stamp)) != Expected(Lines(f) + batch)
  {
    hide Decode, RecordsFrom, IndexRead, SourceRead, Encode;
    WriteReadsRight(f.(index := None), batch, stamp);
    assert |Encode(Expected(Lines(f)))| > 0;
  }
}
