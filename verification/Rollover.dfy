/**
 Appenders and seals as interleaved steps of many threads under the journal lock, any of which
 may be interrupted between two steps.

 An interruption leaves the disk as it is and frees the lock.  Index readers run while no
 writer holds the lock.
 */
module Rollover {
  import opened Journal
  import opened IndexRecords
  import opened JournalFiles
  import opened JournalDisk

  type Thread = nat

  /** What the lock holder does next. */
  datatype Step =
    | WriteData(batch: seq<Line>)
    | WriteIndex(records: seq<Record>)
    | StampIndex
    | AppendData(batch: seq<Line>)
    | CheckSize(limit: nat)
    | DropIndex
    | DropMeta
    | Replace
    | Touch
    | IndexTarget
    | StampTarget
    | Release

  /** `holder` is the thread inside the lock and its next step; `log` is every batch that reached
      the disk, in lock order; `unread` says an interruption has not been followed by a reading
      of the logical index. */
  datatype System = System(disk: Disk, holder: Option<(Thread, Step)>, log: seq<Line>, unread: bool)

  const START := System(EMPTY_DISK, None, [], false)

  datatype Action =
    | BeginWrite(t: Thread, batch: seq<Line>)
    | BeginAppend(t: Thread, batch: seq<Line>)
    | BeginSeal(t: Thread, limit: nat)
    | Advance(t: Thread)
    | Interrupt(t: Thread)
    | ReadHot
    | ReadIndex

  /** Threads wait for the lock; in a careful system a message write begins only while the hot
      index is in step. */
  ghost predicate Enabled(s: System, a: Action, careful: bool) {
    match a
    case BeginWrite(t, batch) => s.holder.None? && batch != [] && AllMessages(batch) && (careful ==> InStep(s.disk.hot))
    case BeginAppend(t, batch) => s.holder.None? && batch != [] && NoMessages(batch)
    case BeginSeal(t, limit) => s.holder.None?
    case Advance(t) => s.holder.Some? && s.holder.value.0 == t
    case Interrupt(t) => s.holder.Some? && s.holder.value.0 == t
    case ReadHot => s.holder.None?
    case ReadIndex => s.holder.None?
  }

  /** The segment a seal is filling. */
  function Target(d: Disk): nat {
    |d.segments|
  }

  function Reindexed(f: File): File {
    f.(index := Rebuilt(f).index)
  }

  function Restamped(f: File): File {
    f.(meta := Some(f.version))
  }

  function WithTarget(d: Disk, change: File -> File): map<nat, File> {
    if Target(d) in d.segments then d.segments[Target(d) := change(d.segments[Target(d)])] else d.segments
  }

  ghost function Advanced(s: System, t: Thread, step: Step): System {
    var d := s.disk;
    match step
    case WriteData(batch) =>
      s.(disk := d.(hot := d.hot.(lines := Some(Lines(d.hot) + batch), version := d.clock), clock := d.clock + 1),
         log := s.log + batch,
         holder := Some((t, WriteIndex(RecordsFrom(batch, |Lines(d.hot)|, Size(Lines(d.hot)))))))
    case WriteIndex(records) =>
      s.(disk := d.(hot := d.hot.(index := Some(IndexBytes(d.hot) + Encode(records)))), holder := Some((t, StampIndex)))
    case StampIndex =>
      s.(disk := d.(hot := d.hot.(meta := Some(d.hot.version))), holder := Some((t, Release)))
    case AppendData(batch) =>
      s.(disk := d.(hot := d.hot.(lines := Some(Lines(d.hot) + batch), version := d.clock), clock := d.clock + 1),
         log := s.log + batch,
         holder := Some((t, Release)))
    case CheckSize(limit) =>
      var staying := d.hot.lines.None? || Size(d.hot.lines.value) <= limit || !Contiguous(d.segments);
      s.(holder := Some((t, if staying then Release else DropIndex)))
    case DropIndex => s.(disk := d.(hot := d.hot.(index := None)), holder := Some((t, DropMeta)))
    case DropMeta => s.(disk := d.(hot := d.hot.(meta := None)), holder := Some((t, Replace)))
    case Replace =>
      s.(disk := d.(
           hot := d.hot.(lines := None),
           segments := d.segments[|d.segments| + 1 := File(d.hot.lines, d.hot.version, None, None)]),
         holder := Some((t, Touch)))
    case Touch =>
      s.(disk := d.(hot := d.hot.(lines := Some([]), version := d.clock), clock := d.clock + 1),
         holder := Some((t, IndexTarget)))
    case IndexTarget =>
      s.(disk := d.(segments := WithTarget(d, Reindexed)), holder := Some((t, StampTarget)))
    case StampTarget =>
      s.(disk := d.(segments := WithTarget(d, Restamped)), holder := Some((t, Release)))
    case Release => s.(holder := None)
  }

  ghost function Act(s: System, a: Action): System
    requires Enabled(s, a, false)
  {
    match a
    case BeginWrite(t, batch) => s.(holder := Some((t, WriteData(batch))))
    case BeginAppend(t, batch) => s.(holder := Some((t, AppendData(batch))))
    case BeginSeal(t, limit) => s.(holder := Some((t, CheckSize(limit))))
    case Advance(t) => Advanced(s, t, s.holder.value.1)
    case Interrupt(t) => s.(holder := None, unread := true)
    case ReadHot => s.(disk := HotRead(s.disk))
    case ReadIndex => s.(disk := Indexed(s.disk), unread := false)
  }

  // ----- The history invariant

  /** What the lock holder's next step relies on. */
  ghost predicate StepReady(d: Disk, step: Step) {
    match step
    case WriteData(batch) => batch != [] && AllMessages(batch)
    case AppendData(batch) => NoMessages(batch)
    case WriteIndex(_) => d.hot.lines.Some?
    case DropIndex => d.hot.lines.Some?
    case DropMeta => d.hot.lines.Some? && d.hot.index.None?
    case Replace => d.hot.lines.Some? && d.hot.index.None? && d.hot.meta.None?
    case Touch => d.hot.lines.None? && Target(d) in d.segments && d.segments[Target(d)].meta.None?
    case IndexTarget => Target(d) in d.segments && d.segments[Target(d)].meta.None?
    case StampTarget => Target(d) in d.segments && d.segments[Target(d)].meta.None? && InStep(d.segments[Target(d)])
    case _ => true
  }

  /** Nothing is lost: ordinals have no gap, and the segments in order followed by the hot file
      are the logged batches in lock order. */
  ghost predicate Kept(s: System) {
    && Contiguous(s.disk.segments)
    && History(s.disk) == s.log
    && (forall i :: i in s.disk.segments ==> s.disk.segments[i].lines.Some?)
    && (s.disk.hot.lines.None? ==> s.disk.hot.index.None?)
    && (s.holder.Some? ==> StepReady(s.disk, s.holder.value.1))
  }

  /** Steps that touch no line of the journal. */
  predicate IndexOnly(step: Step) {
    !step.WriteData? && !step.AppendData? && !step.Replace?
  }

  lemma TargetStepKeeps(s: System, t: Thread)
    requires Kept(s) && s.holder.Some? && s.holder.value.0 == t
    requires s.holder.value.1.IndexTarget? || s.holder.value.1.StampTarget?
    ensures Kept(Advanced(s, t, s.holder.value.1))
  {
    hide InStep, Rebuilt, History, Contiguous, WithTarget, Reindexed, Restamped;
    TargetKeepsHistory(s.disk, Reindexed);
    TargetKeepsHistory(s.disk, Restamped);
    TargetInStep(s.disk.segments[Target(s.disk)]);
  }

  /** Indexing or stamping the new segment keeps the history. */
  lemma TargetKeepsHistory(d: Disk, change: File -> File)
    requires change == Reindexed || change == Restamped
    requires Contiguous(d.segments) && Target(d) in d.segments
    requires forall i :: i in d.segments ==> d.segments[i].lines.Some?
    ensures var d' := d.(segments := WithTarget(d, change));
      && Contiguous(d'.segments) && History(d') == History(d)
      && Target(d') == Target(d) && Target(d) in d'.segments
      && d'.segments[Target(d)] == change(d.segments[Target(d)])
      && forall i :: i in d'.segments ==> d'.segments[i].lines.Some?
  {
    hide Contiguous, History, Rebuilt;
    SameLinesSameHistory(d, d.(segments := WithTarget(d, change)));
  }

  lemma IndexOnlyKeeps(s: System, t: Thread)
    requires Kept(s) && s.holder.Some? && s.holder.value.0 == t && IndexOnly(s.holder.value.1)
    ensures Kept(Advanced(s, t, s.holder.value.1))
  {
    hide RecordsFrom, Size, Encode, InStep, Rebuilt, SegmentLines, Contiguous;
    if s.holder.value.1.IndexTarget? || s.holder.value.1.StampTarget? {
      TargetStepKeeps(s, t);
    }
  }

  lemma DataKeeps(s: System, t: Thread)
    requires Kept(s) && s.holder.Some? && s.holder.value.0 == t
    requires s.holder.value.1.WriteData? || s.holder.value.1.AppendData?
    ensures Kept(Advanced(s, t, s.holder.value.1))
  {
    hide RecordsFrom, Size, Encode, InStep, Rebuilt, SegmentLines, Contiguous;
    var d, d' := s.disk, Advanced(s, t, s.holder.value.1).disk;
    match s.holder.value.1 {
      case WriteData(batch) =>
        assert History(d') == History(d) + batch;
      case AppendData(batch) =>
        assert History(d') == History(d) + batch;
    }
  }

  lemma ReplaceKeeps(s: System, t: Thread)
    requires Kept(s) && s.holder.Some? && s.holder.value.0 == t && s.holder.value.1.Replace?
    ensures Kept(Advanced(s, t, s.holder.value.1))
  {
    hide RecordsFrom, Size, Encode, InStep, Rebuilt, SegmentLines, Contiguous, History;
    var d' := Advanced(s, t, s.holder.value.1).disk;
    SealKeepsHistory(s.disk, d'.segments[|s.disk.segments| + 1], d'.hot);
  }

  lemma AdvanceKeeps(s: System, t: Thread)
    requires Kept(s) && s.holder.Some? && s.holder.value.0 == t
    ensures Kept(Advanced(s, t, s.holder.value.1))
  {
    hide Kept, Advanced;
    match s.holder.value.1 {
      case WriteData(_) => DataKeeps(s, t);
      case AppendData(_) => DataKeeps(s, t);
      case Replace => ReplaceKeeps(s, t);
      case _ => IndexOnlyKeeps(s, t);
    }
  }

  lemma TargetInStep(f: File)
    requires f.lines.Some?
    ensures InStep(Reindexed(f)) && Rebuilt(f).lines == f.lines
    ensures Reindexed(f).meta == f.meta && (InStep(f) ==> InStep(Restamped(f)))
  {
  }

  lemma ActKeeps(s: System, a: Action)
    requires Kept(s) && Enabled(s, a, false)
    ensures Kept(Act(s, a))
  {
    hide SegmentLines, Indexed;
    match a {
      case Advance(t) => AdvanceKeeps(s, t);
      case ReadHot => SameLinesSameHistory(s.disk, HotRead(s.disk));
      case ReadIndex =>
        IndexingKeepsLines(s.disk);
        SameLinesSameHistory(s.disk, Indexed(s.disk));
      case _ =>
    }
  }

  /** A run: systems from the start, each reached from the one before by an enabled action. */
  ghost predicate IsRun(run: seq<System>, careful: bool) {
    && |run| > 0
    && run[0] == START
    && forall i :: 0 <= i < |run| - 1 ==> Follows(run[i], run[i + 1], careful)
  }

  ghost predicate Follows(s: System, s': System, careful: bool) {
    exists a :: Enabled(s, a, careful) && s' == Act(s, a)
  }

  /** Rollover loses nothing: after any interleaving of appends, seals and interruptions the
      logical history is the lock-order concatenation of the appended batches, and the ordinals
      are 1 to k. */
  lemma {:induction false} EveryInterleavingKeeps(run: seq<System>, careful: bool, n: nat)
    requires IsRun(run, careful) && n < |run|
    ensures Kept(run[n])
  {
    if n > 0 {
      EveryInterleavingKeeps(run, careful, n - 1);
      assert Follows(run[n - 1], run[n], careful);
      var a :| Enabled(run[n - 1], a, careful) && run[n] == Act(run[n - 1], a);
      ActKeeps(run[n - 1], a);
    }
  }

  // ----- The index invariant

  /** No stamp is from the future. */
  ghost predicate Dated(f: File, clock: nat) {
    f.version < clock && (f.meta.Some? ==> f.meta.value < clock)
  }

  /** Every index is absent, known to be out of date, or in step; and unless an operation is under
      way or was interrupted, the hot index is in step. */
  ghost predicate Readable(s: System) {
    var d := s.disk;
    && Dated(d.hot, d.clock)
    && Safe(d.hot)
    && (forall i :: i in d.segments ==> Dated(d.segments[i], d.clock) && Safe(d.segments[i]))
    && if s.holder.None? then s.unread || InStep(d.hot) else HotWhile(d, s.holder.value.1, s.unread)
  }

  /** The state of the hot index before each step. */
  ghost predicate HotWhile(d: Disk, step: Step, unread: bool) {
    match step
    case WriteData(_) => InStep(d.hot)
    case WriteIndex(records) =>
      && d.hot.meta != Some(d.hot.version)
      && IndexBytes(d.hot) + Encode(records) == Encode(Expected(Lines(d.hot)))
    case StampIndex => d.hot.meta != Some(d.hot.version) && InStep(d.hot)
    case DropMeta => true
    case Replace => true
    case _ => unread || InStep(d.hot)
  }

  lemma DataReads(s: System, t: Thread)
    requires Kept(s) && Readable(s) && s.holder.Some? && s.holder.value.0 == t
    requires s.holder.value.1.WriteData? || s.holder.value.1.AppendData?
    ensures Readable(Advanced(s, t, s.holder.value.1))
  {
    hide RecordsFrom, Size, Expected, History, Encode;
    var d := s.disk;
    match s.holder.value.1 {
      case WriteData(batch) =>
        ExpectedAppend(Lines(d.hot), batch);
      case AppendData(batch) =>
        ExpectedAppend(Lines(d.hot), batch);
        NoRecords(batch, |Lines(d.hot)|, Size(Lines(d.hot)));
        EncodeNone();
        assert Encode(Expected(Lines(d.hot))) + [] == Encode(Expected(Lines(d.hot)));
    }
  }

  lemma SealReads(s: System, t: Thread)
    requires Kept(s) && Readable(s) && s.holder.Some? && s.holder.value.0 == t
    requires s.holder.value.1.Replace? || s.holder.value.1.Touch?
    ensures Readable(Advanced(s, t, s.holder.value.1))
  {
    hide RecordsFrom, Size, Expected, History, Encode, Rebuilt, Contiguous;
    NothingExpected();
  }

  lemma OtherReads(s: System, t: Thread)
    requires Kept(s) && Readable(s) && s.holder.Some? && s.holder.value.0 == t
    requires var step := s.holder.value.1;
      || step.WriteIndex? || step.StampIndex? || step.CheckSize? || step.DropIndex? || step.DropMeta? || step.Release?
    ensures Readable(Advanced(s, t, s.holder.value.1))
  {
    hide RecordsFrom, Size, Expected, History, Encode, Rebuilt, Contiguous;
  }

  lemma AdvanceReads(s: System, t: Thread)
    requires Kept(s) && Readable(s) && s.holder.Some? && s.holder.value.0 == t
    ensures Readable(Advanced(s, t, s.holder.value.1))
  {
    hide Kept, Readable, Advanced;
    match s.holder.value.1 {
      case WriteData(_) => DataReads(s, t);
      case AppendData(_) => DataReads(s, t);
      case Replace => SealReads(s, t);
      case Touch => SealReads(s, t);
      case IndexTarget => TargetStepReads(s, t);
      case StampTarget => TargetStepReads(s, t);
      case _ => OtherReads(s, t);
    }
  }

  lemma TargetStepReads(s: System, t: Thread)
    requires Kept(s) && Readable(s) && s.holder.Some? && s.holder.value.0 == t
    requires s.holder.value.1.IndexTarget? || s.holder.value.1.StampTarget?
    ensures Readable(Advanced(s, t, s.holder.value.1))
  {
    hide RecordsFrom, Size, Expected, History, Encode, Rebuilt, Contiguous;
    TargetInStep(s.disk.segments[Target(s.disk)]);
  }

  lemma NothingExpected()
    ensures Encode(Expected([])) == []
  {
  }

  lemma ActReads(s: System, a: Action)
    requires Kept(s) && Readable(s) && Enabled(s, a, true)
    ensures Readable(Act(s, a))
  {
    hide InStep, SegmentLines, History, Rebuilt, SourceIndexed;
    match a {
      case Advance(t) => AdvanceReads(s, t);
      case ReadHot => HotIsInStep(s.disk.hot, s.disk.clock);
      case ReadIndex =>
        IndexedIsInStep(s.disk.hot, s.disk.clock);
        forall i | i in s.disk.segments
          ensures Dated(SourceIndexed(s.disk.segments[i]), s.disk.clock) && Safe(SourceIndexed(s.disk.segments[i]))
        {
          IndexedIsInStep(s.disk.segments[i], s.disk.clock);
        }
      case _ =>
    }
  }

  /** Reading the hot index keeps a safe one safe, and one in step in step. */
  lemma HotIsInStep(f: File, clock: nat)
    requires Dated(f, clock) && Safe(f)
    ensures Dated(Current(f), clock) && Safe(Current(f)) && (InStep(f) ==> InStep(Current(f)))
  {
    RebuildIsInStep(f);
  }

  /** Reading a source whose index is safe leaves it in step. */
  lemma IndexedIsInStep(f: File, clock: nat)
    requires Dated(f, clock) && Safe(f)
    ensures f.lines.Some? ==> InStep(SourceIndexed(f))
    ensures f.lines.None? && f.index.None? ==> InStep(f)
    ensures Dated(SourceIndexed(f), clock) && Safe(SourceIndexed(f))
  {
    NothingExpected();
  }

  /** Reading the logical index brings the hot index in step, so a run that reads between an
      interruption and the next message write is careful. */
  lemma ReadingRestores(s: System)
    requires Kept(s) && Readable(s) && s.holder.None?
    ensures InStep(Act(s, ReadIndex).disk.hot)
    ensures !s.unread ==> InStep(s.disk.hot)
  {
    hide InStep, SegmentLines, History, Rebuilt, SourceIndexed;
    IndexedIsInStep(s.disk.hot, s.disk.clock);
  }

  /** In every careful run, whatever is interleaved or interrupted, an immediate reading of the
      logical index lists exactly the logical history's messages. */
  lemma {:induction false} EveryCarefulRunReads(run: seq<System>, n: nat)
    requires IsRun(run, true) && n < |run|
    ensures Kept(run[n]) && Readable(run[n])
    ensures HistoryFits(run[n].log) ==>
      && Lists(LogicalIndex(run[n].disk), run[n].log)
      && ListsFiles(LogicalIndex(run[n].disk), FilesOf(run[n].disk), |run[n].disk.segments|)
  {
    hide Lists, ListsFiles, FilesOf, HistoryFits, LogicalIndex, History, Act, InStep;
    EveryInterleavingKeeps(run, true, n);
    if n > 0 {
      EveryCarefulRunReads(run, n - 1);
      assert Follows(run[n - 1], run[n], true);
      var a :| Enabled(run[n - 1], a, true) && run[n] == Act(run[n - 1], a);
      ActReads(run[n - 1], a);
    } else {
      StartReads();
    }
    if HistoryFits(run[n].log) {
      LogicalIndexIsRight(run[n].disk);
    }
  }

  lemma StartReads()
    ensures Readable(START)
  {
    NothingExpected();
  }

  // ----- Why care is needed

  /** `s` after the holder's next n steps. */
  ghost function Steps(s: System, n: nat): System {
    if n == 0 then s
    else
      var before := Steps(s, n - 1);
      if before.holder.None? then before else Advanced(before, before.holder.value.0, before.holder.value.1)
  }

  lemma StepsNext(s: System, n: nat)
    ensures Steps(s, 0) == s
    ensures Steps(s, n + 1) ==
      if Steps(s, n).holder.None? then Steps(s, n)
      else Advanced(Steps(s, n), Steps(s, n).holder.value.0, Steps(s, n).holder.value.1)
  {
    hide Advanced;
  }

  /** The holder still has steps to make after each of the first n. */
  ghost predicate Busy(s: System, n: nat) {
    forall k :: 0 <= k < n ==> Steps(s, k).holder.Some?
  }

  /** Begun and completed, a message write is the whole operation, and it leaves an index that reads
      right exactly when it began in step. */
  lemma CompletedWrite(s: System, t: Thread, batch: seq<Line>)
    requires s.holder.None? && batch != [] && AllMessages(batch)
    ensures var begun := Act(s, BeginWrite(t, batch));
      && Busy(begun, 4)
      && var done := Steps(begun, 4);
         && done.holder.None?
         && done.disk == MessagesWritten(s.disk, batch)
         && done.log == s.log + batch
         && (Safe(done.disk.hot) <==> InStep(s.disk.hot))
  {
    hide RecordsFrom, Encode, Size, Expected, Contiguous, InStep, Steps;
    var begun := Act(s, BeginWrite(t, batch));
    StepsNext(begun, 0);
    StepsNext(begun, 1);
    StepsNext(begun, 2);
    StepsNext(begun, 3);
    SomeRecords(batch, |Lines(s.disk.hot)|, Size(Lines(s.disk.hot)));
    WriteKeepsStep(s.disk.hot, batch, s.disk.clock);
  }

  /** Taking steps and then more steps. */
  lemma {:induction false} StepsCompose(s: System, m: nat, n: nat)
    ensures Steps(s, m + n) == Steps(Steps(s, m), n)
  {
    hide Advanced, Steps;
    StepsNext(Steps(s, m), 0);
    if n > 0 {
      StepsCompose(s, m, n - 1);
      StepsNext(s, m + n - 1);
      StepsNext(Steps(s, m), n - 1);
    }
  }

  /** The first half of a seal moves the hot file to the next ordinal. */
  lemma SealMoves(s: System, t: Thread, limit: nat)
    requires s.holder.None? && Contiguous(s.disk.segments)
    requires s.disk.hot.lines.Some? && Size(s.disk.hot.lines.value) > limit
    ensures var begun, f := Act(s, BeginSeal(t, limit)), File(s.disk.hot.lines, s.disk.hot.version, None, None);
      && Busy(begun, 4)
      && Steps(begun, 4) == System(
           Disk(f.(lines := None), s.disk.segments[|s.disk.segments| + 1 := f], s.disk.clock),
           Some((t, Touch)), s.log, s.unread)
  {
    hide Size, Contiguous, Steps, Rebuilt;
    var begun := Act(s, BeginSeal(t, limit));
    StepsNext(begun, 0);
    StepsNext(begun, 1);
    StepsNext(begun, 2);
    StepsNext(begun, 3);
  }

  lemma TouchStep(s: System, t: Thread)
    requires s.holder == Some((t, Touch))
    ensures Steps(s, 1) ==
      System(
        Disk(s.disk.hot.(lines := Some([]), version := s.disk.clock), s.disk.segments, s.disk.clock + 1),
        Some((t, IndexTarget)), s.log, s.unread)
  {
    hide Steps, Rebuilt, Reindexed, Restamped, Contiguous, Encode, RecordsFrom;
    StepsNext(s, 0);
  }

  lemma IndexStep(s: System, t: Thread, n: nat)
    requires s.holder == Some((t, IndexTarget)) && n == Target(s.disk) && n in s.disk.segments
    ensures Steps(s, 1) ==
      System(s.disk.(segments := s.disk.segments[n := Reindexed(s.disk.segments[n])]),
             Some((t, StampTarget)), s.log, s.unread)
  {
    hide Steps, Rebuilt, Reindexed, Restamped, Contiguous, Encode, RecordsFrom;
    StepsNext(s, 0);
  }

  lemma StampStep(s: System, t: Thread, n: nat)
    requires s.holder == Some((t, StampTarget)) && n == Target(s.disk) && n in s.disk.segments
    ensures Steps(s, 1).holder == Some((t, Release))
    ensures Steps(s, 2) ==
      System(s.disk.(segments := s.disk.segments[n := Restamped(s.disk.segments[n])]), None, s.log, s.unread)
  {
    hide Steps, Rebuilt, Reindexed, Restamped, Contiguous, Encode, RecordsFrom;
    StepsNext(s, 0);
    StepsNext(s, 1);
  }

  /** The second half makes a new hot file and indexes the new segment. */
  lemma SealIndexes(s: System, t: Thread)
    requires s.holder == Some((t, Touch)) && Target(s.disk) in s.disk.segments
    ensures var d, n := s.disk, Target(s.disk);
      && Busy(s, 4)
      && Steps(s, 4) == System(
           Disk(
             d.hot.(lines := Some([]), version := d.clock),
             d.segments[n := Restamped(Reindexed(d.segments[n]))],
             d.clock + 1),
           None, s.log, s.unread)
  {
    hide Steps, Advanced, Rebuilt, Reindexed, Restamped;
    var d, n := s.disk, Target(s.disk);
    TouchStep(s, t);
    var touched := Steps(s, 1);
    IndexStep(touched, t, n);
    StepsCompose(s, 1, 1);
    var indexed := Steps(touched, 1);
    assert indexed.disk.segments.Keys == d.segments.Keys;
    assert Target(indexed.disk) == n;
    StampStep(indexed, t, n);
    StepsCompose(s, 2, 1);
    StepsCompose(s, 2, 2);
    StepsNext(s, 0);
    var r := Reindexed(d.segments[n]);
    assert d.segments[n := r][n := Restamped(r)] == d.segments[n := Restamped(r)];
  }

  /** Begun and completed, a seal is the whole operation. */
  lemma CompletedSeal(s: System, t: Thread, limit: nat)
    requires s.holder.None? && Contiguous(s.disk.segments)
    requires s.disk.hot.lines.Some? && Size(s.disk.hot.lines.value) > limit
    ensures var begun := Act(s, BeginSeal(t, limit));
      && Busy(begun, 8)
      && var done := Steps(begun, 8);
         done.holder.None? && done.disk == Sealed(s.disk, limit) && done.log == s.log
  {
    hide Size, Contiguous, Steps, Advanced, Rebuilt;
    var begun, f := Act(s, BeginSeal(t, limit)), File(s.disk.hot.lines, s.disk.hot.version, None, None);
    SealMoves(s, t, limit);
    NextOrdinal(s.disk, f);
    var moved := Steps(begun, 4);
    SealIndexes(moved, t);
    forall k | 4 <= k <= 8 ensures Steps(begun, k) == Steps(moved, k - 4) {
      StepsCompose(begun, 4, k - 4);
    }
    RebuiltMeta(f);
    assert Restamped(Reindexed(f)) == Rebuilt(f);
    var segments: map<nat, File>, n: nat := s.disk.segments, |s.disk.segments| + 1;
    assert segments[n := f][n := Rebuilt(f)] == segments[n := Rebuilt(f)];
  }

  lemma NextOrdinal(d: Disk, f: File)
    requires Contiguous(d.segments)
    ensures |d.segments[|d.segments| + 1 := f]| == |d.segments| + 1
  {
    GrownSegments(d.segments, f);
  }

  lemma RebuiltMeta(f: File)
    requires f.lines.Some?
    ensures Rebuilt(f) == f.(index := Rebuilt(f).index, meta := Some(f.version))
  {
  }

  /** Begun and completed, an append of other records is the whole operation. */
  lemma CompletedAppend(s: System, t: Thread, batch: seq<Line>)
    requires s.holder.None? && batch != [] && NoMessages(batch)
    ensures var begun := Act(s, BeginAppend(t, batch));
      && Busy(begun, 2)
      && var done := Steps(begun, 2);
         done.holder.None? && done.disk == RecordsAppended(s.disk, batch) && done.log == s.log + batch
  {
    hide Contiguous, Steps;
    var begun := Act(s, BeginAppend(t, batch));
    StepsNext(begun, 0);
    StepsNext(begun, 1);
  }

  /** A seal interrupted after dropping the hot index. */
  lemma InterruptedSeal(s: System, t: Thread)
    requires s.holder.None? && Contiguous(s.disk.segments)
    requires s.disk.hot.lines.Some? && Size(s.disk.hot.lines.value) > 0
    ensures var begun := Act(s, BeginSeal(t, 0));
      && Busy(begun, 2)
      && var dropped := Steps(begun, 2);
         && dropped.holder.Some? && dropped.holder.value.0 == t
         && Act(dropped, Interrupt(t)) ==
            System(s.disk.(hot := s.disk.hot.(index := None)), None, s.log, true)
  {
    hide Size, Contiguous, Steps;
    var begun := Act(s, BeginSeal(t, 0));
    StepsNext(begun, 0);
    StepsNext(begun, 1);
  }

  lemma Extend(run: seq<System>, a: Action) returns (longer: seq<System>)
    requires IsRun(run, false) && Enabled(run[|run| - 1], a, false)
    ensures IsRun(longer, false) && |longer| > 0 && longer[|longer| - 1] == Act(run[|run| - 1], a)
  {
    hide Enabled, Act;
    longer := run + [Act(run[|run| - 1], a)];
    forall i | 0 <= i < |longer| - 1 ensures Follows(longer[i], longer[i + 1], false) {
      if i < |run| - 1 {
        assert Follows(run[i], run[i + 1], false);
      }
    }
  }

  lemma {:induction false} RunOn(run: seq<System>, n: nat) returns (longer: seq<System>)
    requires IsRun(run, false) && |run| > 0 && Busy(run[|run| - 1], n)
    ensures IsRun(longer, false) && |longer| > 0 && longer[|longer| - 1] == Steps(run[|run| - 1], n)
  {
    hide Advanced, IsRun, Steps;
    StepsNext(run[|run| - 1], 0);
    longer := run;
    if n > 0 {
      longer := RunOn(run, n - 1);
      StepsNext(run[|run| - 1], n - 1);
      longer := Extend(longer, Advance(Steps(run[|run| - 1], n - 1).holder.value.0));
    }
  }

  /** An index of fewer messages than the history has does not list it. */
  lemma TooFew(d: Disk, first: seq<Line>, second: seq<Line>)
    requires d.segments == map[] && d.hot.lines.Some? && d.hot.meta == Some(d.hot.version)
    requires d.hot.index == Some(Encode(RecordsFrom(second, |first|, Size(first))))
    requires first != [] && AllMessages(first)
    ensures Contiguous(d.segments) && !Lists(LogicalIndex(d), first + second)
  {
    hide Encode, RecordsFrom, Size;
    var records := RecordsFrom(second, |first|, Size(first));
    ExpectedIds(second, |first|, Size(first));
    MessageIdsAppend(first, second);
    assert first[|first| - 1] in first;
    assert |SourceRead(d.hot)| == |records|;
  }

  /** A run whose last reading is wrong: a message write, a seal interrupted after it dropped the
      hot index, and another message write. */
  lemma InterruptedRunReadsWrong(t: Thread, first: seq<Line>, second: seq<Line>) returns (run: seq<System>)
    requires first != [] && AllMessages(first) && second != [] && AllMessages(second) && Size(first) > 0
    ensures IsRun(run, false)
    ensures var last := run[|run| - 1];
      && last.holder.None?
      && last.log == first + second
      && Contiguous(last.disk.segments)
      && !Lists(LogicalIndex(last.disk), last.log)
  {
    hide Lists, LogicalIndex, RecordsFrom, Encode, Size, Expected, Steps, Advanced, Busy, IsRun, InStep;
    run := Started();
    CompletedWrite(START, t, first);
    run := Extend(run, BeginWrite(t, first));
    run := RunOn(run, 4);
    var written := run[|run| - 1];
    assert [] + first == first;
    InterruptedSeal(written, t);
    run := Extend(run, BeginSeal(t, 0));
    run := RunOn(run, 2);
    run := Extend(run, Interrupt(t));
    var dropped := run[|run| - 1];
    CompletedWrite(dropped, t, second);
    run := Extend(run, BeginWrite(t, second));
    run := RunOn(run, 4);
    SomeRecords(second, |first|, Size(first));
    assert [] + Encode(RecordsFrom(second, |first|, Size(first))) == Encode(RecordsFrom(second, |first|, Size(first)));
    TooFew(run[|run| - 1].disk, first, second);
  }

  lemma Started() returns (run: seq<System>)
    ensures IsRun(run, false) && |run| > 0 && run[|run| - 1] == START
  {
    run := [START];
  }
}
