/**
 Merging several journals for projection: every local id is qualified by its source, so that
 the sources keep their own lineages in the merged events.
 */
module Projection {
  import opened Journal

  datatype Source = Source(id: string, events: seq<Event>)

  function Qualify(source: string, local: Id): Id {
    source + ":" + local
  }

  /** Qualified ids with colon-free local parts name one source and one local id. */
  lemma QualifyInjective(s: string, l: Id, s': string, l': Id)
    requires ':' !in l && ':' !in l' && Qualify(s, l) == Qualify(s', l')
    ensures s == s' && l == l'
  {
    var q := Qualify(s, l);
    assert q[|s|] == ':' && q[|s'|] == ':';
    assert forall i :: |s| < i < |q| ==> q[i] == l[i - |s| - 1];
    assert forall i :: |s'| < i < |q| ==> q[i] == l'[i - |s'| - 1];
    assert |s| == |s'|;
    assert s == q[..|s|] && s' == q[..|s'|] && l == q[|s| + 1..] && l' == q[|s'| + 1..];
  }

  function QualifyParent(source: string, parent: Option<Id>): Option<Id> {
    if parent.Some? && parent.value != "" && parent.value != VIRTUAL_ROOT
    then Some(Qualify(source, parent.value))
    else parent
  }

  function QualifyMessage(source: string, m: Message): Message {
    m.(id := Qualify(source, m.id), parent := QualifyParent(source, m.parent))
  }

  function QualifyEvent(source: string, e: Event): Event {
    match e
    case MessageEvent(m) => MessageEvent(QualifyMessage(source, m))
    case SidecarEvent(_) => e
  }

  function QualifyAll(source: string, events: seq<Event>): (r: seq<Event>)
    ensures |r| == |events| && forall i :: 0 <= i < |events| ==> r[i] == QualifyEvent(source, events[i])
  {
    seq(|events|, i requires 0 <= i < |events| => QualifyEvent(source, events[i]))
  }

  /** The merged events: a single source is taken as it is, several are qualified. */
  function Merged(sources: seq<Source>): seq<Event> {
    if |sources| < 2 then Raw(sources) else Qualified(sources)
  }

  function Raw(sources: seq<Source>): seq<Event> {
    if sources == [] then [] else Raw(sources[..|sources| - 1]) + sources[|sources| - 1].events
  }

  function Qualified(sources: seq<Source>): seq<Event> {
    if sources == [] then []
    else
      var last := sources[|sources| - 1];
      Qualified(sources[..|sources| - 1]) + QualifyAll(last.id, last.events)
  }

  /** An event as it is renamed: a message gets "source:" before its id, and before its parent unless
      that is missing, empty or the virtual root; nothing else changes. */
  predicate RenamedFrom(source: string, e: Event, e': Event) {
    match e
    case SidecarEvent(_) => e' == e
    case MessageEvent(m) =>
      && e'.MessageEvent?
      && var m' := e'.message;
         && m'.id == source + ":" + m.id
         && m'.role == m.role && m'.content == m.content && m'.provenance == m.provenance
         && m'.parent ==
            if m.parent.None? || m.parent.value == "" || m.parent.value == "n0" then m.parent
            else Some(source + ":" + m.parent.value)
  }

  /** How many events the first n sources have. */
  function EventsBefore(sources: seq<Source>, n: nat): nat
    requires n <= |sources|
  {
    if n == 0 then 0 else EventsBefore(sources, n - 1) + |sources[n - 1].events|
  }

  /** The sources one after the other, each event renamed. */
  ghost predicate AllRenamed(sources: seq<Source>, merged: seq<Event>, n: nat)
    requires n <= |sources|
  {
    && |merged| == EventsBefore(sources, n)
    && forall k, i :: 0 <= k < n && 0 <= i < |sources[k].events| ==>
         EventsBefore(sources, k) + i < |merged| &&
         RenamedFrom(sources[k].id, sources[k].events[i], merged[EventsBefore(sources, k) + i])
  }

  lemma {:induction false} EventsBeforeMonotone(sources: seq<Source>, k: nat, n: nat)
    requires k < n <= |sources|
    ensures EventsBefore(sources, k) + |sources[k].events| <= EventsBefore(sources, n)
  {
    if k < n - 1 {
      EventsBeforeMonotone(sources, k, n - 1);
    }
  }

  lemma EventRenames(source: string, e: Event)
    ensures RenamedFrom(source, e, QualifyEvent(source, e))
  {
  }

  lemma {:induction false} QualifiedRenames(sources: seq<Source>, n: nat)
    requires n <= |sources|
    ensures AllRenamed(sources, Qualified(sources[..n]), n)
  {
    hide RenamedFrom, QualifyEvent;
    if n > 0 {
      QualifiedRenames(sources, n - 1);
      assert sources[..n][..n - 1] == sources[..n - 1];
      var before, last := Qualified(sources[..n - 1]), sources[n - 1];
      var merged := Qualified(sources[..n]);
      assert merged == before + QualifyAll(last.id, last.events);
      forall k, i | 0 <= k < n && 0 <= i < |sources[k].events|
        ensures EventsBefore(sources, k) + i < |merged|
        ensures RenamedFrom(sources[k].id, sources[k].events[i], merged[EventsBefore(sources, k) + i])
      {
        if k < n - 1 {
          EventsBeforeMonotone(sources, k, n - 1);
          assert merged[EventsBefore(sources, k) + i] == before[EventsBefore(sources, k) + i];
        } else {
          assert merged[EventsBefore(sources, k) + i] == QualifyEvent(last.id, last.events[i]);
          EventRenames(last.id, last.events[i]);
        }
      }
    }
  }

  method QualifiedMessageEvents(sources: seq<Source>) returns (merged: seq<Event>)
    ensures merged == Merged(sources)
    ensures |sources| == 0 ==> merged == []
    ensures |sources| == 1 ==> merged == sources[0].events
    ensures |sources| >= 2 ==> AllRenamed(sources, merged, |sources|)
  {
    hide AllRenamed, QualifyEvent;
    QualifiedRenames(sources, |sources|);
    merged := [];
    if |sources| < 2 {
      for i := 0 to |sources|
        invariant merged == Raw(sources[..i])
      {
        merged := merged + sources[i].events;
        assert sources[..i + 1][..i] == sources[..i];
      }
      assert sources[..|sources|] == sources;
      return;
    }
    for i := 0 to |sources|
      invariant merged == Qualified(sources[..i])
    {
      var source := sources[i];
      ghost var before := merged;
      for j := 0 to |source.events|
        invariant merged == before + QualifyAll(source.id, source.events)[..j]
      {
        merged := merged + [QualifyEvent(source.id, source.events[j])];
      }
      assert QualifyAll(source.id, source.events)[..|source.events|] == QualifyAll(source.id, source.events);
      assert sources[..i + 1][..i] == sources[..i];
    }
    assert sources[..|sources|] == sources;
  }

  // ----- Integrity of one source

  /** Every non-empty id is used once, and every named parent is logged. */
  ghost predicate Intact(ms: seq<Message>) {
    && (forall i, j :: 0 <= i < j < |ms| && ms[i].id != "" ==> ms[i].id != ms[j].id)
    && (forall m :: m in ms ==> ParentLogged(ms, m))
  }

  ghost predicate ParentLogged(ms: seq<Message>, m: Message) {
    m.parent.Some? && m.parent.value != "" && m.parent.value != VIRTUAL_ROOT ==> m.parent.value in ById(ms)
  }

  datatype Integrity = Sound | DuplicateId(id: Id) | MissingParent(id: Id, parent: Id)

  /** The non-empty ids of the first `n` messages. */
  ghost function IdsSeen(ms: seq<Message>, n: nat): set<Id>
    requires n <= |ms|
  {
    set j | 0 <= j < n && ms[j].id != "" :: ms[j].id
  }

  ghost predicate NoDuplicates(ms: seq<Message>, n: nat)
    requires n <= |ms|
  {
    forall i, j :: 0 <= i < j < n && ms[i].id != "" ==> ms[i].id != ms[j].id
  }

  /** The first message whose id is already used. */
  ghost predicate FirstDuplicate(ms: seq<Message>, j: nat)
    requires j < |ms|
  {
    NoDuplicates(ms, j) && ms[j].id in IdsSeen(ms, j)
  }

  /** The first message whose parent is not logged. */
  ghost predicate FirstOrphan(ms: seq<Message>, j: nat)
    requires j < |ms|
  {
    !ParentLogged(ms, ms[j]) && forall k :: 0 <= k < j ==> ParentLogged(ms, ms[k])
  }

  method CheckIntegrity(ms: seq<Message>) returns (result: Integrity)
    ensures result.Sound? <==> Intact(ms)
    ensures result.DuplicateId? <==> !NoDuplicates(ms, |ms|)
    ensures result.DuplicateId? ==> exists j :: 0 <= j < |ms| && FirstDuplicate(ms, j) && ms[j].id == result.id
    ensures result.MissingParent? ==> exists j ::
      (0 <= j < |ms| && FirstOrphan(ms, j) && ms[j].id == result.id && ms[j].parent == Some(result.parent))
  {
    hide ById, ParentLogged;
    var seen: set<Id> := {};
    for i := 0 to |ms|
      invariant seen == IdsSeen(ms, i) && NoDuplicates(ms, i)
    {
      if ms[i].id != "" {
        if ms[i].id in seen {
          assert FirstDuplicate(ms, i);
          return DuplicateId(ms[i].id);
        }
        seen := seen + {ms[i].id};
      }
    }
    for i := 0 to |ms|
      invariant forall j :: 0 <= j < i ==> ParentLogged(ms, ms[j])
    {
      SeenIsLogged(ms, ms[i]);
      var parent := ms[i].parent;
      if parent.Some? && parent.value != "" && parent.value != VIRTUAL_ROOT && parent.value !in seen {
        assert ms[i] in ms && FirstOrphan(ms, i);
        return MissingParent(ms[i].id, parent.value);
      }
    }
    result := Sound;
  }

  lemma SeenIsLogged(ms: seq<Message>, m: Message)
    ensures ParentLogged(ms, m) <==>
      (m.parent.Some? && m.parent.value != "" && m.parent.value != VIRTUAL_ROOT ==>
         m.parent.value in IdsSeen(ms, |ms|))
  {
    hide ById;
    if m.parent.Some? && m.parent.value in ById(ms) {
      var i :| 0 <= i < |ms| && ms[i] == ById(ms)[m.parent.value];
    }
  }

  // ----- Lineage in the merged events

  /** Source-local ids as the journal allocates them: non-empty, colon-free, not the root. */
  ghost predicate LocalIds(ms: seq<Message>) {
    forall m :: m in ms ==> m.id != "" && m.id != VIRTUAL_ROOT && ':' !in m.id
  }

  ghost predicate ReadySource(s: Source) {
    Intact(Messages(s.events)) && LocalIds(Messages(s.events))
  }

  ghost predicate ReadySources(sources: seq<Source>) {
    && |sources| >= 2
    && (forall k :: 0 <= k < |sources| ==> ReadySource(sources[k]))
    && (forall j, k :: 0 <= j < k < |sources| ==> sources[j].id != sources[k].id)
  }

  /** The messages of a source, by local id. */
  ghost function Local(s: Source): map<Id, Message> {
    ById(Messages(s.events))
  }

  ghost function MergedById(sources: seq<Source>): map<Id, Message> {
    ById(Messages(Merged(sources)))
  }

  lemma LocalLookup(s: Source, m: Message)
    requires ReadySource(s) && m in Messages(s.events)
    ensures m.id in Local(s) && Local(s)[m.id] == m
  {
    var ms := Messages(s.events);
    forall i, j | 0 <= i < j < |ms| ensures ms[i].id != ms[j].id {
      assert ms[i] in ms;
    }
    ByIdUnique(ms, m);
  }

  lemma {:induction false} QualifiedMember(sources: seq<Source>, m: Message)
    ensures MessageEvent(m) in Qualified(sources) <==>
      exists k, o :: 0 <= k < |sources| && MessageEvent(o) in sources[k].events && m == QualifyMessage(sources[k].id, o)
  {
    if sources != [] {
      var rest := sources[..|sources| - 1];
      var last := sources[|sources| - 1];
      QualifiedMember(rest, m);
      QualifyAllMember(last, m);
      if MessageEvent(m) in Qualified(sources) {
        if MessageEvent(m) in Qualified(rest) {
          var k, o :| 0 <= k < |rest| && MessageEvent(o) in rest[k].events && m == QualifyMessage(rest[k].id, o);
          assert sources[k] == rest[k];
        } else {
          var o :| MessageEvent(o) in last.events && m == QualifyMessage(last.id, o);
          assert sources[|sources| - 1] == last;
        }
      }
      if k, o :| 0 <= k < |sources| && MessageEvent(o) in sources[k].events && m == QualifyMessage(sources[k].id, o) {
        if k < |rest| {
          assert rest[k] == sources[k];
        }
      }
    }
  }

  lemma QualifyAllMember(s: Source, m: Message)
    ensures MessageEvent(m) in QualifyAll(s.id, s.events) <==>
      exists o :: MessageEvent(o) in s.events && m == QualifyMessage(s.id, o)
  {
    var all := QualifyAll(s.id, s.events);
    if MessageEvent(m) in all {
      var i :| 0 <= i < |all| && all[i] == MessageEvent(m);
      assert s.events[i].MessageEvent? && m == QualifyMessage(s.id, s.events[i].message);
    }
    if o :| MessageEvent(o) in s.events && m == QualifyMessage(s.id, o) {
      var i :| 0 <= i < |s.events| && s.events[i] == MessageEvent(o);
      assert all[i] == MessageEvent(m);
    }
  }

  /** A merged message is one source's message, renamed. */
  lemma MergedOrigin(sources: seq<Source>, id: Id) returns (k: nat, local: Id)
    requires ReadySources(sources) && id in MergedById(sources)
    ensures k < |sources| && local in Local(sources[k]) && id == Qualify(sources[k].id, local)
    ensures MergedById(sources)[id] == QualifyMessage(sources[k].id, Local(sources[k])[local])
  {
    hide ById, Qualify, Messages;
    var m := MergedById(sources)[id];
    QualifiedMember(sources, m);
    var k', o :| 0 <= k' < |sources| && MessageEvent(o) in sources[k'].events && m == QualifyMessage(sources[k'].id, o);
    LocalLookup(sources[k'], o);
    k, local := k', o.id;
  }

  /** Every source's messages are in the merged events under their qualified ids. */
  lemma MergedEntry(sources: seq<Source>, k: nat, local: Id)
    requires ReadySources(sources) && k < |sources| && local in Local(sources[k])
    ensures Qualify(sources[k].id, local) in MergedById(sources)
    ensures MergedById(sources)[Qualify(sources[k].id, local)] ==
      QualifyMessage(sources[k].id, Local(sources[k])[local])
  {
    hide ById, Qualify, Messages;
    var o := Local(sources[k])[local];
    var m := QualifyMessage(sources[k].id, o);
    assert o in Messages(sources[k].events);
    QualifiedMember(sources, m);
    var k', local' := MergedOrigin(sources, m.id);
    LocalIdOf(sources[k'], local');
    LocalIdOf(sources[k], local);
    QualifyInjective(sources[k].id, local, sources[k'].id, local');
  }

  lemma LocalIdOf(s: Source, local: Id)
    requires ReadySource(s) && local in Local(s)
    ensures local != "" && local != VIRTUAL_ROOT && ':' !in local
    ensures Local(s)[local].id == local
  {
    assert Local(s)[local] in Messages(s.events);
  }

  function QualifyPath(source: string, path: seq<Id>): (r: seq<Id>)
    ensures |r| == |path| && forall i :: 0 <= i < |path| ==> r[i] == Qualify(source, path[i])
  {
    seq(|path|, i requires 0 <= i < |path| => Qualify(source, path[i]))
  }

  /** A qualified message has a parent in the merged events exactly when it has one at home. */
  lemma MergedParent(sources: seq<Source>, k: nat, local: Id)
    requires ReadySources(sources) && k < |sources| && local in Local(sources[k])
    ensures var q := Qualify(sources[k].id, local);
      && q in MergedById(sources)
      && (HasParent(MergedById(sources), q) <==> HasParent(Local(sources[k]), local))
      && (HasParent(Local(sources[k]), local) ==>
            MergedById(sources)[q].parent == Some(Qualify(sources[k].id, Local(sources[k])[local].parent.value)))
  {
    hide ById, Qualify, Messages;
    MergedEntry(sources, k, local);
    var m := Local(sources[k])[local];
    if HasParent(Local(sources[k]), local) {
      LocalIdOf(sources[k], m.parent.value);
      MergedEntry(sources, k, m.parent.value);
    } else {
      NoStrayParent(sources, k, local);
    }
  }

  /** A parent that is not logged at home is not captured by another source. */
  lemma NoStrayParent(sources: seq<Source>, k: nat, local: Id)
    requires ReadySources(sources) && k < |sources| && local in Local(sources[k])
    requires !HasParent(Local(sources[k]), local)
    ensures var parent := QualifyParent(sources[k].id, Local(sources[k])[local].parent);
      parent.Some? ==> parent.value !in MergedById(sources)
  {
    hide ById, Messages;
    var m := Local(sources[k])[local];
    assert m in Messages(sources[k].events) && ParentLogged(Messages(sources[k].events), m);
    if m.parent.Some? && m.parent.value in MergedById(sources) {
      MergedIdHasColon(sources, m.parent.value);
    }
  }

  lemma MergedIdHasColon(sources: seq<Source>, id: Id)
    requires ReadySources(sources) && id in MergedById(sources)
    ensures ':' in id
  {
    hide ById, Messages;
    var k, local := MergedOrigin(sources, id);
    assert id[|sources[k].id|] == ':';
  }

  /** Lineage commutes with qualification: renaming the walk of `local` in its own source gives the
      walk of `source:local` in the merged events. */
  lemma {:induction false} LineageCommutes(sources: seq<Source>, k: nat, local: Id, p: seq<Id>)
    requires ReadySources(sources) && k < |sources| && local in Local(sources[k])
    ensures IsWalk(Local(sources[k]), local, p) ==>
      IsWalk(MergedById(sources), Qualify(sources[k].id, local), QualifyPath(sources[k].id, p))
    decreases |p|
  {
    hide ById, Qualify, Messages, ReadySources, MergedById, Local;
    if IsWalk(Local(sources[k]), local, p) {
      MergedParent(sources, k, local);
      var q := QualifyPath(sources[k].id, p);
      if HasParent(Local(sources[k]), local) {
        LineageCommutes(sources, k, Local(sources[k])[local].parent.value, p[..|p| - 1]);
        assert q[..|q| - 1] == QualifyPath(sources[k].id, p[..|p| - 1]);
      }
    }
  }

  /** No walk crosses sources: every walk of `source:local` in the merged events is a renamed walk
      of `local` in its own source. */
  lemma {:induction false} MergedWalkIsLocal(sources: seq<Source>, k: nat, local: Id, q: seq<Id>) returns (p: seq<Id>)
    requires ReadySources(sources) && k < |sources| && local in Local(sources[k])
    requires IsWalk(MergedById(sources), Qualify(sources[k].id, local), q)
    ensures IsWalk(Local(sources[k]), local, p) && q == QualifyPath(sources[k].id, p)
    decreases |q|
  {
    hide ById, Qualify, Messages, ReadySources, MergedById, Local;
    MergedParent(sources, k, local);
    assert q == q[..|q| - 1] + [q[|q| - 1]];
    if HasParent(Local(sources[k]), local) {
      var above := MergedWalkIsLocal(sources, k, Local(sources[k])[local].parent.value, q[..|q| - 1]);
      p := above + [local];
      assert p[..|p| - 1] == above;
    } else {
      p := [local];
    }
  }

  /** Merging never changes what a message's lineage reads. */
  lemma QualifiedLineage(sources: seq<Source>, k: nat, local: Id)
    requires ReadySources(sources) && k < |sources| && local in Local(sources[k])
    ensures var q := Qualify(sources[k].id, local);
      && (Rooted(MergedById(sources), q) <==> Rooted(Local(sources[k]), local))
      && (Rooted(Local(sources[k]), local) ==>
            && Path(MergedById(sources), q) == QualifyPath(sources[k].id, Path(Local(sources[k]), local))
            && Lineage(MergedById(sources), q) == Lineage(Local(sources[k]), local))
  {
    hide ById, Qualify, Messages, ReadySources, MergedById, Local, IsWalk;
    var q := Qualify(sources[k].id, local);
    if Rooted(Local(sources[k]), local) {
      var p := Path(Local(sources[k]), local);
      LineageCommutes(sources, k, local, p);
      var p' := QualifyPath(sources[k].id, p);
      WalkUnique(MergedById(sources), q, p', Path(MergedById(sources), q));
      SameReading(sources, k, local, p);
    } else if Rooted(MergedById(sources), q) {
      var p := MergedWalkIsLocal(sources, k, local, Path(MergedById(sources), q));
    }
  }

  lemma SameReading(sources: seq<Source>, k: nat, local: Id, p: seq<Id>)
    requires ReadySources(sources) && k < |sources| && IsWalk(Local(sources[k]), local, p)
    requires IsWalk(MergedById(sources), Qualify(sources[k].id, local), QualifyPath(sources[k].id, p))
    ensures forall x :: x in p ==> x in Local(sources[k])
    ensures forall x :: x in QualifyPath(sources[k].id, p) ==> x in MergedById(sources)
    ensures Reading(MergedById(sources), QualifyPath(sources[k].id, p)) == Reading(Local(sources[k]), p)
  {
    hide ById, Qualify, Messages, ReadySources, MergedById, Local, IsWalk;
    WalkInDomain(Local(sources[k]), local, p);
    WalkInDomain(MergedById(sources), Qualify(sources[k].id, local), QualifyPath(sources[k].id, p));
    forall i | 0 <= i < |p|
      ensures TurnOf(MergedById(sources)[QualifyPath(sources[k].id, p)[i]]) == TurnOf(Local(sources[k])[p[i]])
    {
      MergedEntry(sources, k, p[i]);
    }
  }
}
