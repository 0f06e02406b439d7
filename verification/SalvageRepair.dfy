/**
 The repair pass over the log: which events survive, with which parent and references.
 */
module SalvageRepair {
  import opened Journal
  import opened Salvage

  // ----- Sidecar records

  /** Where a reference points after the repair. */
  function Redirect(ref: Option<Id>, preserved: set<Id>, eq: map<Id, Id>): Option<Id> {
    if ref.Some? && ref.value in eq && eq[ref.value] != ref.value && eq[ref.value] in preserved
    then Some(eq[ref.value])
    else ref
  }

  function Note(field: string, ref: Option<Id>, preserved: set<Id>, eq: map<Id, Id>): seq<Remap> {
    var to := Redirect(ref, preserved, eq);
    if to != ref && ref.Some? && to.Some? then [Remap(field, ref.value, to.value)] else []
  }

  predicate Refers(s: Sidecar, ids: set<Id>) {
    || (s.relatedTo.Some? && s.relatedTo.value in ids)
    || (s.messageId.Some? && s.messageId.value in ids)
    || (s.nodeId.Some? && s.nodeId.value in ids)
  }

  /** A record is redirected if one of its references moved, kept if it refers to a preserved
      message, and dropped otherwise. */
  function RepairSidecar(s: Sidecar, preserved: set<Id>, eq: map<Id, Id>): Option<Sidecar> {
    var remaps := Note("related_to", s.relatedTo, preserved, eq)
      + Note("payload.message_id", s.messageId, preserved, eq)
      + Note("payload.node_id", s.nodeId, preserved, eq);
    if remaps != [] then
      Some(s.(
        relatedTo := Redirect(s.relatedTo, preserved, eq),
        messageId := Redirect(s.messageId, preserved, eq),
        nodeId := Redirect(s.nodeId, preserved, eq),
        remaps := remaps))
    else if Refers(s, preserved) then Some(s)
    else None
  }

  // ----- What survives

  ghost function InitiallyPreserved(r: Repair): set<Id> {
    {r.c.staleRoot} + set id | id in r.c.kept
  }

  /** The pass emits a message that is not collapsed and is attached to something preserved. */
  ghost predicate Survives(r: Repair, m: Message, preserved: set<Id>)
    requires m in r.ms
  {
    && !Collapsed(r, m.id)
    && (|| m.id in preserved
        || (&& m.parent.Some?
            && (|| m.parent.value in preserved
                || m.parent.value == VIRTUAL_ROOT
                || (m.parent.value in ById(r.ms) && Canon(r, m.parent.value).Some?))))
  }

  /** The ids preserved after the first `n` events. */
  ghost function PreservedAt(r: Repair, events: seq<Event>, n: nat): set<Id>
    requires n <= |events| && r.ms == Messages(events)
  {
    if n == 0 then InitiallyPreserved(r)
    else
      var before := PreservedAt(r, events, n - 1);
      var e := events[n - 1];
      if e.MessageEvent? && Survives(r, e.message, before) then before + {e.message.id} else before
  }

  /** What the pass makes of the n-th event. */
  ghost function RepairEvent(r: Repair, events: seq<Event>, n: nat): seq<Event>
    requires n < |events| && r.ms == Messages(events)
  {
    var preserved := PreservedAt(r, events, n);
    match events[n]
    case MessageEvent(m) =>
      if Survives(r, m, preserved) then [MessageEvent(Rewire(r, m))] else []
    case SidecarEvent(s) =>
      match RepairSidecar(s, preserved, EquivalenceMap(r))
      case None => []
      case Some(s') => [SidecarEvent(s')]
  }

  ghost function RepairedUpTo(r: Repair, events: seq<Event>, n: nat): seq<Event>
    requires n <= |events| && r.ms == Messages(events)
  {
    if n == 0 then [] else RepairedUpTo(r, events, n - 1) + RepairEvent(r, events, n - 1)
  }

  ghost function Repaired(r: Repair, events: seq<Event>): seq<Event>
    requires r.ms == Messages(events)
  {
    RepairedUpTo(r, events, |events|)
  }

  /** With unique ids, an id preserved before its message is logged was preserved from the start. */
  lemma {:induction false} PreservedOrigin(r: Repair, events: seq<Event>, n: nat)
    requires n <= |events| && r.ms == Messages(events)
    ensures forall id :: id in PreservedAt(r, events, n) ==>
      id in InitiallyPreserved(r) || exists m :: m in Messages(events[..n]) && m.id == id
    ensures InitiallyPreserved(r) <= PreservedAt(r, events, n)
  {
    hide Messages, Filter, ById, Canon, Survives, InitiallyPreserved, IsRepair;
    if n > 0 {
      PreservedOrigin(r, events, n - 1);
      MessagesUpTo(events, n - 1);
      assert forall m :: m in Messages(events[..n - 1]) ==> m in Messages(events[..n]);
    }
  }

  lemma MessagesAt(events: seq<Event>, n: nat)
    requires n < |events| && events[n].MessageEvent?
    ensures Messages(events) == Messages(events[..n]) + [events[n].message] + Messages(events[n + 1..])
  {
    MessagesSplit(events[..n], [events[n]]);
    MessagesSplit(events[..n + 1], events[n + 1..]);
    assert events == events[..n + 1] + events[n + 1..] && events[..n + 1] == events[..n] + [events[n]];
    assert Messages([events[n]]) == [events[n].message];
  }

  lemma NotYetLogged(events: seq<Event>, n: nat)
    requires n < |events| && events[n].MessageEvent? && UniqueIds(Messages(events))
    ensures forall m :: m in Messages(events[..n]) ==> m.id != events[n].message.id
  {
    hide Messages;
    MessagesAt(events, n);
    var before := Messages(events[..n]);
    forall m | m in before ensures m.id != events[n].message.id {
      var i :| 0 <= i < |before| && before[i] == m;
      assert Messages(events)[i] == m && Messages(events)[|before|] == events[n].message;
    }
  }

  // ----- The pass

  /** Sidecar records among the first `n` events that the pass drops, and that it redirects. */
  ghost function SidecarCounts(r: Repair, events: seq<Event>, n: nat): (nat, nat)
    requires n <= |events| && r.ms == Messages(events)
  {
    if n == 0 then (0, 0)
    else
      var (unmapped, remapped) := SidecarCounts(r, events, n - 1);
      if events[n - 1].MessageEvent? then (unmapped, remapped)
      else
        var emitted := RepairEvent(r, events, n - 1);
        if emitted == [] then (unmapped + 1, remapped)
        else if emitted == [events[n - 1]] then (unmapped, remapped)
        else (unmapped, remapped + 1)
  }

  /** One message of the pass. */
  method RepairMessage(r: Repair, m: Message, eq: map<Id, Id>, preserved0: set<Id>)
      returns (emitted: seq<Event>, preserved: set<Id>)
    requires m in r.ms && eq == EquivalenceMap(r)
    requires InitiallyPreserved(r) <= preserved0
    requires m.id in preserved0 ==> m.id in InitiallyPreserved(r)
    ensures emitted == if Survives(r, m, preserved0) then [MessageEvent(Rewire(r, m))] else []
    ensures preserved == if Survives(r, m, preserved0) then preserved0 + {m.id} else preserved0
  {
    hide Filter, ById, Messages;
    emitted, preserved := [], preserved0;
    if m.id in eq && eq[m.id] != m.id {
      return;
    }
    if m.id == r.c.selected {
      emitted := [MessageEvent(m.(parent := Some(VIRTUAL_ROOT)))];
    } else if m.id in preserved {
      StaleRootKeepsParent(r, m);
      emitted := [MessageEvent(m)];
    } else if m.parent.Some? && m.parent.value in eq && eq[m.parent.value] in preserved {
      emitted := [MessageEvent(m.(parent := Some(eq[m.parent.value])))];
      preserved := preserved + {m.id};
    } else if m.parent.Some? && (m.parent.value in preserved || m.parent.value == VIRTUAL_ROOT) {
      UncoveredParent(r, m, eq, preserved);
      emitted := [MessageEvent(m)];
      preserved := preserved + {m.id};
    } else {
      UncoveredParent(r, m, eq, preserved);
    }
  }

  lemma StaleRootKeepsParent(r: Repair, m: Message)
    requires m in r.ms && m.id in InitiallyPreserved(r) && m.id != r.c.selected
    ensures Rewire(r, m) == m
  {
  }

  /** Every counterpart is kept, hence preserved from the start. */
  lemma UncoveredParent(r: Repair, m: Message, eq: map<Id, Id>, preserved: set<Id>)
    requires m in r.ms && eq == EquivalenceMap(r) && InitiallyPreserved(r) <= preserved
    requires !(m.parent.Some? && m.parent.value in eq && eq[m.parent.value] in preserved)
    ensures m.parent.Some? && m.parent.value in ById(r.ms) ==> Canon(r, m.parent.value).None?
  {
    if m.parent.Some? && m.parent.value in ById(r.ms) && Canon(r, m.parent.value).Some? {
      CanonHomomorphism(r, m.parent.value);
    }
  }

  /** One event of the pass. */
  method RepairOne(r: Repair, events: seq<Event>, i: nat, eq: map<Id, Id>, preserved0: set<Id>)
      returns (emitted: seq<Event>, preserved: set<Id>)
    requires r.ms == Messages(events) && UniqueIds(r.ms) && i < |events|
    requires eq == EquivalenceMap(r) && preserved0 == PreservedAt(r, events, i)
    ensures emitted == RepairEvent(r, events, i)
    ensures preserved == PreservedAt(r, events, i + 1)
  {
    hide Filter, ById, Messages, Rewire, Survives, RepairSidecar;
    match events[i] {
      case MessageEvent(m) =>
        NotYetLogged(events, i);
        PreservedOrigin(r, events, i);
        emitted, preserved := RepairMessage(r, m, eq, preserved0);
      case SidecarEvent(s) =>
        var s' := RepairSidecar(s, preserved0, eq);
        emitted, preserved := if s'.None? then [] else [SidecarEvent(s'.value)], preserved0;
    }
  }

  lemma CountsNone(r: Repair, events: seq<Event>)
    requires r.ms == Messages(events)
    ensures SidecarCounts(r, events, 0) == (0, 0)
    ensures RepairedUpTo(r, events, 0) == []
    ensures PreservedAt(r, events, 0) == {r.c.staleRoot} + set id | id in r.c.kept
  {
  }

  lemma RepairedNext(r: Repair, events: seq<Event>, i: nat)
    requires r.ms == Messages(events) && i < |events|
    ensures RepairedUpTo(r, events, i + 1) == RepairedUpTo(r, events, i) + RepairEvent(r, events, i)
  {
    hide RepairEvent, Messages;
  }

  /** One event counts if it is a sidecar record that is dropped or redirected. */
  lemma CountsNext(r: Repair, events: seq<Event>, i: nat)
    requires r.ms == Messages(events) && i < |events|
    ensures var (unmapped, remapped), emitted := SidecarCounts(r, events, i), RepairEvent(r, events, i);
      SidecarCounts(r, events, i + 1) ==
        if events[i].MessageEvent? then (unmapped, remapped)
        else if emitted == [] then (unmapped + 1, remapped)
        else if emitted == [events[i]] then (unmapped, remapped)
        else (unmapped, remapped + 1)
  {
    hide RepairEvent, Messages;
  }

  /** The repair loop: grows the output and the preserved ids event by event. */
  method RepairEvents(events: seq<Event>, r: Repair)
      returns (repaired: seq<Event>, preserved: set<Id>, unmapped: nat, remapped: nat)
    requires r.ms == Messages(events) && UniqueIds(r.ms)
    ensures repaired == Repaired(r, events)
    ensures preserved == PreservedAt(r, events, |events|)
    ensures (unmapped, remapped) == SidecarCounts(r, events, |events|)
  {
    hide Filter, ById, Messages, RepairEvent, SidecarCounts, PreservedAt, RepairedUpTo, EquivalenceMap, UniqueIds;
    hide IsEquivalence;
    CountsNone(r, events);
    var eq := BuildEquivalenceMap(r);
    preserved := {r.c.staleRoot} + set id | id in r.c.kept;
    repaired, unmapped, remapped := [], 0, 0;
    for i := 0 to |events|
      invariant repaired == RepairedUpTo(r, events, i)
      invariant preserved == PreservedAt(r, events, i)
      invariant (unmapped, remapped) == SidecarCounts(r, events, i)
    {
      var emitted;
      emitted, preserved := RepairOne(r, events, i, eq, preserved);
      CountsNext(r, events, i);
      RepairedNext(r, events, i);
      repaired := repaired + emitted;
      if events[i].SidecarEvent? {
        if emitted == [] {
          unmapped := unmapped + 1;
        } else if emitted != [events[i]] {
          remapped := remapped + 1;
        }
      }
    }
  }

  // ----- What the repaired journal holds

  ghost function CollapsedIds(r: Repair): set<Id> {
    set id | id in ById(r.ms) && Collapsed(r, id)
  }

  /** Only logged messages are preserved, and nothing preserved is collapsed. */
  lemma {:induction false} PreservedNotCollapsed(r: Repair, events: seq<Event>, n: nat)
    requires n <= |events| && r.ms == Messages(events)
    ensures PreservedAt(r, events, n) <= ById(r.ms).Keys
    ensures PreservedAt(r, events, n) !! CollapsedIds(r)
  {
    hide Filter, Messages, ById, Canon, Collapsed;
    if n == 0 {
      NoneInitiallyCollapsed(r);
    } else {
      PreservedNotCollapsed(r, events, n - 1);
    }
  }

  lemma NoneInitiallyCollapsed(r: Repair)
    ensures InitiallyPreserved(r) <= ById(r.ms).Keys && InitiallyPreserved(r) !! CollapsedIds(r)
  {
    hide Filter, ById, Messages, Canon;
    StartPaths(r, r.c.selected);
    forall id | id in r.c.kept ensures id in ById(r.ms) && !Collapsed(r, id) {
      CanonIdempotent(r, id);
    }
  }

  /** Once its message has been passed, an id stays preserved or stays lost. */
  lemma {:induction false} PreservedForGood(r: Repair, events: seq<Event>, n: nat, k: nat)
    requires r.ms == Messages(events) && UniqueIds(r.ms) && n < k <= |events| && events[n].MessageEvent?
    ensures events[n].message in r.ms
    ensures events[n].message.id in PreservedAt(r, events, k) <==>
      Survives(r, events[n].message, PreservedAt(r, events, n))
  {
    hide Filter, Messages, ById, Canon, Collapsed, InitiallyPreserved, IsRepair;
    var id := events[n].message.id;
    PrefixMessages(events, n + 1);
    MessagesUpTo(events, n);
    assert events[n].message in Messages(events[..n + 1]);
    if k == n + 1 {
      PreservedNotCollapsed(r, events, n);
      ByIdUnique(r.ms, events[n].message);
    } else {
      PreservedForGood(r, events, n, k - 1);
      if events[k - 1].MessageEvent? {
        NotYetLogged(events, k - 1);
        LoggedStays(events, n + 1, k - 1);
        assert events[n].message in Messages(events[..k - 1]);
      }
    }
  }

  lemma LoggedStays(events: seq<Event>, n: nat, k: nat)
    requires n <= k <= |events|
    ensures forall m :: m in Messages(events[..n]) ==> m in Messages(events[..k])
  {
    hide Messages;
    assert events[..k][..n] == events[..n];
    PrefixMessages(events[..k], n);
  }

  /** The messages whose ids are among `ids`, rewired, in log order. */
  ghost function Surviving(r: Repair, ms: seq<Message>, ids: set<Id>): (s: seq<Message>)
    requires forall m :: m in ms ==> m in r.ms
  {
    if ms == [] then []
    else
      var last := ms[|ms| - 1];
      assert ms == ms[..|ms| - 1] + [last];
      Surviving(r, ms[..|ms| - 1], ids) + if last.id in ids then [Rewire(r, last)] else []
  }

  lemma PrefixMessages(events: seq<Event>, n: nat)
    requires n <= |events|
    ensures forall m :: m in Messages(events[..n]) ==> m in Messages(events)
  {
    assert events == events[..n] + events[n..];
    MessagesSplit(events[..n], events[n..]);
  }

  lemma MessagesUpTo(events: seq<Event>, n: nat)
    requires n < |events|
    ensures Messages(events[..n + 1]) ==
      Messages(events[..n]) + if events[n].MessageEvent? then [events[n].message] else []
  {
    hide Messages;
    assert events[..n + 1] == events[..n] + [events[n]];
    MessagesSnoc(events[..n], events[n]);
  }

  lemma SurvivingSnoc(r: Repair, ms: seq<Message>, m: Message, ids: set<Id>)
    requires m in r.ms && forall x :: x in ms ==> x in r.ms
    ensures Surviving(r, ms + [m], ids) == Surviving(r, ms, ids) + if m.id in ids then [Rewire(r, m)] else []
  {
    hide Rewire, ById;
    assert (ms + [m])[..|ms|] == ms;
  }

  lemma {:induction false} SurvivingSame(r: Repair, ms: seq<Message>, ids: set<Id>, more: set<Id>)
    requires forall m :: m in ms ==> m in r.ms
    requires forall m :: m in ms ==> (m.id in ids <==> m.id in more)
    ensures Surviving(r, ms, ids) == Surviving(r, ms, more)
  {
    hide Rewire, ById;
    if ms != [] {
      assert ms == ms[..|ms| - 1] + [ms[|ms| - 1]];
      SurvivingSame(r, ms[..|ms| - 1], ids, more);
    }
  }

  lemma WrittenSnoc(r: Repair, events: seq<Event>, n: nat)
    requires r.ms == Messages(events) && n < |events|
    ensures events[n].MessageEvent? ==> events[n].message in r.ms
    ensures Messages(RepairedUpTo(r, events, n + 1)) ==
      Messages(RepairedUpTo(r, events, n)) +
        if events[n].MessageEvent? && Survives(r, events[n].message, PreservedAt(r, events, n))
        then [Rewire(r, events[n].message)]
        else []
  {
    hide Filter, ById, Rewire, Survives, PreservedAt, RepairSidecar;
    MessagesSplit(RepairedUpTo(r, events, n), RepairEvent(r, events, n));
    var emitted := RepairEvent(r, events, n);
    if |emitted| == 1 {
      assert emitted[..0] == [];
    }
  }

  /** After any number of events the messages written are the preserved ones so far, rewired, in
      log order. */
  lemma {:induction false} RepairedMessages(r: Repair, events: seq<Event>, n: nat)
    requires r.ms == Messages(events) && UniqueIds(r.ms) && n <= |events|
    ensures forall m :: m in Messages(events[..n]) ==> m in r.ms
    ensures Messages(RepairedUpTo(r, events, n)) == Surviving(r, Messages(events[..n]), PreservedAt(r, events, n))
  {
    hide *;
    PrefixMessages(events, n);
    if n == 0 {
      RepairedNone(r, events);
      NoneSurvive(r, PreservedAt(r, events, 0));
    } else {
      RepairedMessages(r, events, n - 1);
      MessagesUpTo(events, n - 1);
      WrittenSnoc(r, events, n - 1);
      var before, after := PreservedAt(r, events, n - 1), PreservedAt(r, events, n);
      var ms := Messages(events[..n - 1]);
      PreservedStep(r, events, n - 1);
      SurvivingSame(r, ms, before, after);
      if events[n - 1].MessageEvent? {
        PreservedForGood(r, events, n - 1, n);
        SurvivingSnoc(r, ms, events[n - 1].message, after);
      } else {
        assert ms + [] == ms;
      }
    }
  }

  /** An event changes at most whether its own message is preserved. */
  lemma PreservedStep(r: Repair, events: seq<Event>, n: nat)
    requires r.ms == Messages(events) && UniqueIds(r.ms) && n < |events|
    ensures PreservedAt(r, events, n) <= PreservedAt(r, events, n + 1)
    ensures forall m :: m in Messages(events[..n]) ==>
      (m.id in PreservedAt(r, events, n) <==> m.id in PreservedAt(r, events, n + 1))
  {
    hide Filter, ById, Messages, Canon, Survives;
    if events[n].MessageEvent? {
      NotYetLogged(events, n);
    }
  }

  lemma RepairedNone(r: Repair, events: seq<Event>)
    requires r.ms == Messages(events)
    ensures Messages(events[..0]) == Messages(RepairedUpTo(r, events, 0)) == []
  {
  }

  lemma NoneSurvive(r: Repair, ids: set<Id>)
    ensures Surviving(r, [], ids) == []
  {
  }

  lemma {:induction false} SurvivingMembers(r: Repair, ms: seq<Message>, ids: set<Id>, m: Message)
    requires forall o :: o in ms ==> o in r.ms
    ensures m in Surviving(r, ms, ids) <==> exists o :: o in ms && o.id in ids && m == Rewire(r, o)
  {
    hide ById, Rewire;
    if ms != [] {
      var last := ms[|ms| - 1];
      var rest := ms[..|ms| - 1];
      assert ms == rest + [last];
      SurvivingMembers(r, rest, ids, m);
      SurvivingSnoc(r, rest, last, ids);
    }
  }

  lemma {:induction false} SurvivingUnique(r: Repair, ms: seq<Message>, ids: set<Id>)
    requires UniqueIds(ms) && forall o :: o in ms ==> o in r.ms
    ensures UniqueIds(Surviving(r, ms, ids))
  {
    hide ById, Rewire, Surviving, IsRepair;
    if ms == [] {
      NoneSurvive(r, ids);
    } else {
      var last := ms[|ms| - 1];
      var rest := ms[..|ms| - 1];
      assert ms == rest + [last];
      SurvivingUnique(r, rest, ids);
      SurvivingSnoc(r, rest, last, ids);
      var s := Surviving(r, rest, ids);
      forall m | m in s ensures m.id != last.id {
        SurvivingMembers(r, rest, ids, m);
        RewireKeepsId(r);
      }
      assert forall i :: 0 <= i < |s| ==> s[i] in s;
      RewireKeepsId(r);
    }
  }

  lemma RewireKeepsId(r: Repair)
    ensures forall m :: m in r.ms ==> Rewire(r, m).id == m.id
  {
    hide Filter, ById, Canon;
  }

  /** As many messages survive as have their ids among `ids`. */
  lemma {:induction false} SurvivingCount(r: Repair, ms: seq<Message>, ids: set<Id>)
    requires UniqueIds(ms) && forall o :: o in ms ==> o in r.ms
    ensures |Surviving(r, ms, ids)| == |IdsAmong(ms, ids)|
  {
    hide ById, Rewire, Surviving, IdsAmong, IsRepair;
    if ms == [] {
      NoneSurvive(r, ids);
      NoneAmong(ids);
    } else {
      var last := ms[|ms| - 1];
      var rest := ms[..|ms| - 1];
      assert ms == rest + [last];
      SurvivingCount(r, rest, ids);
      SurvivingSnoc(r, rest, last, ids);
      AmongSnoc(rest, last, ids);
    }
  }

  lemma AmongSnoc(ms: seq<Message>, m: Message, ids: set<Id>)
    requires UniqueIds(ms + [m])
    ensures |IdsAmong(ms + [m], ids)| == |IdsAmong(ms, ids)| + if m.id in ids then 1 else 0
  {
    var all := ms + [m];
    forall i | 0 <= i < |ms| ensures ms[i].id != m.id {
      assert all[i] == ms[i] && all[|ms|] == m;
    }
    assert m.id !in IdsAmong(ms, ids);
    assert IdsAmong(all, ids) == IdsAmong(ms, ids) + if m.id in ids then {m.id} else {};
  }

  lemma NoneAmong(ids: set<Id>)
    ensures IdsAmong([], ids) == {}
  {
  }

  ghost function IdsAmong(ms: seq<Message>, ids: set<Id>): set<Id> {
    set m | m in ms && m.id in ids :: m.id
  }

  /** The ids preserved in the end, which are those of the messages written. */
  ghost function WrittenIds(r: Repair, events: seq<Event>): set<Id>
    requires r.ms == Messages(events)
  {
    PreservedAt(r, events, |events|)
  }

  /** The ids neither written nor collapsed. */
  ghost function LostIds(r: Repair, events: seq<Event>): set<Id>
    requires r.ms == Messages(events)
  {
    ById(r.ms).Keys - CollapsedIds(r) - WrittenIds(r, events)
  }

  /** Of a journal with unique ids the pass writes each preserved message once, rewired, and
      every message is written, collapsed or lost. */
  lemma RepairedJournal(r: Repair, events: seq<Event>)
    requires r.ms == Messages(events) && UniqueIds(r.ms)
    ensures var written := Messages(Repaired(r, events));
      && UniqueIds(written)
      && ById(written).Keys == WrittenIds(r, events)
      && WrittenIds(r, events) <= RepairedById(r).Keys
      && (forall id :: id in ById(written) ==> ById(written)[id] == RepairedById(r)[id])
      && |written| == |WrittenIds(r, events)|
      && |written| + |CollapsedIds(r)| + |LostIds(r, events)| == |r.ms|
  {
    hide *;
    RepairedMessages(r, events, |events|);
    assert events[..|events|] == events;
    RepairedAll(r, events);
    PreservedNotCollapsed(r, events, |events|);
    SurvivingUnique(r, r.ms, WrittenIds(r, events));
    SurvivingCount(r, r.ms, WrittenIds(r, events));
    SurvivingById(r, WrittenIds(r, events));
    CountIds(r, events);
  }

  lemma RepairedAll(r: Repair, events: seq<Event>)
    requires r.ms == Messages(events)
    ensures Repaired(r, events) == RepairedUpTo(r, events, |events|)
    ensures WrittenIds(r, events) == PreservedAt(r, events, |events|)
  {
  }

  lemma CountIds(r: Repair, events: seq<Event>)
    requires r.ms == Messages(events) && UniqueIds(r.ms)
    requires WrittenIds(r, events) <= ById(r.ms).Keys && WrittenIds(r, events) !! CollapsedIds(r)
    ensures IdsAmong(r.ms, WrittenIds(r, events)) == WrittenIds(r, events)
    ensures |WrittenIds(r, events)| + |CollapsedIds(r)| + |LostIds(r, events)| == |r.ms|
  {
    hide ById, Messages, Filter, WrittenIds, Collapsed;
    UniqueCount(r.ms);
    AmongAll(r.ms, WrittenIds(r, events));
    assert CollapsedIds(r) <= ById(r.ms).Keys;
    Partition(ById(r.ms).Keys, WrittenIds(r, events), CollapsedIds(r));
  }

  lemma AmongAll(ms: seq<Message>, ids: set<Id>)
    requires ids <= ById(ms).Keys
    ensures IdsAmong(ms, ids) == ids
  {
    forall id | id in ids ensures id in IdsAmong(ms, ids) {
      assert ById(ms)[id] in ms;
    }
  }

  lemma Partition(all: set<Id>, a: set<Id>, b: set<Id>)
    requires a <= all && b <= all && a !! b
    ensures |a| + |b| + |all - b - a| == |all|
  {
    assert all == (a + b) + (all - b - a);
  }

  /** With unique ids there are as many messages as ids. */
  lemma {:induction false} UniqueCount(ms: seq<Message>)
    requires UniqueIds(ms)
    ensures |ById(ms).Keys| == |ms|
  {
    if ms != [] {
      var rest, last := ms[..|ms| - 1], ms[|ms| - 1];
      UniqueCount(rest);
      forall id | id in ById(rest) ensures id != last.id {
        assert ById(rest)[id] in rest;
      }
      assert ById(ms).Keys == ById(rest).Keys + {last.id};
    }
  }

  lemma SurvivingById(r: Repair, ids: set<Id>)
    requires UniqueIds(Surviving(r, r.ms, ids)) && ids <= ById(r.ms).Keys && ids !! CollapsedIds(r)
    ensures ids <= RepairedById(r).Keys
    ensures ById(Surviving(r, r.ms, ids)).Keys == ids
    ensures forall id :: id in ids ==> ById(Surviving(r, r.ms, ids))[id] == RepairedById(r)[id]
  {
    hide Collapsed, Filter, Surviving, Rewire, ById;
    var written := Surviving(r, r.ms, ids);
    RewireKeepsId(r);
    forall id | id in ById(written) ensures id in ids {
      SurvivingMembers(r, r.ms, ids, ById(written)[id]);
    }
    forall id | id in ids ensures id in ById(written) && ById(written)[id] == RepairedById(r)[id] {
      SurvivingMembers(r, r.ms, ids, RepairedById(r)[id]);
      ByIdUnique(written, RepairedById(r)[id]);
    }
  }

  // ----- Nothing dangles, and every survivor reads as it should

  ghost predicate ParentIn(r: Repair, id: Id, ids: set<Id>)
    requires id in ById(r.ms)
  {
    var parent := Rewire(r, ById(r.ms)[id]).parent;
    parent.Some? && (parent.value == VIRTUAL_ROOT || parent.value in ids)
  }

  /** At every moment of the pass, what is preserved hangs below the virtual root or something
      preserved. */
  lemma {:induction false} PreservedClosed(r: Repair, events: seq<Event>, n: nat, id: Id)
    requires r.ms == Messages(events) && n <= |events| && id in PreservedAt(r, events, n)
    ensures id in ById(r.ms) && ParentIn(r, id, PreservedAt(r, events, n))
  {
    hide Filter, Messages, ById, Canon, Collapsed, Rewire;
    PreservedNotCollapsed(r, events, n);
    PreservedFromStart(r, events, n);
    if id in InitiallyPreserved(r) {
      InitialParent(r, id);
    } else if id in PreservedAt(r, events, n - 1) {
      PreservedClosed(r, events, n - 1, id);
    } else {
      PreservedFromStart(r, events, n - 1);
      PreservedNotCollapsed(r, events, n - 1);
      assert id == events[n - 1].message.id;
      LookupLogged(r.ms, events[n - 1].message);
      AddedParent(r, events[n - 1].message, PreservedAt(r, events, n - 1));
    }
  }

  lemma LookupLogged(ms: Forest, m: Message)
    requires m in ms
    ensures m.id in ById(ms) && ById(ms)[m.id] == m
  {
    hide ById;
  }

  lemma {:induction false} PreservedFromStart(r: Repair, events: seq<Event>, n: nat)
    requires r.ms == Messages(events) && n <= |events|
    ensures InitiallyPreserved(r) <= PreservedAt(r, events, n)
  {
    hide Filter, Messages, ById, Canon, Survives;
    if n > 0 {
      PreservedFromStart(r, events, n - 1);
    }
  }

  lemma InitialParent(r: Repair, id: Id)
    requires id in InitiallyPreserved(r)
    ensures id in ById(r.ms) && ParentIn(r, id, InitiallyPreserved(r))
  {
    hide Filter, ById, Canon;
    LookupLogged(r.ms, ById(r.ms)[id]);
    if id in r.c.kept && id != r.c.selected {
      KeptParent(r, ById(r.ms)[id]);
    }
  }

  lemma AddedParent(r: Repair, m: Message, preserved: set<Id>)
    requires m in r.ms && Survives(r, m, preserved) && m.id !in preserved
    requires InitiallyPreserved(r) <= preserved <= ById(r.ms).Keys
    ensures m.id in ById(r.ms) && ParentIn(r, m.id, preserved)
  {
    hide Filter, ById, Canon;
    LookupLogged(r.ms, m);
    if HasParent(ById(r.ms), m.id) && Canon(r, m.parent.value).Some? {
      CanonHomomorphism(r, m.parent.value);
    }
  }

  /** Nothing dangles: every emitted parent is the virtual root or itself emitted. */
  lemma RepairedIsClosed(r: Repair, events: seq<Event>, m: Message)
    requires r.ms == Messages(events) && UniqueIds(r.ms)
    requires m in Messages(Repaired(r, events))
    ensures m.parent.Some?
    ensures m.parent.value == VIRTUAL_ROOT || exists p :: p in Messages(Repaired(r, events)) && p.id == m.parent.value
  {
    hide *;
    var written := Messages(Repaired(r, events));
    RepairedJournal(r, events);
    ByIdUnique(written, m);
    RepairedAll(r, events);
    PreservedClosed(r, events, |events|, m.id);
    RewiredEntry(r, m.id);
    ParentInMeans(r, m.id, WrittenIds(r, events));
    if m.parent.value != VIRTUAL_ROOT {
      LookupIn(written, m.parent.value);
    }
  }

  lemma LookupIn(ms: seq<Message>, id: Id)
    requires id in ById(ms)
    ensures ById(ms)[id] in ms && ById(ms)[id].id == id
  {
  }

  lemma RewiredEntry(r: Repair, id: Id)
    requires id in RepairedById(r)
    ensures id in ById(r.ms) && ById(r.ms)[id] in r.ms && RepairedById(r)[id] == Rewire(r, ById(r.ms)[id])
  {
    hide Rewire, Collapsed;
  }

  lemma ParentInMeans(r: Repair, id: Id, ids: set<Id>)
    requires id in RepairedById(r) && id in ById(r.ms) && ParentIn(r, id, ids)
    ensures RepairedById(r)[id].parent.Some?
    ensures RepairedById(r)[id].parent.value == VIRTUAL_ROOT || RepairedById(r)[id].parent.value in ids
  {
    hide Rewire, Collapsed;
  }

  /** The journal salvage writes means what the journal it read meant, for every message of it. */
  lemma SalvageKeepsMeaning(r: Repair, events: seq<Event>, id: Id)
    requires r.ms == Messages(events) && UniqueIds(r.ms)
    requires id in ById(Messages(Repaired(r, events)))
    ensures id in ById(r.ms) && !Collapsed(r, id)
    ensures Rooted(ById(Messages(Repaired(r, events))), id)
    ensures Lineage(ById(Messages(Repaired(r, events))), id) == Expected(r, id)
  {
    hide *;
    RepairedJournal(r, events);
    WrittenIsPart(r, events);
    SurvivorUncollapsed(r, id);
    SalvagePreservesLineage(r, id);
    ReadsMeans(r, id, Expected(r, id));
    ClosedLineage(ById(Messages(Repaired(r, events))), RepairedById(r), id);
  }

  /** The written journal is a part of the repaired forest that holds with each message its parent. */
  lemma WrittenIsPart(r: Repair, events: seq<Event>)
    requires r.ms == Messages(events) && UniqueIds(r.ms)
    ensures var written, whole := ById(Messages(Repaired(r, events))), RepairedById(r);
      forall x :: x in written ==>
        x in whole && written[x] == whole[x] && (HasParent(whole, x) ==> whole[x].parent.value in written)
  {
    hide Filter, Messages, Repaired, ById, Rewire, Collapsed, WrittenIds, ParentIn;
    RepairedJournal(r, events);
    RepairedAll(r, events);
    var written, whole := ById(Messages(Repaired(r, events))), RepairedById(r);
    forall x | x in written ensures HasParent(whole, x) ==> whole[x].parent.value in written {
      PreservedClosed(r, events, |events|, x);
      ParentInMeans(r, x, WrittenIds(r, events));
    }
  }

  lemma SurvivorUncollapsed(r: Repair, id: Id)
    requires id in RepairedById(r)
    ensures id in ById(r.ms) && !Collapsed(r, id)
  {
    hide Rewire, Collapsed;
  }

  lemma ReadsMeans(r: Repair, id: Id, turns: seq<Turn>)
    requires Reads(r, id, turns)
    ensures Rooted(RepairedById(r), id) && Lineage(RepairedById(r), id) == turns
  {
  }

  /** The written journal is again one that salvage accepts. */
  lemma RepairedIsForest(r: Repair, events: seq<Event>)
    requires r.ms == Messages(events) && UniqueIds(r.ms)
    ensures UniqueIds(Messages(Repaired(r, events))) && IsForest(Messages(Repaired(r, events)))
  {
    hide *;
    var written := Messages(Repaired(r, events));
    RepairedJournal(r, events);
    forall id | id in ById(written) ensures id in RepairedById(r) && Rooted(ById(written), id) {
      SalvageKeepsMeaning(r, events, id);
    }
    UniqueRootedForest(r, written);
  }

  lemma UniqueRootedForest(r: Repair, written: seq<Message>)
    requires UniqueIds(written)
    requires forall id :: id in ById(written) ==> id in RepairedById(r) && Rooted(ById(written), id)
    ensures IsForest(written)
  {
    hide ById, Rooted, Collapsed, Rewire, Filter;
    forall m | m in written ensures ById(written)[m.id] == m {
      ByIdUnique(written, m);
    }
  }

  // ----- What is conserved

  /** The i-th message is preserved from the start, or its parent is the virtual root, is
      preserved from the start, has a counterpart, or is logged earlier. */
  ghost predicate Attached(r: Repair, i: nat)
    requires i < |r.ms|
  {
    var m := r.ms[i];
    || m.id in InitiallyPreserved(r)
    || (&& m.parent.Some?
        && var parent := m.parent.value;
           || parent == VIRTUAL_ROOT
           || parent in InitiallyPreserved(r)
           || (parent in ById(r.ms) && Canon(r, parent).Some?)
           || exists j :: 0 <= j < i && r.ms[j].id == parent)
  }

  ghost predicate AllAttached(r: Repair) {
    forall i :: 0 <= i < |r.ms| && r.ms[i].id !in CollapsedIds(r) ==> Attached(r, i)
  }

  /** If every uncollapsed message is attached, the pass has by then preserved everything logged
      so far that is not collapsed. */
  lemma {:induction false} PreservedSoFar(r: Repair, events: seq<Event>, n: nat)
    requires r.ms == Messages(events) && AllAttached(r) && n <= |events|
    ensures forall m :: m in Messages(events[..n]) && m.id !in CollapsedIds(r) ==> m.id in PreservedAt(r, events, n)
  {
    hide Filter, ById, Messages, CollapsedIds, AllAttached, Canon, Survives, IsRepair;
    NothingLogged(events);
    if n > 0 {
      PreservedSoFar(r, events, n - 1);
      MessagesUpTo(events, n - 1);
      if events[n - 1].MessageEvent? && events[n - 1].message.id !in CollapsedIds(r) {
        AttachedSurvives(r, events, n - 1);
      }
    }
  }

  lemma NothingLogged(events: seq<Event>)
    ensures Messages(events[..0]) == []
  {
  }

  lemma AttachedSurvives(r: Repair, events: seq<Event>, n: nat)
    requires r.ms == Messages(events) && AllAttached(r) && n < |events|
    requires events[n].MessageEvent? && events[n].message.id !in CollapsedIds(r)
    requires forall m :: m in Messages(events[..n]) && m.id !in CollapsedIds(r) ==> m.id in PreservedAt(r, events, n)
    ensures events[n].message in r.ms && Survives(r, events[n].message, PreservedAt(r, events, n))
  {
    hide Filter, ById, Messages, PreservedAt, Canon;
    MessagesAt(events, n);
    PreservedFromStart(r, events, n);
    var before := Messages(events[..n]);
    var m := events[n].message;
    assert r.ms[|before|] == m;
    LookupLogged(r.ms, m);
    assert Attached(r, |before|);
    if j :| 0 <= j < |before| && m.parent == Some(r.ms[j].id) {
      assert before[j] == r.ms[j] && before[j] in before && r.ms[j] in r.ms;
      LookupLogged(r.ms, r.ms[j]);
    }
  }

  /** A preserved message was attached. */
  lemma PreservedIsAttached(r: Repair, events: seq<Event>, n: nat)
    requires r.ms == Messages(events) && UniqueIds(r.ms) && n < |events| && events[n].MessageEvent?
    requires events[n].message.id in WrittenIds(r, events)
    ensures |Messages(events[..n])| < |r.ms| && r.ms[|Messages(events[..n])|] == events[n].message
    ensures Attached(r, |Messages(events[..n])|)
  {
    hide Filter, ById, Messages, PreservedAt, Canon, Collapsed;
    MessagesAt(events, n);
    NotYetLogged(events, n);
    PreservedForGood(r, events, n, |events|);
    PreservedOrigin(r, events, n);
    var before := Messages(events[..n]);
    var m := events[n].message;
    if o :| o in before && m.parent == Some(o.id) {
      var j :| 0 <= j < |before| && before[j] == o;
      assert r.ms[j] == o;
    }
  }

  /** Every logged message has its event. */
  lemma {:induction false} EventOf(events: seq<Event>, i: nat) returns (n: nat)
    requires i < |Messages(events)|
    ensures n < |events| && events[n] == MessageEvent(Messages(events)[i]) && |Messages(events[..n])| == i
  {
    var k := |events| - 1;
    assert events == events[..k] + [events[k]];
    if events[k].MessageEvent? && i == |Messages(events)| - 1 {
      n := k;
    } else {
      n := EventOf(events[..k], i);
      assert events[..k][..n] == events[..n];
    }
  }

  /** Conservation, exactly: nothing is lost, and written and collapsed messages make up the
      journal, exactly when every uncollapsed message is attached. */
  lemma ConservedExactly(r: Repair, events: seq<Event>)
    requires r.ms == Messages(events) && UniqueIds(r.ms)
    ensures AllAttached(r) <==> LostIds(r, events) == {}
    ensures AllAttached(r) <==> |Messages(Repaired(r, events))| + |CollapsedIds(r)| == |r.ms|
    ensures AllAttached(r) ==> ById(Messages(Repaired(r, events))) == RepairedById(r)
  {
    hide Filter, Messages, Repaired, ById, WrittenIds, Attached, LostIds, RepairedById;
    RepairedJournal(r, events);
    if AllAttached(r) {
      NoneLost(r, events);
      AllWritten(r, events);
    } else {
      var i :| 0 <= i < |r.ms| && r.ms[i].id !in CollapsedIds(r) && !Attached(r, i);
      UnattachedIsLost(r, events, i);
    }
  }

  lemma NoRest(all: set<Id>, a: set<Id>, b: set<Id>)
    requires all - a - b == {} && b <= all - a
    ensures b == all - a
  {
    assert forall id :: id in all - a && id !in b ==> id in all - a - b;
  }

  lemma SameMaps(a: map<Id, Message>, b: map<Id, Message>)
    requires a.Keys == b.Keys && forall id :: id in a ==> a[id] == b[id]
    ensures a == b
  {
  }

  lemma RepairedKeys(r: Repair)
    ensures RepairedById(r).Keys == ById(r.ms).Keys - CollapsedIds(r)
  {
    hide Filter, Messages, ById, Collapsed, Rewire;
  }

  lemma AllWritten(r: Repair, events: seq<Event>)
    requires r.ms == Messages(events) && UniqueIds(r.ms) && LostIds(r, events) == {}
    ensures ById(Messages(Repaired(r, events))) == RepairedById(r)
  {
    hide Messages, Repaired, ById, CollapsedIds, WrittenIds, RepairedById, IsRepair, UniqueIds;
    RepairedJournal(r, events);
    RepairedKeys(r);
    NoRest(ById(r.ms).Keys, CollapsedIds(r), WrittenIds(r, events));
    SameMaps(ById(Messages(Repaired(r, events))), RepairedById(r));
  }

  lemma NoneLost(r: Repair, events: seq<Event>)
    requires r.ms == Messages(events) && AllAttached(r)
    ensures LostIds(r, events) == {}
  {
    hide Filter, Messages, ById, Canon, PreservedAt, Attached;
    PreservedSoFar(r, events, |events|);
    assert events[..|events|] == events;
    forall id | id in ById(r.ms) && id !in CollapsedIds(r) ensures id in WrittenIds(r, events) {
      LookupIn(r.ms, id);
    }
  }

  /** An uncollapsed message that is not attached is lost. */
  lemma UnattachedIsLost(r: Repair, events: seq<Event>, i: nat)
    requires r.ms == Messages(events) && UniqueIds(r.ms)
    requires i < |r.ms| && r.ms[i].id !in CollapsedIds(r) && !Attached(r, i)
    ensures r.ms[i].id in LostIds(r, events) && r.ms[i].id !in ById(Messages(Repaired(r, events)))
  {
    hide Filter, Messages, Repaired, ById, Canon, WrittenIds, Attached;
    RepairedJournal(r, events);
    var n := EventOf(events, i);
    LookupLogged(r.ms, r.ms[i]);
    if r.ms[i].id in WrittenIds(r, events) {
      PreservedIsAttached(r, events, n);
    }
  }

  /** The pass emits every message that is not collapsed, and no other, exactly when every such
      message is attached. */
  lemma EmittedIffNotCollapsed(r: Repair, events: seq<Event>)
    requires r.ms == Messages(events) && UniqueIds(r.ms)
    ensures AllAttached(r) <==> forall id :: id in ById(r.ms) ==>
      (id in ById(Messages(Repaired(r, events))) <==> !Collapsed(r, id))
  {
    hide Filter, Messages, Repaired, ById, Canon, WrittenIds, AllAttached, Collapsed;
    ConservedExactly(r, events);
    RepairedJournal(r, events);
  }

  /** In particular when parents come first. */
  lemma OrderedIsAttached(r: Repair)
    requires OrderedForest(r.ms)
    ensures AllAttached(r)
  {
    hide Filter, ById, Canon, UniqueIds;
    forall i | 0 <= i < |r.ms| ensures Attached(r, i) {
      assert ParentEarlier(r.ms, i);
    }
  }

  lemma KeptParent(r: Repair, m: Message)
    requires m in r.ms && m.id in r.c.kept && m.id != r.c.selected
    ensures HasParent(ById(r.ms), m.id) && m.parent.value in r.c.kept && !Collapsed(r, m.parent.value)
  {
    hide Filter, ById;
    BelowStep(r.ms, m.id);
    CanonIdempotent(r, m.parent.value);
  }

  /** A salvage removes messages exactly when there is a second duplicate start. */
  lemma SalvageRemovesDuplicates(r: Repair)
    ensures CollapsedIds(r) != {} <==> exists d :: d in r.c.starts && d != r.c.selected
  {
    hide Filter, ById;
    if id :| id in CollapsedIds(r) {
      CanonIdempotent(r, id);
    }
    if d :| d in r.c.starts && d != r.c.selected {
      StartCanon(r, d);
      assert d in CollapsedIds(r);
    }
  }

  // ----- Sidecar records of the repaired journal

  /** One record: it survives exactly when it refers to something preserved or collapsed, and
      then no reference names a collapsed message. */
  lemma SidecarFollows(r: Repair, s: Sidecar, preserved: set<Id>)
    requires InitiallyPreserved(r) <= preserved && preserved !! CollapsedIds(r)
    ensures var s' := RepairSidecar(s, preserved, EquivalenceMap(r));
      && (s'.Some? <==> Refers(s, preserved + CollapsedIds(r)))
      && (s'.Some? ==> !Refers(s'.value, CollapsedIds(r)) && Refers(s'.value, preserved))
  {
    hide Filter, ById, Canon;
    forall id | id in CollapsedIds(r)
      ensures id in EquivalenceMap(r) && EquivalenceMap(r)[id] in preserved && EquivalenceMap(r)[id] != id
    {
      CanonHomomorphism(r, id);
    }
  }

  /** A reference the map sends elsewhere is sent there, any other is left alone. */
  ghost predicate FieldFollows(before: Option<Id>, after: Option<Id>, eq: map<Id, Id>) {
    after == if before.Some? && before.value in eq then Some(eq[before.value]) else before
  }

  /** The note on one field: nothing if it is as it was. */
  ghost function Difference(field: string, before: Option<Id>, after: Option<Id>): seq<Remap> {
    if before.Some? && after.Some? && before != after then [Remap(field, before.value, after.value)] else []
  }

  /** Each reference follows the map; a change is noted under the name of its field, in the order of
      the fields, in place of older notes; the rest stays. */
  ghost predicate Followed(s: Sidecar, s': Sidecar, eq: map<Id, Id>) {
    var notes := Difference("related_to", s.relatedTo, s'.relatedTo)
      + Difference("payload.message_id", s.messageId, s'.messageId)
      + Difference("payload.node_id", s.nodeId, s'.nodeId);
    && FieldFollows(s.relatedTo, s'.relatedTo, eq)
    && FieldFollows(s.messageId, s'.messageId, eq)
    && FieldFollows(s.nodeId, s'.nodeId, eq)
    && s'.body == s.body
    && s'.remaps == if notes == [] then s.remaps else notes
  }

  lemma KeptIsPreserved(r: Repair, eq: map<Id, Id>, id: Id)
    requires IsEquivalence(r, eq) && id in eq
    ensures eq[id] in InitiallyPreserved(r)
  {
    hide ById, Filter, Canon, Messages, IsEquivalence;
    MapIsEquivalence(r);
    EquivalenceUnique(r, eq, EquivalenceMap(r));
    CanonHomomorphism(r, id);
  }

  lemma FieldRedirected(r: Repair, eq: map<Id, Id>, ref: Option<Id>, preserved: set<Id>)
    requires IsEquivalence(r, eq) && InitiallyPreserved(r) <= preserved
    ensures FieldFollows(ref, Redirect(ref, preserved, eq), eq)
  {
    hide IsEquivalence, InitiallyPreserved;
    if ref.Some? && ref.value in eq {
      KeptIsPreserved(r, eq, ref.value);
    }
  }

  /** What is written of a sidecar record is the record with its references mapped. */
  lemma SidecarDescribed(r: Repair, eq: map<Id, Id>, s: Sidecar, preserved: set<Id>)
    requires IsEquivalence(r, eq) && InitiallyPreserved(r) <= preserved
    ensures var s' := RepairSidecar(s, preserved, eq); s'.Some? ==> Followed(s, s'.value, eq)
  {
    hide IsEquivalence, InitiallyPreserved, Refers;
    FieldRedirected(r, eq, s.relatedTo, preserved);
    FieldRedirected(r, eq, s.messageId, preserved);
    FieldRedirected(r, eq, s.nodeId, preserved);
  }

  /** The same of the pass over the log, for the one map there is. */
  lemma SidecarWritten(r: Repair, events: seq<Event>, n: nat, eq: map<Id, Id>)
    requires r.ms == Messages(events) && n < |events| && events[n].SidecarEvent?
    requires IsEquivalence(r, eq)
    ensures forall e :: e in RepairEvent(r, events, n) ==>
      e.SidecarEvent? && Followed(events[n].sidecar, e.sidecar, eq)
  {
    hide Filter, Messages, ById, PreservedAt, RepairSidecar, EquivalenceMap, IsEquivalence, Followed;
    PreservedFromStart(r, events, n);
    MapIsEquivalence(r);
    EquivalenceUnique(r, eq, EquivalenceMap(r));
    SidecarDescribed(r, eq, events[n].sidecar, PreservedAt(r, events, n));
  }

  ghost predicate LeavesNothing(r: Repair, events: seq<Event>, i: nat) {
    r.ms == Messages(events) && i < |events| && events[i].SidecarEvent? && RepairEvent(r, events, i) == []
  }

  ghost predicate LeavesAnother(r: Repair, events: seq<Event>, i: nat) {
    && r.ms == Messages(events) && i < |events| && events[i].SidecarEvent?
    && RepairEvent(r, events, i) != [] && RepairEvent(r, events, i) != [events[i]]
  }

  lemma CountsOne(r: Repair, events: seq<Event>, i: nat)
    requires r.ms == Messages(events) && i < |events|
    ensures var (unmapped, remapped) := SidecarCounts(r, events, i);
      SidecarCounts(r, events, i + 1) ==
        if LeavesNothing(r, events, i) then (unmapped + 1, remapped)
        else if LeavesAnother(r, events, i) then (unmapped, remapped + 1)
        else (unmapped, remapped)
    ensures !(LeavesNothing(r, events, i) && LeavesAnother(r, events, i))
  {
    hide RepairEvent, Messages, SidecarCounts;
    CountsNext(r, events, i);
  }

  /** The counters are the numbers of sidecar records that leave nothing, and something else. */
  lemma {:induction false} CountsAre(r: Repair, events: seq<Event>, n: nat)
    requires r.ms == Messages(events) && n <= |events|
    ensures SidecarCounts(r, events, n).0 == |set i: nat | i < n && LeavesNothing(r, events, i)|
    ensures SidecarCounts(r, events, n).1 == |set i: nat | i < n && LeavesAnother(r, events, i)|
  {
    hide *;
    if n == 0 {
      CountsNone(r, events);
      assert |set i: nat | i < n && LeavesNothing(r, events, i)| == 0;
      assert |set i: nat | i < n && LeavesAnother(r, events, i)| == 0;
    } else {
      CountsAre(r, events, n - 1);
      CountsOne(r, events, n - 1);
      NothingSnoc(r, events, n - 1);
      AnotherSnoc(r, events, n - 1);
    }
  }

  lemma NothingSnoc(r: Repair, events: seq<Event>, n: nat)
    ensures |set i: nat | i < n + 1 && LeavesNothing(r, events, i)| ==
      |set i: nat | i < n && LeavesNothing(r, events, i)| + if LeavesNothing(r, events, n) then 1 else 0
  {
    hide *;
    var before := set i: nat | i < n && LeavesNothing(r, events, i);
    assert (set i: nat | i < n + 1 && LeavesNothing(r, events, i)) ==
      if LeavesNothing(r, events, n) then before + {n} else before;
  }

  lemma AnotherSnoc(r: Repair, events: seq<Event>, n: nat)
    ensures |set i: nat | i < n + 1 && LeavesAnother(r, events, i)| ==
      |set i: nat | i < n && LeavesAnother(r, events, i)| + if LeavesAnother(r, events, n) then 1 else 0
  {
    hide *;
    var before := set i: nat | i < n && LeavesAnother(r, events, i);
    assert (set i: nat | i < n + 1 && LeavesAnother(r, events, i)) ==
      if LeavesAnother(r, events, n) then before + {n} else before;
  }

  /** The pass drops a sidecar record exactly when it refers to nothing preserved so far and
      nothing collapsed; what it writes of it names no collapsed message, and something preserved. */
  lemma SidecarAt(r: Repair, events: seq<Event>, n: nat)
    requires r.ms == Messages(events) && n < |events| && events[n].SidecarEvent?
    ensures var emitted := RepairEvent(r, events, n);
      && (emitted == [] <==> !Refers(events[n].sidecar, PreservedAt(r, events, n) + CollapsedIds(r)))
      && (emitted != [] ==>
            && |emitted| == 1 && emitted[0].SidecarEvent?
            && !Refers(emitted[0].sidecar, CollapsedIds(r))
            && Refers(emitted[0].sidecar, PreservedAt(r, events, n)))
  {
    hide Filter, Messages, ById, PreservedAt, CollapsedIds, RepairSidecar, Refers, EquivalenceMap;
    PreservedNotCollapsed(r, events, n);
    PreservedFromStart(r, events, n);
    SidecarFollows(r, events[n].sidecar, PreservedAt(r, events, n));
  }

  /** No sidecar record of the repaired journal names a collapsed message, and each names a message
      that is in the repaired journal. */
  lemma {:induction false} SidecarsFollow(r: Repair, events: seq<Event>, n: nat, s: Sidecar)
    requires r.ms == Messages(events) && n <= |events|
    requires SidecarEvent(s) in RepairedUpTo(r, events, n)
    ensures !Refers(s, CollapsedIds(r)) && Refers(s, PreservedAt(r, events, n))
  {
    hide Filter, Messages, ById, PreservedAt, CollapsedIds, RepairEvent, Refers;
    var e := events[n - 1];
    PreservedGrows(r, events, n - 1);
    if SidecarEvent(s) in RepairedUpTo(r, events, n - 1) {
      SidecarsFollow(r, events, n - 1, s);
    } else if e.SidecarEvent? {
      SidecarAt(r, events, n - 1);
    } else {
      MessageEmitsMessages(r, events, n - 1);
    }
    RefersMore(s, PreservedAt(r, events, n - 1), PreservedAt(r, events, n));
  }

  lemma PreservedGrows(r: Repair, events: seq<Event>, n: nat)
    requires r.ms == Messages(events) && n < |events|
    ensures PreservedAt(r, events, n) <= PreservedAt(r, events, n + 1)
  {
  }

  lemma MessageEmitsMessages(r: Repair, events: seq<Event>, n: nat)
    requires r.ms == Messages(events) && n < |events| && events[n].MessageEvent?
    ensures forall e :: e in RepairEvent(r, events, n) ==> e.MessageEvent?
  {
  }

  lemma RefersMore(s: Sidecar, a: set<Id>, b: set<Id>)
    requires a <= b
    ensures Refers(s, a) ==> Refers(s, b)
  {
  }
}
