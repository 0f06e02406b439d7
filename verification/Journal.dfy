/**
 The journal's data model: an append-only list of events whose messages form a forest.

 A message names its parent; the id "n0" is the virtual root, which no message carries.  The
 lineage of a message is the walk from it to a message whose parent is not in the journal,
 read root first.  A walk exists exactly when following parents from the message ends.
 */
module Journal {

  datatype Option<+T> = None | Some(value: T)

  type Id = string

  const VIRTUAL_ROOT: Id := "n0"

  datatype Message = Message(
    id: Id,
    parent: Option<Id>,
    role: string,
    content: string,
    provenance: Option<string>)

  /** What a reader of a transcript sees of a message. */
  datatype Turn = Turn(role: string, content: string)

  /** One reference a repair changed in a sidecar record. */
  datatype Remap = Remap(field: string, original: Id, canonical: Id)

  /** A record that refers to messages through up to three fields. */
  datatype Sidecar = Sidecar(
    relatedTo: Option<Id>,
    messageId: Option<Id>,
    nodeId: Option<Id>,
    remaps: seq<Remap>,
    body: string)

  datatype Event = MessageEvent(message: Message) | SidecarEvent(sidecar: Sidecar)

  function TurnOf(m: Message): (t: Turn)
    ensures t.role == m.role && t.content == m.content
  {
    Turn(m.role, m.content)
  }

  /** The messages of a journal, in log order. */
  function Messages(events: seq<Event>): (ms: seq<Message>)
    ensures forall m :: m in ms <==> MessageEvent(m) in events
  {
    if events == [] then []
    else
      var last := events[|events| - 1];
      assert events == events[..|events| - 1] + [last];
      if last.MessageEvent? then Messages(events[..|events| - 1]) + [last.message]
      else Messages(events[..|events| - 1])
  }

  /** One more event adds its message, if it records one. */
  lemma MessagesSnoc(events: seq<Event>, e: Event)
    ensures Messages(events + [e]) == Messages(events) + if e.MessageEvent? then [e.message] else []
  {
    assert (events + [e])[..|events|] == events;
  }

  lemma {:induction false} MessagesSplit(a: seq<Event>, b: seq<Event>)
    ensures Messages(a + b) == Messages(a) + Messages(b)
  {
    if b == [] {
      assert a + b == a;
    } else {
      assert (a + b)[..|a + b| - 1] == a + b[..|b| - 1];
      MessagesSplit(a, b[..|b| - 1]);
    }
  }

  /** Message lookup by id; a later message replaces an earlier one with the same id. */
  function ById(ms: seq<Message>): (byId: map<Id, Message>)
    ensures forall id :: id in byId ==> byId[id] in ms && byId[id].id == id
    ensures forall m :: m in ms ==> m.id in byId
  {
    if ms == [] then map[]
    else
      var last := ms[|ms| - 1];
      assert ms == ms[..|ms| - 1] + [last];
      ById(ms[..|ms| - 1])[last.id := last]
  }

  ghost predicate UniqueIds(ms: seq<Message>) {
    forall i, j :: 0 <= i < j < |ms| ==> ms[i].id != ms[j].id
  }

  /** With unique ids, looking a message up by its id gives that message back. */
  lemma ByIdUnique(ms: seq<Message>, m: Message)
    requires UniqueIds(ms) && m in ms
    ensures m.id in ById(ms) && ById(ms)[m.id] == m
  {
    assert ById(ms)[m.id] in ms;
  }

  /** A later message replaces an earlier one with the same id. */
  lemma {:induction false} ByIdLatest(ms: seq<Message>, i: nat)
    requires i < |ms| && forall j :: i < j < |ms| ==> ms[j].id != ms[i].id
    ensures ms[i].id in ById(ms) && ById(ms)[ms[i].id] == ms[i]
  {
    if i < |ms| - 1 {
      ByIdLatest(ms[..|ms| - 1], i);
    }
  }

  // ----- Lineage

  predicate HasParent(byId: map<Id, Message>, id: Id)
    requires id in byId
  {
    byId[id].parent.Some? && byId[id].parent.value in byId
  }

  /** `path` is the lineage of `id`, root first. */
  predicate IsWalk(byId: map<Id, Message>, id: Id, path: seq<Id>)
    decreases |path|
  {
    && |path| > 0
    && path[|path| - 1] == id
    && id in byId
    && if HasParent(byId, id) then IsWalk(byId, byId[id].parent.value, path[..|path| - 1])
       else |path| == 1
  }

  lemma {:induction false} WalkUnique(byId: map<Id, Message>, id: Id, p: seq<Id>, q: seq<Id>)
    requires IsWalk(byId, id, p) && IsWalk(byId, id, q)
    ensures p == q
    decreases |p|
  {
    if HasParent(byId, id) {
      WalkUnique(byId, byId[id].parent.value, p[..|p| - 1], q[..|q| - 1]);
    }
    assert p == p[..|p| - 1] + [id] && q == q[..|q| - 1] + [id];
  }

  /** Following parents from `id` ends. */
  ghost predicate Rooted(byId: map<Id, Message>, id: Id) {
    exists p :: IsWalk(byId, id, p)
  }

  ghost predicate Acyclic(byId: map<Id, Message>) {
    forall id :: id in byId ==> Rooted(byId, id)
  }

  ghost function Path(byId: map<Id, Message>, id: Id): (p: seq<Id>)
    requires Rooted(byId, id)
    ensures IsWalk(byId, id, p)
  {
    var p :| IsWalk(byId, id, p);
    p
  }

  lemma PathStep(byId: map<Id, Message>, id: Id)
    requires Rooted(byId, id)
    ensures id in byId
    ensures HasParent(byId, id) ==>
      Rooted(byId, byId[id].parent.value) && Path(byId, id) == Path(byId, byId[id].parent.value) + [id]
    ensures !HasParent(byId, id) ==> Path(byId, id) == [id]
  {
    var p := Path(byId, id);
    assert p == p[..|p| - 1] + [id];
    if HasParent(byId, id) {
      assert IsWalk(byId, byId[id].parent.value, p[..|p| - 1]);
      WalkUnique(byId, byId[id].parent.value, p[..|p| - 1], Path(byId, byId[id].parent.value));
    }
  }

  lemma RootedChild(byId: map<Id, Message>, id: Id)
    requires id in byId
    requires HasParent(byId, id) ==> Rooted(byId, byId[id].parent.value)
    ensures Rooted(byId, id)
  {
    if HasParent(byId, id) {
      var p := Path(byId, byId[id].parent.value) + [id];
      assert p[..|p| - 1] == Path(byId, byId[id].parent.value);
      assert IsWalk(byId, id, p);
    } else {
      assert IsWalk(byId, id, [id]);
    }
  }

  lemma {:induction false} WalkInDomain(byId: map<Id, Message>, id: Id, p: seq<Id>)
    requires IsWalk(byId, id, p)
    ensures forall x :: x in p ==> x in byId
    decreases |p|
  {
    assert p == p[..|p| - 1] + [id];
    if HasParent(byId, id) {
      WalkInDomain(byId, byId[id].parent.value, p[..|p| - 1]);
    }
  }

  /** Every node on a walk has the walk's prefix up to it as its own lineage. */
  lemma {:induction false} WalkPrefix(byId: map<Id, Message>, id: Id, p: seq<Id>, k: nat)
    requires IsWalk(byId, id, p) && k < |p|
    ensures IsWalk(byId, p[k], p[..k + 1])
    decreases |p|
  {
    if k == |p| - 1 {
      assert p[..k + 1] == p;
    } else {
      WalkPrefix(byId, byId[id].parent.value, p[..|p| - 1], k);
      assert p[..|p| - 1][..k + 1] == p[..k + 1];
    }
  }

  /** A walk visits no message twice, so it is no longer than the journal. */
  lemma {:induction false} WalkNoRepeats(byId: map<Id, Message>, id: Id, p: seq<Id>)
    requires IsWalk(byId, id, p)
    ensures forall i, j :: 0 <= i < j < |p| ==> p[i] != p[j]
    ensures |p| <= |byId|
  {
    forall i, j | 0 <= i < j < |p| ensures p[i] != p[j] {
      WalkPrefix(byId, id, p, i);
      WalkPrefix(byId, id, p, j);
      if p[i] == p[j] {
        WalkUnique(byId, p[i], p[..i + 1], p[..j + 1]);
      }
    }
    WalkInDomain(byId, id, p);
    DistinctBounded(p, byId.Keys);
    assert |byId.Keys| == |byId|;
  }

  /** A list in which nothing occurs twice. */
  ghost predicate NoRepeats(s: seq<string>) {
    forall i, j :: 0 <= i < j < |s| ==> s[i] != s[j]
  }

  lemma {:induction false} DistinctBounded<T>(s: seq<T>, all: set<T>)
    requires forall i, j :: 0 <= i < j < |s| ==> s[i] != s[j]
    requires forall x :: x in s ==> x in all
    ensures |s| <= |all|
  {
    if s != [] {
      var last := s[|s| - 1];
      assert last in all;
      DistinctBounded(s[..|s| - 1], all - {last});
    }
  }

  /** What a lineage reads like. */
  function Reading(byId: map<Id, Message>, path: seq<Id>): (turns: seq<Turn>)
    requires forall x :: x in path ==> x in byId
    ensures |turns| == |path|
    ensures forall i :: 0 <= i < |path| ==> turns[i] == TurnOf(byId[path[i]])
  {
    seq(|path|, i requires 0 <= i < |path| => TurnOf(byId[path[i]]))
  }

  /** The (role, content) sequence from the root down to `id`. */
  ghost function Lineage(byId: map<Id, Message>, id: Id): (turns: seq<Turn>)
    requires Rooted(byId, id)
  {
    WalkInDomain(byId, id, Path(byId, id));
    Reading(byId, Path(byId, id))
  }

  lemma LineageStep(byId: map<Id, Message>, id: Id)
    requires Rooted(byId, id)
    ensures id in byId
    ensures HasParent(byId, id) ==>
      && Rooted(byId, byId[id].parent.value)
      && Lineage(byId, id) == Lineage(byId, byId[id].parent.value) + [TurnOf(byId[id])]
    ensures !HasParent(byId, id) ==> Lineage(byId, id) == [TurnOf(byId[id])]
  {
    PathStep(byId, id);
    WalkInDomain(byId, id, Path(byId, id));
    if HasParent(byId, id) {
      WalkInDomain(byId, byId[id].parent.value, Path(byId, byId[id].parent.value));
    }
  }

  /** A message extends the lineage of its parent by its own turn. */
  lemma LineageExtend(byId: map<Id, Message>, id: Id)
    requires id in byId
    requires HasParent(byId, id) ==> Rooted(byId, byId[id].parent.value)
    ensures Rooted(byId, id)
    ensures HasParent(byId, id) ==>
      Lineage(byId, id) == Lineage(byId, byId[id].parent.value) + [TurnOf(byId[id])]
    ensures !HasParent(byId, id) ==> Lineage(byId, id) == [TurnOf(byId[id])]
  {
    RootedChild(byId, id);
    LineageStep(byId, id);
  }

  // ----- Part of a forest

  /** In a part that holds with each message its parent, a lineage is what it is in the whole. */
  lemma {:induction false} ClosedWalk(part: map<Id, Message>, whole: map<Id, Message>, id: Id, p: seq<Id>)
    requires forall x :: x in part ==>
      x in whole && part[x] == whole[x] && (HasParent(whole, x) ==> whole[x].parent.value in part)
    requires id in part && IsWalk(whole, id, p)
    ensures IsWalk(part, id, p)
    decreases |p|
  {
    if HasParent(whole, id) {
      ClosedWalk(part, whole, whole[id].parent.value, p[..|p| - 1]);
    }
  }

  lemma ClosedLineage(part: map<Id, Message>, whole: map<Id, Message>, id: Id)
    requires forall x :: x in part ==>
      x in whole && part[x] == whole[x] && (HasParent(whole, x) ==> whole[x].parent.value in part)
    requires id in part && Rooted(whole, id)
    ensures Rooted(part, id) && Lineage(part, id) == Lineage(whole, id)
  {
    var p := Path(whole, id);
    ClosedWalk(part, whole, id, p);
    WalkUnique(part, id, p, Path(part, id));
    WalkInDomain(part, id, p);
    WalkInDomain(whole, id, p);
  }

  // ----- Journals in log order

  /** The parent of the i-th message is the virtual root or an earlier message. */
  ghost predicate ParentEarlier(ms: seq<Message>, i: nat)
    requires i < |ms|
  {
    && ms[i].parent.Some?
    && (ms[i].parent.value == VIRTUAL_ROOT || exists j :: 0 <= j < i && ms[j].id == ms[i].parent.value)
  }

  /** Unique, non-empty ids, and every parent the virtual root or an earlier message. */
  ghost predicate OrderedForest(ms: seq<Message>) {
    && UniqueIds(ms)
    && (forall i :: 0 <= i < |ms| ==> ms[i].id != "" && ms[i].id != VIRTUAL_ROOT)
    && (forall i :: 0 <= i < |ms| ==> ParentEarlier(ms, i))
  }

  lemma {:induction false} OrderedForestRooted(ms: seq<Message>, i: nat)
    requires OrderedForest(ms) && i < |ms|
    ensures Rooted(ById(ms), ms[i].id)
  {
    var byId := ById(ms);
    ByIdUnique(ms, ms[i]);
    if HasParent(byId, ms[i].id) {
      assert ms[i].parent.value != VIRTUAL_ROOT;
      assert ParentEarlier(ms, i);
      var j :| 0 <= j < i && ms[j].id == ms[i].parent.value;
      OrderedForestRooted(ms, j);
    }
    RootedChild(byId, ms[i].id);
  }

  lemma OrderedForestAcyclic(ms: seq<Message>)
    requires OrderedForest(ms)
    ensures Acyclic(ById(ms)) && VIRTUAL_ROOT !in ById(ms)
  {
    forall id | id in ById(ms) ensures Rooted(ById(ms), id) {
      var i :| 0 <= i < |ms| && ms[i] == ById(ms)[id];
      OrderedForestRooted(ms, i);
    }
  }

  /** The lineage walk as the journal performs it: follow parents, then reverse. */
  method WalkLineage(byId: map<Id, Message>, head: Id) returns (path: seq<Id>)
    requires head in byId ==> Rooted(byId, head)
    ensures head in byId ==> path == Path(byId, head)
    ensures head !in byId ==> path == []
  {
    path := [];
    var current := if head in byId then Some(head) else None;
    while current.Some?
      invariant current.Some? ==>
        && head in byId
        && Rooted(byId, current.value)
        && Path(byId, current.value) + path == Path(byId, head)
      invariant current.None? ==> path == if head in byId then Path(byId, head) else []
      decreases if current.Some? then |Path(byId, current.value)| + 1 else 0
    {
      PathStep(byId, current.value);
      ghost var before := Path(byId, current.value);
      path := [current.value] + path;
      var parent := byId[current.value].parent;
      current := if parent.Some? && parent.value in byId then parent else None;
      assert current.Some? ==> Path(byId, current.value) + path == before + path[1..];
    }
  }
}
