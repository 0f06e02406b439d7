/**
 Root-divergence salvage: repair of a journal in which a whole subtree was written several
 times under a stale root.

 A candidate names the stale root, the duplicate starts below it (children of the stale root
 that read the same), the start that is selected, and the messages kept below it.  The repair
 maps every duplicate onto its counterpart in the kept subtree, drops the duplicates, hangs
 what diverged from them below the counterparts, makes the selected start a root, and rewrites
 sidecar references.
 */
module Salvage {
  import opened Journal

  datatype Candidate = Candidate(
    staleRoot: Id,
    starts: seq<Id>,
    selected: Id,
    head: Id,
    kept: seq<Id>)

  // ----- Children

  function Filter(ms: seq<Message>, keep: Message -> bool): (r: seq<Message>)
    ensures forall m :: m in r <==> m in ms && keep(m)
  {
    if ms == [] then []
    else
      var last := ms[|ms| - 1];
      assert ms == ms[..|ms| - 1] + [last];
      var r := Filter(ms[..|ms| - 1], keep);
      if keep(last) then r + [last] else r
  }

  /** The messages naming `parent` as their parent, in log order. */
  function Children(ms: seq<Message>, parent: Id): (r: seq<Message>)
    ensures forall m :: m in r <==> m in ms && parent != "" && m.parent == Some(parent)
  {
    Filter(ms, (m: Message) => parent != "" && m.parent == Some(parent))
  }

  /** The children of `parent` that read `turn`. */
  function ChildrenReading(ms: seq<Message>, parent: Id, turn: Turn): (r: seq<Message>)
    ensures forall m :: m in r <==> m in ms && parent != "" && m.parent == Some(parent) && TurnOf(m) == turn
  {
    WithTurn(Children(ms, parent), turn)
  }

  function WithTurn(ms: seq<Message>, turn: Turn): (r: seq<Message>)
    ensures forall m :: m in r <==> m in ms && TurnOf(m) == turn
  {
    Filter(ms, (m: Message) => TurnOf(m) == turn)
  }

  /** No two different messages share an id. */
  ghost predicate Faithful(ms: seq<Message>) {
    forall m :: m in ms ==> ById(ms)[m.id] == m
  }

  /** Messages on which lineages are defined. */
  ghost predicate IsForest(ms: seq<Message>) {
    && Faithful(ms)
    && "" !in ById(ms)
    && VIRTUAL_ROOT !in ById(ms)
    && Acyclic(ById(ms))
  }

  type Forest = ms: seq<Message> | IsForest(ms) ghost witness []

  /** A journal whose parents come first is one. */
  lemma OrderedIsForest(ms: seq<Message>)
    requires OrderedForest(ms)
    ensures IsForest(ms)
  {
    OrderedForestAcyclic(ms);
    forall m | m in ms ensures ById(ms)[m.id] == m {
      ByIdUnique(ms, m);
    }
  }

  /** `id` is `ancestor` or lies below it. */
  ghost predicate Below(ms: Forest, ancestor: Id, id: Id)
    requires id in ById(ms)
  {
    ancestor in Path(ById(ms), id)
  }

  lemma BelowStep(ms: Forest, id: Id)
    requires id in ById(ms)
    ensures Below(ms, id, id)
    ensures HasParent(ById(ms), id) ==>
      forall a :: Below(ms, a, id) <==> a == id || Below(ms, a, ById(ms)[id].parent.value)
    ensures !HasParent(ById(ms), id) ==> forall a :: Below(ms, a, id) <==> a == id
  {
    PathStep(ById(ms), id);
  }

  /** What the repair relies on in a candidate. */
  ghost predicate Divergence(ms: Forest, c: Candidate)
  {
    var byId := ById(ms);
    && c.staleRoot in byId
    && byId[c.staleRoot].parent == Some(VIRTUAL_ROOT)
    && c.selected in c.starts
    && (forall d :: d in c.starts ==> d in byId && byId[d].parent == Some(c.staleRoot))
    && (forall d :: d in c.starts ==> TurnOf(byId[d]) == TurnOf(byId[c.selected]))
    && (forall id :: id in c.kept <==> id in byId && Below(ms, c.selected, id))
  }

  /** A divergence to repair. */
  datatype RepairCase = RepairCase(ms: seq<Message>, c: Candidate)

  ghost predicate IsRepair(r: RepairCase) {
    IsForest(r.ms) && Divergence(r.ms, r.c)
  }

  type Repair = r: RepairCase | IsRepair(r) ghost witness SomeRepair()

  ghost function SomeRepair(): (r: RepairCase)
    ensures IsRepair(r)
  {
    var root := Message("a", Some(VIRTUAL_ROOT), "user", "x", None);
    var start := Message("b", Some("a"), "user", "y", None);
    var ms := [root, start];
    assert ms[..1] == [root] && ms[..0] == [];
    assert ById(ms) == map["a" := root, "b" := start];
    RootedChild(ById(ms), "a");
    RootedChild(ById(ms), "b");
    PathStep(ById(ms), "a");
    PathStep(ById(ms), "b");
    RepairCase(ms, Candidate("a", ["b"], "b", "b", ["b"]))
  }

  // ----- The equivalence map

  /** The only child of `parent` that reads `turn`, if there is exactly one. */
  function UniqueChild(ms: seq<Message>, parent: Id, turn: Turn): Option<Id> {
    var matches := ChildrenReading(ms, parent, turn);
    if |matches| == 1 then Some(matches[0].id) else None
  }

  /** The kept counterpart of a message, if it has one. */
  ghost function Canon(r: Repair, id: Id): Option<Id>
    requires id in ById(r.ms)
    decreases |Path(ById(r.ms), id)|
  {
    var byId := ById(r.ms);
    PathStep(byId, id);
    if Below(r.ms, r.c.selected, id) then Some(id)
    else if id in r.c.starts then Some(r.c.selected)
    else if HasParent(byId, id) then
      match Canon(r, byId[id].parent.value)
      case None => None
      case Some(parent) => UniqueChild(r.ms, parent, TurnOf(byId[id]))
    else None
  }

  ghost predicate Collapsed(r: Repair, id: Id)
    requires id in ById(r.ms)
  {
    Canon(r, id).Some? && Canon(r, id).value != id
  }

  /** The starts sit directly below the stale root, and the stale root has no counterpart. */
  lemma StartPaths(r: Repair, d: Id)
    requires d in r.c.starts
    ensures r.c.staleRoot !in r.c.starts && !Below(r.ms, r.c.selected, r.c.staleRoot)
    ensures forall a :: Below(r.ms, a, d) <==> a == d || a == r.c.staleRoot
    ensures HasParent(ById(r.ms), d) && Canon(r, r.c.staleRoot) == None
    ensures Path(ById(r.ms), d) == [r.c.staleRoot, d]
  {
    BelowStep(r.ms, r.c.staleRoot);
    BelowStep(r.ms, d);
    PathStep(ById(r.ms), r.c.staleRoot);
    PathStep(ById(r.ms), d);
  }

  /** The counterpart is kept, reads the same, and sits below the counterpart of the parent. */
  lemma {:induction false} CanonHomomorphism(r: Repair, id: Id)
    requires id in ById(r.ms)
    requires Canon(r, id).Some?
    ensures var k := Canon(r, id).value; var byId := ById(r.ms);
      && k in byId
      && k in r.c.kept
      && TurnOf(byId[k]) == TurnOf(byId[id])
      && (id in r.c.kept ==> k == id)
      && (id !in r.c.starts ==>
            && HasParent(byId, id)
            && Canon(r, byId[id].parent.value).Some?
            && byId[k].parent == Canon(r, byId[id].parent.value)
            && k != r.c.selected)
    decreases |Path(ById(r.ms), id)|
  {
    var byId := ById(r.ms);
    PathStep(byId, id);
    BelowStep(r.ms, id);
    StartPaths(r, r.c.selected);
    if HasParent(byId, id) {
      var parent := byId[id].parent.value;
      if id !in r.c.starts && !Below(r.ms, r.c.selected, id) {
        CanonHomomorphism(r, parent);
        UniqueChildIsChild(r.ms, Canon(r, parent).value, TurnOf(byId[id]));
      }
    }
  }

  lemma UniqueChildIsChild(ms: Forest, parent: Id, turn: Turn)
    requires parent in ById(ms) && UniqueChild(ms, parent, turn).Some?
    ensures var k := UniqueChild(ms, parent, turn).value;
      && k in ById(ms)
      && ById(ms)[k].parent == Some(parent)
      && TurnOf(ById(ms)[k]) == turn
      && forall a :: Below(ms, a, k) <==> a == k || Below(ms, a, parent)
  {
    var matches := ChildrenReading(ms, parent, turn);
    assert matches[0] in matches;
    BelowStep(ms, matches[0].id);
  }

  /** Applying the map twice changes nothing, and nothing kept is collapsed. */
  lemma CanonIdempotent(r: Repair, id: Id)
    requires id in ById(r.ms)
    ensures Canon(r, id).Some? ==>
      Canon(r, id).value in ById(r.ms) && Canon(r, Canon(r, id).value) == Canon(r, id)
    ensures id in r.c.kept ==> !Collapsed(r, id)
    ensures Collapsed(r, id) ==> exists d :: d in r.c.starts && d != r.c.selected && Below(r.ms, d, id)
  {
    if Canon(r, id).Some? {
      CanonHomomorphism(r, id);
      CanonStart(r, id);
    }
  }

  /** Whatever has a counterpart lies below one of the starts. */
  lemma {:induction false} CanonStart(r: Repair, id: Id)
    requires id in ById(r.ms)
    requires Canon(r, id).Some?
    ensures exists d :: d in r.c.starts && Below(r.ms, d, id) && (d == r.c.selected ==> id in r.c.kept)
    decreases |Path(ById(r.ms), id)|
  {
    BelowStep(r.ms, id);
    PathStep(ById(r.ms), id);
    if Below(r.ms, r.c.selected, id) {
      assert r.c.selected in r.c.starts;
    } else if id !in r.c.starts {
      var parent := ById(r.ms)[id].parent.value;
      CanonStart(r, parent);
      var d :| d in r.c.starts && Below(r.ms, d, parent) && (d == r.c.selected ==> parent in r.c.kept);
      assert Below(r.ms, d, id);
    }
  }

  // ----- The repaired journal

  /** A surviving message: the selected start becomes a root, a branch off a duplicate moves
      to the duplicate's counterpart, everything else is unchanged. */
  ghost function Rewire(r: Repair, m: Message): Message
    requires m in r.ms
  {
    if m.id == r.c.selected then m.(parent := Some(VIRTUAL_ROOT))
    else if m.id in r.c.kept || m.id == r.c.staleRoot || !HasParent(ById(r.ms), m.id) then m
    else
      match Canon(r, m.parent.value)
      case None => m
      case Some(parent) => m.(parent := Some(parent))
  }

  ghost function RepairedById(r: Repair): map<Id, Message>
  {
    map id | id in ById(r.ms) && !Collapsed(r, id) :: Rewire(r, ById(r.ms)[id])
  }

  /** The lineage of `id` goes through one of the duplicate starts. */
  ghost predicate ThroughStart(r: Repair, id: Id)
    requires id in ById(r.ms)
  {
    exists d :: d in r.c.starts && Below(r.ms, d, id)
  }

  lemma RepairedEntry(r: Repair, id: Id)
    requires id in ById(r.ms) && !Collapsed(r, id)
    ensures var repaired := RepairedById(r);
      && id in repaired
      && VIRTUAL_ROOT !in repaired
      && repaired[id] == Rewire(r, ById(r.ms)[id])
      && TurnOf(repaired[id]) == TurnOf(ById(r.ms)[id])
  {
  }

  /** In the repaired journal the counterpart of a message reads as the message did before,
      without the stale root. */
  lemma {:induction false} CanonLineage(r: Repair, id: Id)
    requires id in ById(r.ms)
    requires Canon(r, id).Some?
    ensures Rooted(RepairedById(r), Canon(r, id).value)
    ensures Lineage(RepairedById(r), Canon(r, id).value) == Lineage(ById(r.ms), id)[1..]
    decreases |Path(ById(r.ms), id)|
  {
    PathStep(ById(r.ms), id);
    if id in r.c.starts {
      StartLineage(r, id);
    } else {
      CanonHomomorphism(r, id);
      CanonLineage(r, ById(r.ms)[id].parent.value);
      CanonLineageStep(r, id);
    }
  }

  lemma StartLineage(r: Repair, id: Id)
    requires id in r.c.starts
    ensures Canon(r, id) == Some(r.c.selected)
    ensures Rooted(RepairedById(r), r.c.selected)
    ensures Lineage(RepairedById(r), r.c.selected) == Lineage(ById(r.ms), id)[1..]
  {
    StartPaths(r, id);
    LineageStep(ById(r.ms), id);
    LineageStep(ById(r.ms), r.c.staleRoot);
    BelowStep(r.ms, r.c.selected);
    RepairedEntry(r, r.c.selected);
    LineageExtend(RepairedById(r), r.c.selected);
  }

  lemma CanonLineageStep(r: Repair, id: Id)
    requires id in ById(r.ms) && id !in r.c.starts
    requires Canon(r, id).Some? && HasParent(ById(r.ms), id)
    requires var parent := ById(r.ms)[id].parent.value;
      && Canon(r, parent).Some?
      && Rooted(RepairedById(r), Canon(r, parent).value)
      && Lineage(RepairedById(r), Canon(r, parent).value) == Lineage(ById(r.ms), parent)[1..]
    ensures Rooted(RepairedById(r), Canon(r, id).value)
    ensures Lineage(RepairedById(r), Canon(r, id).value) == Lineage(ById(r.ms), id)[1..]
  {
    hide Filter, ById;
    var k := Canon(r, id).value;
    CanonHomomorphism(r, id);
    CanonIdempotent(r, k);
    RepairedEntry(r, k);
    LineageStep(ById(r.ms), id);
    PathStep(ById(r.ms), ById(r.ms)[id].parent.value);
    PathStep(RepairedById(r), Canon(r, ById(r.ms)[id].parent.value).value);
    LineageExtend(RepairedById(r), k);
  }

  /** What the repair leaves of a lineage. */
  ghost function Expected(r: Repair, id: Id): seq<Turn>
    requires id in ById(r.ms)
  {
    PathStep(ById(r.ms), id);
    if ThroughStart(r, id) then Lineage(ById(r.ms), id)[1..] else Lineage(ById(r.ms), id)
  }

  /** In the repaired journal `id` reads `turns`. */
  ghost predicate Reads(r: Repair, id: Id, turns: seq<Turn>)
  {
    Rooted(RepairedById(r), id) && Lineage(RepairedById(r), id) == turns
  }

  /** Salvage preserves meaning: every surviving message reads as before, without the stale
      root exactly when its lineage went through a duplicate start.  In particular the repaired
      parent relation has no cycle. */
  lemma {:induction false} SalvagePreservesLineage(r: Repair, id: Id)
    requires id in ById(r.ms) && !Collapsed(r, id)
    ensures Reads(r, id, Expected(r, id))
    decreases |Path(ById(r.ms), id)|
  {
    var byId := ById(r.ms);
    PathStep(byId, id);
    if id in r.c.kept {
      CanonLineage(r, id);
      assert r.c.selected in r.c.starts && Below(r.ms, r.c.selected, id);
    } else if !HasParent(byId, id) {
      RootLineage(r, id);
    } else {
      if Canon(r, byId[id].parent.value).Some? {
        CanonLineage(r, byId[id].parent.value);
      } else {
        SalvagePreservesLineage(r, byId[id].parent.value);
      }
      ChildLineage(r, id);
    }
  }

  lemma RootLineage(r: Repair, id: Id)
    requires id in ById(r.ms) && !Collapsed(r, id)
    requires id !in r.c.kept && !HasParent(ById(r.ms), id)
    ensures Reads(r, id, Expected(r, id))
  {
    hide Filter, ById;
    BelowStep(r.ms, id);
    if d :| d in r.c.starts && Below(r.ms, d, id) {
      StartPaths(r, d);
    }
    BelowStep(r.ms, r.c.selected);
    RepairedEntry(r, id);
    LineageStep(ById(r.ms), id);
    LineageExtend(RepairedById(r), id);
  }

  /** Outside the kept subtree, a survivor's lineage is touched as its parent's is. */
  lemma ChildExpected(r: Repair, id: Id)
    requires id in ById(r.ms) && !Collapsed(r, id)
    requires id !in r.c.kept && HasParent(ById(r.ms), id)
    ensures Expected(r, id) == Expected(r, ById(r.ms)[id].parent.value) + [TurnOf(ById(r.ms)[id])]
    ensures id != r.c.selected
  {
    hide Filter, ById;
    var parent := ById(r.ms)[id].parent.value;
    BelowStep(r.ms, id);
    BelowStep(r.ms, r.c.selected);
    assert id !in r.c.starts;
    assert forall d :: d in r.c.starts ==> (Below(r.ms, d, id) <==> Below(r.ms, d, parent));
    assert ThroughStart(r, id) <==> ThroughStart(r, parent);
    LineageStep(ById(r.ms), id);
    PathStep(ById(r.ms), parent);
    assert |Lineage(ById(r.ms), parent)| > 0;
  }

  lemma ChildLineage(r: Repair, id: Id)
    requires id in ById(r.ms) && !Collapsed(r, id)
    requires id !in r.c.kept && HasParent(ById(r.ms), id)
    requires var parent := ById(r.ms)[id].parent.value;
      match Canon(r, parent)
      case None => Reads(r, parent, Expected(r, parent))
      case Some(k) => Reads(r, k, Lineage(ById(r.ms), parent)[1..])
    ensures Reads(r, id, Expected(r, id))
  {
    var parent := ById(r.ms)[id].parent.value;
    ChildExpected(r, id);
    RepairedEntry(r, id);
    if Canon(r, parent).Some? {
      CanonStart(r, parent);
      assert ThroughStart(r, parent);
      PathStep(RepairedById(r), Canon(r, parent).value);
    } else {
      PathStep(RepairedById(r), parent);
    }
    LineageExtend(RepairedById(r), id);
  }

  // ----- Walking a subtree

  function IdsOf(ms: seq<Message>): (ids: seq<Id>)
    ensures |ids| == |ms|
    ensures forall i :: 0 <= i < |ms| ==> ids[i] == ms[i].id
  {
    seq(|ms|, i requires 0 <= i < |ms| => ms[i].id)
  }

  function ChildIds(ms: seq<Message>, id: Id): seq<Id> {
    IdsOf(Children(ms, id))
  }

  /** Below a message other than itself means below one of its children. */
  lemma {:induction false} BelowChild(ms: Forest, id: Id, x: Id) returns (child: Message)
    requires id in ById(ms) && x in ById(ms) && Below(ms, id, x) && x != id
    ensures child in Children(ms, id) && child.id in ById(ms) && Below(ms, child.id, x)
    decreases |Path(ById(ms), x)|
  {
    var byId := ById(ms);
    PathStep(byId, x);
    BelowStep(ms, x);
    var parent := byId[x].parent.value;
    if parent == id {
      child := byId[x];
    } else {
      child := BelowChild(ms, id, parent);
    }
  }

  lemma ChildDepth(ms: Forest, id: Id, child: Message)
    requires id in ById(ms) && child in Children(ms, id)
    ensures child.id in ById(ms) && ById(ms)[child.id] == child
    ensures HasParent(ById(ms), child.id) && ById(ms)[child.id].parent == Some(id)
    ensures |Path(ById(ms), id)| < |Path(ById(ms), child.id)| <= |ById(ms)|
    ensures forall a :: Below(ms, a, child.id) <==> a == child.id || Below(ms, a, id)
  {
    BelowStep(ms, child.id);
    PathStep(ById(ms), child.id);
    WalkNoRepeats(ById(ms), child.id, Path(ById(ms), child.id));
  }

  ghost function Subtree(ms: Forest, id: Id): set<Id>
  {
    set x | x in ById(ms) && Below(ms, id, x)
  }

  ghost function Subtrees(ms: Forest, roots: seq<Id>): set<Id>
  {
    if roots == [] then {}
    else Subtrees(ms, roots[..|roots| - 1]) + Subtree(ms, roots[|roots| - 1])
  }

  lemma SubtreesSnoc(ms: Forest, roots: seq<Id>, i: nat)
    requires i < |roots|
    ensures Subtrees(ms, roots[..i + 1]) == Subtrees(ms, roots[..i]) + Subtree(ms, roots[i])
  {
    assert roots[..i + 1][..i] == roots[..i];
  }

  lemma {:induction false} SubtreesMember(ms: Forest, roots: seq<Id>, x: Id)
    ensures x in Subtrees(ms, roots) <==> exists r :: r in roots && x in Subtree(ms, r)
  {
    if roots != [] {
      var last := roots[|roots| - 1];
      assert roots == roots[..|roots| - 1] + [last];
      SubtreesMember(ms, roots[..|roots| - 1], x);
    }
  }

  lemma BelowIsSubtrees(ms: Forest, id: Id, x: Id)
    requires id in ById(ms) && x in ById(ms) && x != id && Below(ms, id, x)
    ensures x in Subtrees(ms, ChildIds(ms, id))
  {
    hide Filter, ById;
    var child := BelowChild(ms, id, x);
    var i :| 0 <= i < |Children(ms, id)| && Children(ms, id)[i] == child;
    assert ChildIds(ms, id)[i] == child.id;
    assert child.id in ChildIds(ms, id) && x in Subtree(ms, child.id);
    SubtreesMember(ms, ChildIds(ms, id), x);
  }

  lemma SubtreesIsBelow(ms: Forest, id: Id, x: Id)
    requires id in ById(ms) && x in Subtrees(ms, ChildIds(ms, id))
    ensures x in ById(ms) && Below(ms, id, x)
  {
    hide Filter, ById;
    SubtreesMember(ms, ChildIds(ms, id), x);
    var i :| 0 <= i < |ChildIds(ms, id)| && x in Subtree(ms, ChildIds(ms, id)[i]);
    ChildDepth(ms, id, Children(ms, id)[i]);
    BelowStep(ms, id);
    BelowTransitive(ms, id, ChildIds(ms, id)[i], x);
  }

  /** A subtree is its top and the subtrees of the children. */
  lemma SubtreeSplit(ms: Forest, id: Id)
    requires id in ById(ms)
    ensures Subtree(ms, id) == {id} + Subtrees(ms, ChildIds(ms, id))
  {
    BelowStep(ms, id);
    forall x | x in Subtree(ms, id) && x != id ensures x in Subtrees(ms, ChildIds(ms, id)) {
      BelowIsSubtrees(ms, id, x);
    }
    forall x | x in Subtrees(ms, ChildIds(ms, id)) ensures x in Subtree(ms, id) {
      SubtreesIsBelow(ms, id, x);
    }
  }

  /** The ids at or below `start`, gathered by walking down the children. */
  method DescendantWalk(ms: Forest, start: Id, ids0: set<Id>) returns (ids: set<Id>)
    requires start in ById(ms)
    ensures ids == ids0 + Subtree(ms, start)
    decreases |ById(ms)| - |Path(ById(ms), start)|
  {
    SubtreeSplit(ms, start);
    ids := ids0 + {start};
    var children := ChildIds(ms, start);
    for i := 0 to |children|
      invariant ids == ids0 + {start} + Subtrees(ms, children[..i])
    {
      ChildDepth(ms, start, Children(ms, start)[i]);
      ids := DescendantWalk(ms, children[i], ids);
      SubtreesSnoc(ms, children, i);
    }
    assert children[..|children|] == children;
  }

  lemma {:induction false} BelowTransitive(ms: Forest, a: Id, b: Id, x: Id)
    requires b in ById(ms) && x in ById(ms)
    requires Below(ms, a, b) && Below(ms, b, x)
    ensures Below(ms, a, x)
    decreases |Path(ById(ms), x)|
  {
    PathStep(ById(ms), x);
    BelowStep(ms, x);
    if x != b {
      BelowTransitive(ms, a, b, ById(ms)[x].parent.value);
    }
  }

  /** The messages whose ids are in `ids`, in log order. */
  function InLogOrder(ms: seq<Message>, ids: set<Id>): (r: seq<Message>)
    ensures forall m :: m in r <==> m in ms && m.id in ids
  {
    Filter(ms, (m: Message) => m.id in ids)
  }

  lemma InLogOrderIds(ms: seq<Message>, ids: set<Id>)
    requires ids <= ById(ms).Keys
    ensures forall id :: id in IdsOf(InLogOrder(ms, ids)) <==> id in ids
  {
    var picked := InLogOrder(ms, ids);
    forall id | id in ids ensures id in IdsOf(picked) {
      assert ById(ms)[id] in picked;
      var i :| 0 <= i < |picked| && picked[i] == ById(ms)[id];
      assert IdsOf(picked)[i] == id;
    }
    forall id | id in IdsOf(picked) ensures id in ids {
      var i :| 0 <= i < |picked| && IdsOf(picked)[i] == id;
      assert picked[i] in picked;
    }
  }

  /** The subtree at `start`, in log order. */
  method DescendantIds(ms: Forest, start: Id) returns (kept: seq<Id>)
    requires start in ById(ms)
    ensures kept == IdsOf(InLogOrder(ms, Subtree(ms, start)))
    ensures forall id :: id in kept <==> id in Subtree(ms, start)
  {
    var ids := DescendantWalk(ms, start, {});
    assert ids == Subtree(ms, start);
    InLogOrderIds(ms, ids);
    kept := IdsOf(InLogOrder(ms, ids));
  }

  // ----- Building the equivalence map

  /** Every entry of the map names the counterpart of its key. */
  ghost predicate Agrees(r: Repair, eq: map<Id, Id>)
  {
    forall id :: id in eq ==> id in ById(r.ms) && Canon(r, id) == Some(eq[id])
  }

  lemma KeptChild(r: Repair, id: Id, child: Message)
    requires id in ById(r.ms) && Canon(r, id).Some? && child in Children(r.ms, id)
    ensures child.id in ById(r.ms) && (child.id in r.c.kept <==> id in r.c.kept)
    ensures child.id !in r.c.starts
  {
    ChildDepth(r.ms, id, child);
    StartPaths(r, r.c.selected);
  }

  lemma OnlyMatch(ms: Forest, id: Id, child: Message)
    requires id in ById(ms) && child in Children(ms, id) && UniqueChild(ms, id, TurnOf(child)).Some?
    ensures UniqueChild(ms, id, TurnOf(child)) == Some(child.id)
  {
    hide Filter, ById;
    assert child in ChildrenReading(ms, id, TurnOf(child));
  }

  lemma {:induction false} NoCanonBelow(r: Repair, child: Id, x: Id)
    requires child in ById(r.ms) && x in ById(r.ms)
    requires HasParent(ById(r.ms), child) && Canon(r, child).None? && Below(r.ms, child, x)
    ensures Canon(r, x).None?
    decreases |Path(ById(r.ms), x)|
  {
    PathStep(ById(r.ms), x);
    BelowStep(r.ms, x);
    BelowStep(r.ms, child);
    StartPaths(r, r.c.selected);
    if x != child {
      NoCanonBelow(r, child, ById(r.ms)[x].parent.value);
    }
    if Below(r.ms, r.c.selected, x) {
      BothOnPath(r.ms, r.c.selected, child, x);
    } else if x in r.c.starts {
      StartPaths(r, x);
    }
  }

  /** Of two messages on one lineage, one is below the other. */
  lemma {:induction false} BothOnPath(ms: Forest, a: Id, b: Id, x: Id)
    requires a in ById(ms) && b in ById(ms) && x in ById(ms)
    requires Below(ms, a, x) && Below(ms, b, x)
    ensures Below(ms, a, b) || Below(ms, b, a)
    decreases |Path(ById(ms), x)|
  {
    PathStep(ById(ms), x);
    BelowStep(ms, x);
    if a != x && b != x {
      BothOnPath(ms, a, b, ById(ms)[x].parent.value);
    }
  }

  /** What matching a child against the counterpart's children decides. */
  lemma ChildCounterpart(r: Repair, id: Id, child: Message)
    requires id in ById(r.ms) && Canon(r, id).Some?
    requires child in Children(r.ms, id)
    ensures child.id in ById(r.ms) && HasParent(ById(r.ms), child.id)
    ensures |Path(ById(r.ms), id)| < |Path(ById(r.ms), child.id)| <= |ById(r.ms)|
    ensures var counterpart := UniqueChild(r.ms, Canon(r, id).value, TurnOf(child));
      if counterpart.Some? then Canon(r, child.id) == counterpart
      else child.id in r.c.kept || Canon(r, child.id).None?
  {
    ChildDepth(r.ms, id, child);
    KeptChild(r, id, child);
    if id in r.c.kept && UniqueChild(r.ms, id, TurnOf(child)).Some? {
      OnlyMatch(r.ms, id, child);
    }
  }

  /** Maps a duplicate subtree onto its counterpart, as far down as the children match. */
  method MapDuplicateSubtree(r: Repair, id: Id, canonical: Id, eq0: map<Id, Id>) returns (eq: map<Id, Id>)
    requires id in ById(r.ms) && Canon(r, id) == Some(canonical)
    requires Agrees(r, eq0) && MapsKept(r, eq0)
    ensures Agrees(r, eq) && eq0.Keys <= eq.Keys
    ensures Covered(r, Subtree(r.ms, id), eq)
    decreases |ById(r.ms)| - |Path(ById(r.ms), id)|
  {
    hide Filter, ById, Canon, UniqueChild, Children, Subtrees, Subtree, MapsKept, Covered, Agrees;
    eq := eq0[id := canonical];
    MapsMore(r, eq0, id, canonical);
    var children := Children(r.ms, id);
    NothingCovered(r, IdsOf(children), eq);
    for i := 0 to |children|
      invariant Agrees(r, eq) && MapsKept(r, eq) && eq0.Keys + {id} <= eq.Keys
      invariant Covered(r, Subtrees(r.ms, IdsOf(children)[..i]), eq)
    {
      ChildCounterpart(r, id, children[i]);
      var counterpart := UniqueChild(r.ms, canonical, TurnOf(children[i]));
      var next := eq;
      if counterpart.Some? {
        next := MapDuplicateSubtree(r, children[i].id, counterpart.value, eq);
      } else {
        NothingToMap(r, children[i].id, eq);
      }
      CoveredSnoc(r, IdsOf(children), i, eq, next);
      MapsStill(r, eq, next);
      eq := next;
    }
    assert IdsOf(children)[..|children|] == ChildIds(r.ms, id);
    SubtreeCovered(r, id, eq);
  }

  lemma MapsMore(r: Repair, eq: map<Id, Id>, id: Id, canonical: Id)
    requires id in ById(r.ms) && Canon(r, id) == Some(canonical) && Agrees(r, eq) && MapsKept(r, eq)
    ensures Agrees(r, eq[id := canonical]) && MapsKept(r, eq[id := canonical])
  {
    hide ById, Canon;
  }

  lemma MapsStill(r: Repair, eq: map<Id, Id>, next: map<Id, Id>)
    requires MapsKept(r, eq) && eq.Keys <= next.Keys
    ensures MapsKept(r, next)
  {
  }

  lemma NothingCovered(r: Repair, roots: seq<Id>, eq: map<Id, Id>)
    ensures Covered(r, Subtrees(r.ms, roots[..0]), eq)
  {
  }

  lemma SubtreeCovered(r: Repair, id: Id, eq: map<Id, Id>)
    requires id in ById(r.ms) && id in eq && Covered(r, Subtrees(r.ms, ChildIds(r.ms, id)), eq)
    ensures Covered(r, Subtree(r.ms, id), eq)
  {
    SubtreeSplit(r.ms, id);
  }

  ghost predicate MapsKept(r: Repair, eq: map<Id, Id>) {
    forall k :: k in r.c.kept ==> k in eq
  }

  /** Every id of `ids` that has a counterpart is in the map. */
  ghost predicate Covered(r: Repair, ids: set<Id>, eq: map<Id, Id>)
  {
    forall x :: x in ids && x in ById(r.ms) && Canon(r, x).Some? ==> x in eq
  }

  lemma CoveredSnoc(r: Repair, roots: seq<Id>, i: nat, eq: map<Id, Id>, next: map<Id, Id>)
    requires i < |roots| && eq.Keys <= next.Keys
    requires Covered(r, Subtrees(r.ms, roots[..i]), eq)
    requires Covered(r, Subtree(r.ms, roots[i]), next)
    ensures Covered(r, Subtrees(r.ms, roots[..i + 1]), next)
  {
    SubtreesSnoc(r.ms, roots, i);
  }

  lemma NothingToMap(r: Repair, child: Id, eq: map<Id, Id>)
    requires child in ById(r.ms) && HasParent(ById(r.ms), child)
    requires child in r.c.kept || Canon(r, child).None?
    requires MapsKept(r, eq)
    ensures Covered(r, Subtree(r.ms, child), eq)
  {
    forall x | x in Subtree(r.ms, child) && Canon(r, x).Some? ensures x in eq {
      if child in r.c.kept {
        BelowTransitive(r.ms, r.c.selected, child, x);
      } else {
        NoCanonBelow(r, child, x);
      }
    }
  }

  ghost function EquivalenceMap(r: Repair): map<Id, Id>
  {
    map id | id in ById(r.ms) && Canon(r, id).Some? :: Canon(r, id).value
  }

  lemma StartCanon(r: Repair, d: Id)
    requires d in r.c.starts
    ensures Canon(r, d) == Some(r.c.selected)
  {
    StartPaths(r, d);
  }

  lemma AllCovered(r: Repair, eq: map<Id, Id>)
    requires Agrees(r, eq) && Covered(r, Subtrees(r.ms, r.c.starts), eq)
    ensures eq == EquivalenceMap(r)
  {
    forall id | id in ById(r.ms) && Canon(r, id).Some? ensures id in eq {
      CanonStart(r, id);
      var d :| d in r.c.starts && Below(r.ms, d, id);
      assert id in Subtree(r.ms, d);
      SubtreesMember(r.ms, r.c.starts, id);
    }
  }

  /** The positions of the messages logged under `parent` that read `turn`. */
  function MatchesAt(ms: seq<Message>, parent: Id, turn: Turn): set<nat> {
    set i | 0 <= i < |ms| && ms[i].parent == Some(parent) && TurnOf(ms[i]) == turn
  }

  /** An id that is neither a start nor kept is mapped exactly when its parent is and exactly one
      message is logged under the parent's image that reads as it does; it is mapped to that one. */
  ghost predicate MapsBelow(r: Repair, eq: map<Id, Id>, id: Id)
    requires id in ById(r.ms)
  {
    var m := ById(r.ms)[id];
    && (id in eq <==>
          && m.parent.Some?
          && m.parent.value in eq
          && |MatchesAt(r.ms, eq[m.parent.value], TurnOf(m))| == 1)
    && (id in eq ==>
          && m.parent.Some?
          && m.parent.value in eq
          && forall i :: i in MatchesAt(r.ms, eq[m.parent.value], TurnOf(m)) ==> eq[id] == r.ms[i].id)
  }

  /** Every start is mapped to the selected one, every kept id to itself, and the others by matching
      down from them. */
  ghost predicate IsEquivalence(r: Repair, eq: map<Id, Id>) {
    && (forall id :: id in eq ==> id in ById(r.ms))
    && (forall d :: d in r.c.starts ==> d in eq && eq[d] == r.c.selected)
    && (forall k :: k in r.c.kept ==> k in eq && eq[k] == k)
    && (forall id :: id in ById(r.ms) && id !in r.c.starts && id !in r.c.kept ==> MapsBelow(r, eq, id))
  }

  lemma FilterLast(ms: seq<Message>, keep: Message -> bool)
    requires ms != []
    ensures var n := |ms| - 1;
      |Filter(ms, keep)| == |Filter(ms[..n], keep)| + if keep(ms[n]) then 1 else 0
  {
  }

  lemma CountLast(ms: seq<Message>, keep: Message -> bool)
    requires ms != []
    ensures var n := |ms| - 1;
      |set i | 0 <= i < |ms| && keep(ms[i])| ==
        |set i | 0 <= i < n && keep(ms[..n][i])| + if keep(ms[n]) then 1 else 0
  {
    var n := |ms| - 1;
    var before := set i | 0 <= i < n && keep(ms[..n][i]);
    assert (set i | 0 <= i < |ms| && keep(ms[i])) == if keep(ms[n]) then before + {n} else before;
  }

  lemma {:induction false} FilterCount(ms: seq<Message>, keep: Message -> bool)
    ensures |Filter(ms, keep)| == |set i | 0 <= i < |ms| && keep(ms[i])|
  {
    hide Filter;
    if ms == [] {
      FilterNone(ms, keep);
    } else {
      FilterCount(ms[..|ms| - 1], keep);
      FilterLast(ms, keep);
      CountLast(ms, keep);
    }
  }

  lemma FilterNone(ms: seq<Message>, keep: Message -> bool)
    requires ms == []
    ensures Filter(ms, keep) == []
  {
  }

  lemma FilterBoth(ms: seq<Message>, first: Message -> bool, second: Message -> bool)
    ensures Filter(Filter(ms, first), second) == Filter(ms, m => first(m) && second(m))
  {
    if ms != [] {
      var n := |ms| - 1;
      FilterBoth(ms[..n], first, second);
      var before := Filter(ms[..n], first);
      if first(ms[n]) {
        assert (before + [ms[n]])[..|before|] == before;
      }
    }
  }

  lemma ReadingCount(ms: seq<Message>, parent: Id, turn: Turn)
    requires parent != ""
    ensures |ChildrenReading(ms, parent, turn)| == |MatchesAt(ms, parent, turn)|
  {
    var first := (m: Message) => parent != "" && m.parent == Some(parent);
    var second := (m: Message) => TurnOf(m) == turn;
    assert ChildrenReading(ms, parent, turn) == Filter(Filter(ms, first), second);
    FilterBoth(ms, first, second);
    var both := (m: Message) => first(m) && second(m);
    assert Filter(ms, both) == Filter(ms, m => first(m) && second(m));
    FilterCount(ms, both);
    assert MatchesAt(ms, parent, turn) == set i | 0 <= i < |ms| && both(ms[i]);
  }

  /** The one child that reads `turn`, by position. */
  lemma UniqueByPosition(ms: seq<Message>, parent: Id, turn: Turn)
    requires parent != ""
    ensures UniqueChild(ms, parent, turn).Some? <==> |MatchesAt(ms, parent, turn)| == 1
    ensures UniqueChild(ms, parent, turn).Some? ==>
      forall i :: i in MatchesAt(ms, parent, turn) ==> UniqueChild(ms, parent, turn).value == ms[i].id
  {
    hide Filter;
    ReadingCount(ms, parent, turn);
    var children := ChildrenReading(ms, parent, turn);
    if |children| == 1 {
      forall i | i in MatchesAt(ms, parent, turn) ensures children[0].id == ms[i].id {
        assert ms[i] in children;
      }
    }
  }

  lemma MapIsEquivalence(r: Repair)
    ensures IsEquivalence(r, EquivalenceMap(r))
  {
    hide ById, Filter, UniqueChild, MatchesAt, Canon, MapsBelow;
    var eq := EquivalenceMap(r);
    forall d | d in r.c.starts ensures d in eq && eq[d] == r.c.selected {
      StartCanon(r, d);
    }
    forall k | k in r.c.kept ensures k in eq && eq[k] == k {
      CanonOfKept(r, k);
    }
    forall id | id in ById(r.ms) && id !in r.c.starts && id !in r.c.kept ensures MapsBelow(r, eq, id) {
      CanonBelow(r, id);
    }
  }

  lemma CanonOfKept(r: Repair, k: Id)
    requires k in r.c.kept
    ensures k in ById(r.ms) && Canon(r, k) == Some(k)
  {
    hide ById, Filter;
  }

  lemma KeptAgrees(r: Repair)
    ensures Agrees(r, map id | id in r.c.kept :: id)
  {
    hide ById, Filter, Canon;
    forall k | k in r.c.kept ensures k in ById(r.ms) && Canon(r, k) == Some(k) {
      CanonOfKept(r, k);
    }
  }

  lemma CanonBelow(r: Repair, id: Id)
    requires id in ById(r.ms) && id !in r.c.starts && id !in r.c.kept
    ensures MapsBelow(r, EquivalenceMap(r), id)
  {
    hide ById, Filter, UniqueChild, MatchesAt;
    var m := ById(r.ms)[id];
    if HasParent(ById(r.ms), id) && Canon(r, m.parent.value).Some? {
      var image := Canon(r, m.parent.value).value;
      CanonHomomorphism(r, m.parent.value);
      UniqueByPosition(r.ms, image, TurnOf(m));
    }
  }

  /** There is only one such map. */
  lemma EquivalenceUnique(r: Repair, a: map<Id, Id>, b: map<Id, Id>)
    requires IsEquivalence(r, a) && IsEquivalence(r, b)
    ensures a == b
  {
    hide ById, MatchesAt;
    forall id | id in ById(r.ms) ensures (id in a <==> id in b) && (id in a ==> a[id] == b[id]) {
      SameImage(r, a, b, id);
    }
  }

  lemma {:induction false} SameImage(r: Repair, a: map<Id, Id>, b: map<Id, Id>, id: Id)
    requires IsEquivalence(r, a) && IsEquivalence(r, b) && id in ById(r.ms)
    ensures (id in a <==> id in b) && (id in a ==> a[id] == b[id])
    decreases |Path(ById(r.ms), id)|
  {
    hide ById, MatchesAt;
    var m := ById(r.ms)[id];
    PathStep(ById(r.ms), id);
    if id !in r.c.starts && id !in r.c.kept {
      assert MapsBelow(r, a, id) && MapsBelow(r, b, id);
      if m.parent.Some? && m.parent.value in ById(r.ms) {
        SameImage(r, a, b, m.parent.value);
        if id in a {
          var i :| i in MatchesAt(r.ms, a[m.parent.value], TurnOf(m));
        }
      }
    }
  }

  /** The map the repair works with is exactly "has this counterpart". */
  method BuildEquivalenceMap(r: Repair) returns (eq: map<Id, Id>)
    ensures eq == EquivalenceMap(r)
    ensures IsEquivalence(r, eq)
  {
    hide ById, Filter, IsEquivalence, Canon, Subtrees;
    MapIsEquivalence(r);
    NothingCovered(r, r.c.starts, map id | id in r.c.kept :: id);
    KeptAgrees(r);
    eq := map id | id in r.c.kept :: id;
    for i := 0 to |r.c.starts|
      invariant Agrees(r, eq) && MapsKept(r, eq)
      invariant Covered(r, Subtrees(r.ms, r.c.starts[..i]), eq)
    {
      StartCanon(r, r.c.starts[i]);
      var next := MapDuplicateSubtree(r, r.c.starts[i], r.c.selected, eq);
      CoveredSnoc(r, r.c.starts, i, eq, next);
      MapsStill(r, eq, next);
      eq := next;
    }
    assert r.c.starts[..|r.c.starts|] == r.c.starts;
    AllCovered(r, eq);
  }
}
