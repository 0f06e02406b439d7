/**
 Journals in which a second salvage loses a message.

 The first salvage hangs what diverged from a duplicate below a counterpart that is logged later.
 The second one, of another root, passes the diverging message before that parent is preserved.
 */
module SalvageTwice {
  import opened Journal
  import opened Text
  import opened Salvage
  import opened SalvageRepair
  import opened SalvageCandidates

  /** Two roots, 0 and 3, each with two children that read the same but not as the root does, 1 and
      2, and 4 and 6; message 5 diverges below the earlier child 4.  The ids of the later children
      decide that the second root is repaired first. */
  ghost predicate TwoDivergences(ms: seq<Message>) {
    && |ms| == 7
    && UniqueIds(ms)
    && (forall i :: 0 <= i < 7 ==> ms[i].id != "" && ms[i].id != VIRTUAL_ROOT)
    && ms[0].parent == ms[3].parent == Some(VIRTUAL_ROOT)
    && ms[1].parent == ms[2].parent == Some(ms[0].id)
    && ms[4].parent == ms[6].parent == Some(ms[3].id)
    && ms[5].parent == Some(ms[4].id)
    && TurnOf(ms[1]) == TurnOf(ms[2]) != TurnOf(ms[0])
    && TurnOf(ms[4]) == TurnOf(ms[6]) != TurnOf(ms[3])
    && StringLess(ms[2].id, ms[6].id)
  }

  /** There are such journals. */
  lemma SomeTwoDivergences() returns (ms: seq<Message>)
    ensures TwoDivergences(ms)
    ensures TurnOf(ms[0]) != TurnOf(ms[1]) && TurnOf(ms[3]) != TurnOf(ms[4])
  {
    var parents: seq<Id> := [VIRTUAL_ROOT, "a", "a", VIRTUAL_ROOT, "d", "e", "d"];
    var contents := ["B", "p", "p", "A", "q", "x", "q"];
    ms := seq(7, i requires 0 <= i < 7 => Message(['a' + i as char], Some(parents[i]), "user", contents[i], None));
    assert forall i :: 0 <= i < 7 ==> ms[i].id[0] == 'a' + i as char;
    assert |VIRTUAL_ROOT| == 2;
    assert contents[0][0] == 'B' && contents[1][0] == 'p' && contents[3][0] == 'A' && contents[4][0] == 'q';
  }

  /** The second root is repaired: 4 is gone, and 5 hangs below 6, which comes after it. */
  ghost function AfterFirst(ms: seq<Message>): (after: seq<Message>)
    requires |ms| == 7
    ensures |after| == 6
    ensures after[4] == ms[5].(parent := Some(ms[6].id)) && after[5] == ms[6].(parent := Some(VIRTUAL_ROOT))
    ensures forall i :: 0 <= i < 4 ==> after[i] == ms[i]
  {
    ms[..4] + [ms[5].(parent := Some(ms[6].id)), ms[6].(parent := Some(VIRTUAL_ROOT))]
  }

  /** The repair of two children a and b of a root p that read the same, b being a leaf. */
  ghost function PairCase(ms: seq<Message>, p: nat, a: nat, b: nat): RepairCase
    requires p < |ms| && a < |ms| && b < |ms|
  {
    RepairCase(ms, Candidate(ms[p].id, [ms[a].id, ms[b].id], ms[b].id, ms[b].id, [ms[b].id]))
  }

  ghost function FirstCase(ms: seq<Message>): RepairCase
    requires |ms| == 7
  {
    PairCase(ms, 3, 4, 6)
  }

  ghost function SecondCase(ms: seq<Message>): RepairCase
    requires |ms| > 2
  {
    PairCase(ms, 0, 1, 2)
  }

  // ----- Leaves and roots

  /** Nothing lies below a message that is nobody's parent. */
  lemma NothingBelowLeaf(ms: Forest, leaf: Id, id: Id)
    requires leaf in ById(ms) && id in ById(ms) && forall m :: m in ms ==> m.parent != Some(leaf)
    ensures Below(ms, leaf, id) <==> id == leaf
  {
    hide ById, Filter;
    BelowStep(ms, leaf);
    if Below(ms, leaf, id) && id != leaf {
      var child := BelowChild(ms, leaf, id);
    }
  }

  lemma CanonOfRoot(r: Repair, m: Message)
    requires m in r.ms && m.parent == Some(VIRTUAL_ROOT) && m.id != r.c.selected
    ensures m.id in ById(r.ms) && Canon(r, m.id).None?
  {
    hide ById, Filter;
    LookupLogged(r.ms, m);
    BelowStep(r.ms, m.id);
  }

  /** A message outside the kept subtree and the starts has a counterpart only below its parent's. */
  lemma CanonOfChild(r: Repair, m: Message, p: Message)
    requires m in r.ms && p in r.ms && m.parent == Some(p.id) && m.id !in r.c.kept && m.id !in r.c.starts
    ensures m.id in ById(r.ms) && p.id in ById(r.ms)
    ensures Canon(r, m.id) ==
      if Canon(r, p.id).None? then None else UniqueChild(r.ms, Canon(r, p.id).value, TurnOf(m))
  {
    hide ById, Filter, UniqueChild;
    LookupLogged(r.ms, m);
    LookupLogged(r.ms, p);
  }

  lemma NoChild(ms: seq<Message>, leaf: Id, turn: Turn)
    requires forall m :: m in ms ==> m.parent != Some(leaf)
    ensures UniqueChild(ms, leaf, turn).None?
  {
    hide Filter;
    if ChildrenReading(ms, leaf, turn) != [] {
      SomeMember(ChildrenReading(ms, leaf, turn));
    }
  }

  lemma SomeMember(ms: seq<Message>)
    requires ms != []
    ensures exists m :: m in ms
  {
    assert ms[0] in ms;
  }

  // ----- The first salvage

  lemma TwoDivergencesOrdered(ms: seq<Message>)
    requires TwoDivergences(ms)
    ensures OrderedForest(ms)
  {
    forall i | 0 <= i < 7 ensures ParentEarlier(ms, i) {
      assert ms[0].parent == Some(VIRTUAL_ROOT);
      var p := if i == 5 then 4 else if i > 3 then 3 else 0;
      if i != 0 && i != 3 {
        assert ms[p].id == ms[i].parent.value;
      }
    }
  }

  lemma KeptLeaf(ms: Forest, i: nat)
    requires i < |ms| && forall m :: m in ms ==> m.parent != Some(ms[i].id)
    ensures forall id :: id == ms[i].id <==> id in ById(ms) && Below(ms, ms[i].id, id)
  {
    hide ById, Filter, Below;
    LookupLogged(ms, ms[i]);
    forall id | id in ById(ms) ensures Below(ms, ms[i].id, id) <==> id == ms[i].id {
      NothingBelowLeaf(ms, ms[i].id, id);
    }
  }

  /** Only 4 is collapsed; 6 becomes a root and 5 moves below it. */
  lemma FirstCollapse(r: Repair)
    requires |r.ms| == 7 && r == FirstCase(r.ms) && TwoDivergences(r.ms)
    ensures CollapsedIds(r) == {r.ms[4].id}
    ensures forall i :: 0 <= i < 4 ==> Rewire(r, r.ms[i]) == r.ms[i]
    ensures Rewire(r, r.ms[5]) == r.ms[5].(parent := Some(r.ms[6].id))
    ensures Rewire(r, r.ms[6]) == r.ms[6].(parent := Some(VIRTUAL_ROOT))
  {
    hide ById, Filter, Canon, Rewire, UniqueChild, IsRepair;
    var ms := r.ms;
    FirstCounterparts(r);
    forall i | 0 <= i < 7 ensures ms[i].id in ById(ms) && ById(ms)[ms[i].id] == ms[i] {
      ByIdUnique(ms, ms[i]);
    }
    forall i | 0 <= i < 4 ensures Rewire(r, ms[i]) == ms[i] {
      RewireUntouched(r, ms[i]);
    }
    RewireBranch(r, ms[5], ms[4]);
    RewireSelected(r, ms[6]);
    forall id | id in ById(ms) ensures Collapsed(r, id) <==> id == ms[4].id {
      LookupIn(ms, id);
      var i :| 0 <= i < 7 && ms[i] == ById(ms)[id];
    }
  }

  /** Not a message with a counterpart. */
  ghost predicate Unmatched(r: Repair, id: Id) {
    id in ById(r.ms) ==> Canon(r, id).None?
  }

  lemma RewireUntouched(r: Repair, m: Message)
    requires m in r.ms && m.id != r.c.selected && m.parent.Some? && Unmatched(r, m.parent.value)
    ensures Rewire(r, m) == m
  {
    hide ById, Canon;
    LookupLogged(r.ms, m);
  }

  lemma RewireBranch(r: Repair, m: Message, p: Message)
    requires m in r.ms && p in r.ms && m.parent == Some(p.id) && m.id != r.c.staleRoot && m.id !in r.c.kept
    requires p.id in ById(r.ms) && Canon(r, p.id).Some? && r.c.selected in r.c.kept
    ensures Rewire(r, m) == m.(parent := Canon(r, p.id))
  {
    hide ById, Canon;
    LookupLogged(r.ms, m);
  }

  lemma RewireSelected(r: Repair, m: Message)
    requires m in r.ms && m.id == r.c.selected
    ensures Rewire(r, m) == m.(parent := Some(VIRTUAL_ROOT))
  {
    hide ById, Canon;
  }

  lemma FirstCounterparts(r: Repair)
    requires |r.ms| == 7 && r == FirstCase(r.ms) && TwoDivergences(r.ms)
    ensures forall i :: 0 <= i < 7 ==> r.ms[i].id in ById(r.ms)
    ensures forall i :: 0 <= i < 4 || i == 5 ==> Unmatched(r, r.ms[i].id)
    ensures forall i :: 0 <= i < 4 ==> r.ms[i].parent.Some? && Unmatched(r, r.ms[i].parent.value)
    ensures Canon(r, r.ms[4].id) == Canon(r, r.ms[6].id) == Some(r.ms[6].id)
  {
    hide ById, Filter, Canon, UniqueChild, IsRepair;
    var ms := r.ms;
    CanonOfRoot(r, ms[0]);
    CanonOfRoot(r, ms[3]);
    CanonOfChild(r, ms[1], ms[0]);
    CanonOfChild(r, ms[2], ms[0]);
    StartsHaveCanon(r);
    CanonOfChild(r, ms[5], ms[4]);
    NoChild(ms, ms[6].id, TurnOf(ms[5]));
  }

  lemma StartsHaveCanon(r: Repair)
    ensures forall d :: d in r.c.starts ==> d in ById(r.ms) && Canon(r, d) == Some(r.c.selected)
  {
    hide ById, Filter, Canon;
    forall d | d in r.c.starts ensures d in ById(r.ms) && Canon(r, d) == Some(r.c.selected) {
      StartCanon(r, d);
    }
  }

  lemma FirstWrittenIds(r: Repair, events: seq<Event>)
    requires |r.ms| == 7 && r == FirstCase(r.ms) && TwoDivergences(r.ms) && r.ms == Messages(events)
    ensures WrittenIds(r, events) == ById(r.ms).Keys - {r.ms[4].id}
  {
    hide *;
    TwoDivergencesOrdered(r.ms);
    OrderedIsAttached(r);
    ConservedExactly(r, events);
    FirstCollapse(r);
    PreservedNotCollapsed(r, events, |events|);
    RepairedAll(r, events);
    LostNone(r, events);
  }

  lemma LostNone(r: Repair, events: seq<Event>)
    requires r.ms == Messages(events) && LostIds(r, events) == {}
    requires WrittenIds(r, events) <= ById(r.ms).Keys && WrittenIds(r, events) !! CollapsedIds(r)
    ensures WrittenIds(r, events) == ById(r.ms).Keys - CollapsedIds(r)
  {
    hide ById, Messages, WrittenIds, CollapsedIds;
    NoRest(ById(r.ms).Keys, CollapsedIds(r), WrittenIds(r, events));
  }

  lemma DivergencesUnique(ms: seq<Message>)
    requires TwoDivergences(ms)
    ensures UniqueIds(ms)
  {
  }

  /** What the first salvage writes. */
  lemma FirstSalvage(r: Repair, events: seq<Event>)
    requires |r.ms| == 7 && r == FirstCase(r.ms) && TwoDivergences(r.ms) && r.ms == Messages(events)
    ensures Messages(Repaired(r, events)) == AfterFirst(r.ms)
  {
    hide *;
    DivergencesUnique(r.ms);
    RepairedMessages(r, events, |events|);
    RepairedAll(r, events);
    assert events[..|events|] == events;
    FirstWrittenIds(r, events);
    FirstCollapse(r);
    FirstSurviving(r, WrittenIds(r, events));
  }

  /** The first four messages survive as they are. */
  lemma {:induction false} FirstFour(r: Repair, ids: set<Id>, n: nat)
    requires n <= 4 <= |r.ms|
    requires forall i :: 0 <= i < 4 ==> Rewire(r, r.ms[i]) == r.ms[i] && r.ms[i].id in ids
    ensures Surviving(r, r.ms[..n], ids) == r.ms[..n]
  {
    hide ById, Rewire, Surviving, Filter, IsRepair;
    if n == 0 {
      NoneSurvive(r, ids);
      assert r.ms[..0] == [];
    } else {
      FirstFour(r, ids, n - 1);
      SurvivingNext(r, n - 1, ids);
    }
  }

  lemma FirstSurviving(r: Repair, ids: set<Id>)
    requires |r.ms| == 7 && TwoDivergences(r.ms) && ids == ById(r.ms).Keys - {r.ms[4].id}
    requires forall i :: 0 <= i < 4 ==> Rewire(r, r.ms[i]) == r.ms[i]
    requires Rewire(r, r.ms[5]) == r.ms[5].(parent := Some(r.ms[6].id))
    requires Rewire(r, r.ms[6]) == r.ms[6].(parent := Some(VIRTUAL_ROOT))
    ensures Surviving(r, r.ms, ids) == AfterFirst(r.ms)
  {
    hide ById, Rewire, Surviving, Filter, IsRepair, TwoDivergences;
    var ms := r.ms;
    AllButFour(ms, ids);
    FirstFour(r, ids, 4);
    SurvivingNext(r, 4, ids);
    SurvivingNext(r, 5, ids);
    SurvivingNext(r, 6, ids);
    assert ms[..7] == ms;
  }

  lemma AllButFour(ms: seq<Message>, ids: set<Id>)
    requires TwoDivergences(ms) && ids == ById(ms).Keys - {ms[4].id}
    ensures forall i :: 0 <= i < 7 ==> (ms[i].id in ids <==> i != 4)
  {
    hide ById;
    assert forall i :: 0 <= i < 7 ==> ms[i] in ms;
  }

  lemma SurvivingNext(r: Repair, i: nat, ids: set<Id>)
    requires i < |r.ms|
    ensures Surviving(r, r.ms[..i + 1], ids) ==
      Surviving(r, r.ms[..i], ids) + if r.ms[i].id in ids then [Rewire(r, r.ms[i])] else []
  {
    hide ById, Rewire, Surviving, Filter, IsRepair;
    assert r.ms[..i + 1] == r.ms[..i] + [r.ms[i]];
    SurvivingSnoc(r, r.ms[..i], r.ms[i], ids);
  }

  // ----- The second salvage

  /** What the second salvage sees of the diverging message and its parent. */
  lemma LateParent(ms: seq<Message>)
    requires TwoDivergences(ms)
    ensures var after := AfterFirst(ms);
      && after[4].parent == Some(after[5].id) && after[5].parent == Some(VIRTUAL_ROOT)
      && after[5].id != VIRTUAL_ROOT
      && (forall j :: 0 <= j < 4 ==> after[j].id != after[5].id && after[j].id != after[4].id)
  {
  }

  /** In the second salvage the diverging message is neither collapsed nor attached. */
  lemma SecondUnattached(r: Repair, ms: seq<Message>)
    requires TwoDivergences(ms) && r.ms == AfterFirst(ms) && r == SecondCase(r.ms)
    ensures r.ms[4].id !in CollapsedIds(r) && !Attached(r, 4)
  {
    hide ById, Filter, Canon, UniqueChild, TwoDivergences;
    LateParent(ms);
    CanonOfRoot(r, r.ms[5]);
    CanonOfChild(r, r.ms[4], r.ms[5]);
  }

  // ----- Both repairs are the ones the program chooses

  /** The only two children of a root read the same, but not as it does, and the later is a leaf. */
  ghost predicate IsPair(ms: seq<Message>, p: nat, a: nat, b: nat) {
    && p < |ms| && a < b < |ms|
    && UniqueIds(ms)
    && ms[p].parent == Some(VIRTUAL_ROOT)
    && ms[a].parent == ms[b].parent == Some(ms[p].id)
    && (forall i :: 0 <= i < |ms| && ms[i].parent == Some(ms[p].id) ==> i == a || i == b)
    && TurnOf(ms[a]) == TurnOf(ms[b]) != TurnOf(ms[p])
    && (forall m :: m in ms ==> m.parent != Some(ms[b].id))
  }

  lemma ReadingSnoc(ms: seq<Message>, n: nat, parent: Id, turn: Turn)
    requires n < |ms|
    ensures ChildrenReading(ms[..n + 1], parent, turn) ==
      ChildrenReading(ms[..n], parent, turn) +
        if parent != "" && ms[n].parent == Some(parent) && TurnOf(ms[n]) == turn then [ms[n]] else []
  {
    assert ms[..n + 1][..n] == ms[..n];
    var before := Children(ms[..n], parent);
    if parent != "" && ms[n].parent == Some(parent) {
      assert Children(ms[..n + 1], parent) == before + [ms[n]];
      assert (before + [ms[n]])[..|before|] == before;
    }
  }

  lemma {:induction false} PairChildren(ms: seq<Message>, p: nat, a: nat, b: nat, n: nat)
    requires IsPair(ms, p, a, b) && ms[p].id != "" && n <= |ms|
    ensures ChildrenReading(ms[..n], ms[p].id, TurnOf(ms[b])) ==
      if n <= a then [] else if n <= b then [ms[a]] else [ms[a], ms[b]]
  {
    hide Filter, ChildrenReading;
    if n > 0 {
      PairChildren(ms, p, a, b, n - 1);
      ReadingSnoc(ms, n - 1, ms[p].id, TurnOf(ms[b]));
    } else {
      NoneReadingAtFirst(ms, ms[p].id, TurnOf(ms[b]));
    }
  }

  lemma NoneReadingAtFirst(ms: seq<Message>, parent: Id, turn: Turn)
    ensures ChildrenReading(ms[..0], parent, turn) == []
  {
  }

  lemma {:induction false} OneInLogOrder(ms: seq<Message>, ids: set<Id>, b: nat, n: nat)
    requires n <= |ms| && b < |ms| && forall i :: 0 <= i < |ms| ==> (ms[i].id in ids <==> i == b)
    ensures InLogOrder(ms[..n], ids) == if n <= b then [] else [ms[b]]
  {
    if n > 0 {
      OneInLogOrder(ms, ids, b, n - 1);
      assert ms[..n][..n - 1] == ms[..n - 1];
    }
  }

  lemma PairIsRepair(ms: Forest, p: nat, a: nat, b: nat)
    requires IsPair(ms, p, a, b)
    ensures IsRepair(PairCase(ms, p, a, b))
  {
    hide ById, Filter, Below;
    KeptLeaf(ms, b);
    LookupLogged(ms, ms[p]);
    LookupLogged(ms, ms[a]);
    LookupLogged(ms, ms[b]);
  }

  lemma PairKept(ms: Forest, p: nat, a: nat, b: nat)
    requires IsPair(ms, p, a, b)
    ensures ms[b].id in ById(ms) && IsBestHead(ms, ms[b].id, ms[b].id)
    ensures IdsOf(InLogOrder(ms, Subtree(ms, ms[b].id))) == [ms[b].id]
  {
    hide ById, Filter, Below, LogOrder;
    KeptLeaf(ms, b);
    LookupLogged(ms, ms[b]);
    if Children(ms, ms[b].id) != [] {
      SomeMember(Children(ms, ms[b].id));
    }
    assert Subtree(ms, ms[b].id) == {ms[b].id};
    OneInLogOrder(ms, Subtree(ms, ms[b].id), b, |ms|);
    assert ms[..|ms|] == ms;
  }

  lemma OrderIsPosition(ms: seq<Message>, i: nat)
    requires UniqueIds(ms) && i < |ms|
    ensures ms[i].id in LogOrder(ms) && LogOrder(ms)[ms[i].id] == i
  {
    hide LogOrder;
    LogOrderLatest(ms, i);
  }

  lemma PairReading(ms: seq<Message>, p: nat, a: nat, b: nat)
    requires IsPair(ms, p, a, b) && ms[p].id != ""
    ensures ChildrenReading(ms, ms[p].id, TurnOf(ms[b])) == [ms[a], ms[b]]
  {
    hide Filter, ChildrenReading, UniqueIds;
    PairChildren(ms, p, a, b, |ms|);
    assert ms[..|ms|] == ms;
  }

  lemma PairStarts(ms: Forest, p: nat, a: nat, b: nat)
    requires IsPair(ms, p, a, b)
    ensures IdsOf(ChildrenReading(ms, ms[p].id, TurnOf(ms[b]))) == [ms[a].id, ms[b].id]
    ensures ms[a].id in LogOrder(ms) && LogOrder(ms)[ms[a].id] == a
    ensures ms[b].id in LogOrder(ms) && LogOrder(ms)[ms[b].id] == b
  {
    hide ById, Filter, LogOrder, ChildrenReading, UniqueIds;
    LookupLogged(ms, ms[p]);
    PairReading(ms, p, a, b);
    OrderIsPosition(ms, a);
    OrderIsPosition(ms, b);
  }

  /** Such a pair is a candidate when two duplicates are asked for. */
  lemma PairIsCandidate(ms: Forest, p: nat, a: nat, b: nat)
    requires IsPair(ms, p, a, b)
    ensures IsCandidate(ms, 2, PairCase(ms, p, a, b).c)
  {
    hide ById, Filter, LogOrder, IsBestHead, ChildrenReading, InLogOrder, Subtree;
    PairIsRepair(ms, p, a, b);
    PairKept(ms, p, a, b);
    PairStarts(ms, p, a, b);
    LookupLogged(ms, ms[p]);
    LookupLogged(ms, ms[b]);
  }

  /** And it is the only candidate at its root. */
  lemma PairIsOnly(ms: Forest, p: nat, a: nat, b: nat, c: Candidate)
    requires IsPair(ms, p, a, b) && IsCandidate(ms, 2, c) && c.staleRoot == ms[p].id
    ensures c == PairCase(ms, p, a, b).c
  {
    hide ById, Filter, LogOrder, IsBestHead, ChildrenReading, InLogOrder;
    PairIsCandidate(ms, p, a, b);
    LookupIn(ms, c.selected);
    var i :| 0 <= i < |ms| && ms[i] == ById(ms)[c.selected];
    PairStarts(ms, p, a, b);
    CandidateUnique(ms, 2, c, PairCase(ms, p, a, b).c);
  }

  /** Two different messages i and j are children of the root p. */
  ghost predicate TwoChildren(ms: seq<Message>, root: Id, p: nat, i: nat, j: nat) {
    && p < |ms| && i < |ms| && j < |ms| && i != j
    && ms[p].id == root
    && ms[p].parent == Some(VIRTUAL_ROOT)
    && ms[i].parent == ms[j].parent == Some(root)
  }

  /** A candidate's root has two children. */
  lemma CandidateHasChildren(ms: Forest, c: Candidate) returns (p: nat, i: nat, j: nat)
    requires UniqueIds(ms) && IsCandidate(ms, 2, c)
    ensures TwoChildren(ms, c.staleRoot, p, i, j)
  {
    hide ById, Filter, LogOrder, IsBestHead, ChildrenReading, InLogOrder;
    SecondStart(ms, 2, c);
    var d :| d in c.starts && d != c.selected;
    LookupIn(ms, c.staleRoot);
    LookupIn(ms, c.selected);
    LookupIn(ms, d);
    p :| 0 <= p < |ms| && ms[p] == ById(ms)[c.staleRoot];
    i :| 0 <= i < |ms| && ms[i] == ById(ms)[c.selected];
    j :| 0 <= j < |ms| && ms[j] == ById(ms)[d];
  }

  /** A candidate that no other outranks: the one the program repairs. */
  ghost predicate IsChosen(ms: Forest, c: Candidate) {
    IsCandidate(ms, 2, c) && forall d :: IsCandidate(ms, 2, d) ==> !Outranks(d, c)
  }

  /** Of two such pairs the head's id decides. */
  lemma PairsRank(ms: seq<Message>, p: nat, a: nat, b: nat, q: nat, x: nat, y: nat)
    requires p < |ms| && a < |ms| && b < |ms| && q < |ms| && x < |ms| && y < |ms|
    ensures Outranks(PairCase(ms, p, a, b).c, PairCase(ms, q, x, y).c) <==> StringLess(ms[y].id, ms[b].id)
  {
    hide StringLess;
  }

  lemma FirstPairs(ms: seq<Message>)
    requires TwoDivergences(ms)
    ensures IsPair(ms, 0, 1, 2) && IsPair(ms, 3, 4, 6)
    ensures !StringLess(ms[6].id, ms[2].id) && !StringLess(ms[6].id, ms[6].id)
  {
    StringLessTotal(ms[2].id, ms[6].id);
    StringLessTotal(ms[6].id, ms[6].id);
  }

  lemma FirstRoots(ms: seq<Message>, root: Id, p: nat, i: nat, j: nat)
    requires TwoDivergences(ms) && TwoChildren(ms, root, p, i, j)
    ensures p == 0 || p == 3
  {
  }

  lemma FirstIsChosen(ms: Forest)
    requires TwoDivergences(ms)
    ensures IsChosen(ms, FirstCase(ms).c)
  {
    hide ById, Filter, IsCandidate, StringLess, Outranks, IsPair, UniqueIds, PairCase;
    FirstPairs(ms);
    PairIsCandidate(ms, 3, 4, 6);
    forall d | IsCandidate(ms, 2, d) ensures !Outranks(d, FirstCase(ms).c) {
      var p, i, j := CandidateHasChildren(ms, d);
      FirstRoots(ms, d.staleRoot, p, i, j);
      if p == 0 {
        PairIsOnly(ms, 0, 1, 2, d);
        PairsRank(ms, 0, 1, 2, 3, 4, 6);
      } else {
        PairIsOnly(ms, 3, 4, 6, d);
        PairsRank(ms, 3, 4, 6, 3, 4, 6);
      }
    }
  }

  lemma SecondPair(ms: seq<Message>)
    requires TwoDivergences(ms)
    ensures IsPair(AfterFirst(ms), 0, 1, 2)
  {
  }

  lemma SecondRoots(ms: seq<Message>, root: Id, p: nat, i: nat, j: nat)
    requires TwoDivergences(ms) && TwoChildren(AfterFirst(ms), root, p, i, j)
    ensures p == 0
  {
  }

  lemma SecondIsChosen(ms: seq<Message>)
    requires TwoDivergences(ms) && IsForest(AfterFirst(ms))
    ensures IsChosen(AfterFirst(ms), SecondCase(AfterFirst(ms)).c)
  {
    hide ById, Filter, IsCandidate, IsForest, Outranks, IsPair, AfterFirst, PairCase, UniqueIds;
    var after := AfterFirst(ms);
    SecondPair(ms);
    IsPairUnique(after);
    PairIsCandidate(after, 0, 1, 2);
    forall d | IsCandidate(after, 2, d) ensures !Outranks(d, SecondCase(after).c) {
      var p, i, j := CandidateHasChildren(after, d);
      SecondRoots(ms, d.staleRoot, p, i, j);
      PairIsOnly(after, 0, 1, 2, d);
      OutranksIrreflexive(d);
    }
  }

  lemma IsPairUnique(ms: seq<Message>)
    requires IsPair(ms, 0, 1, 2)
    ensures UniqueIds(ms)
  {
  }

  /** Salvaging such a journal twice, each time what the program chooses to repair, loses the
      diverging message, which the first salvage had kept. */
  lemma SecondSalvageLoses(events: seq<Event>) returns (journals: seq<seq<Event>>)
    requires TwoDivergences(Messages(events))
    ensures |journals| == 3 && journals[0] == events && SalvageRun(journals, 2)
    ensures var ms := Messages(events);
      && IsForest(ms) && IsChosen(ms, FirstCase(ms).c)
      && Messages(journals[1]) == AfterFirst(ms)
      && IsForest(AfterFirst(ms)) && IsChosen(AfterFirst(ms), SecondCase(AfterFirst(ms)).c)
      && ms[5].id in ById(Messages(journals[1]))
      && ms[5].id !in ById(Messages(journals[2]))
    ensures exists first: Repair, second: Repair ::
      first == FirstCase(Messages(events)) && journals[1] == Repaired(first, events) &&
      second == SecondCase(Messages(journals[1])) && journals[2] == Repaired(second, journals[1]) &&
      Messages(events)[5].id in LostIds(second, journals[1])
  {
    hide Filter, ById, Messages, Canon, Rewire, Repaired, IsForest, IsRepair, IsCandidate, LostIds, Outranks;
    hide IsPair, IsChosen, UniqueIds, OrderedForest;
    var ms := Messages(events);
    TwoDivergencesOrdered(ms);
    DivergencesUnique(ms);
    OrderedIsForest(ms);
    FirstPairs(ms);
    PairIsRepair(ms, 3, 4, 6);
    FirstIsChosen(ms);
    var first: Repair := FirstCase(ms);
    FirstSalvage(first, events);
    RepairedIsForest(first, events);
    SecondPair(ms);
    PairIsRepair(AfterFirst(ms), 0, 1, 2);
    SecondIsChosen(ms);
    var second: Repair := SecondCase(AfterFirst(ms));
    SecondUnattached(second, ms);
    var written := Repaired(first, events);
    UnattachedIsLost(second, written, 4);
    assert AfterFirst(ms)[4] in AfterFirst(ms);
    journals := [events, written, Repaired(second, written)];
    StepOf(first, events);
    StepOf(second, written);
  }

  lemma StepOf(r: Repair, events: seq<Event>)
    requires r.ms == Messages(events) && IsChosen(r.ms, r.c)
    ensures SalvageStep(events, Repaired(r, events), 2)
  {
    hide Messages, IsCandidate, Repaired;
  }
}
