/**
 Finding the root divergence to repair, and the salvage as a whole.
 */
module SalvageCandidates {
  import opened Journal
  import opened Text
  import opened Salvage
  import opened SalvageRepair

  /** The position of every id in the log. */
  function LogOrder(ms: seq<Message>): (order: map<Id, nat>)
    ensures order.Keys == ById(ms).Keys
    ensures forall id :: id in order ==> order[id] < |ms| && ms[order[id]].id == id
  {
    if ms == [] then map[]
    else
      var order := LogOrder(ms[..|ms| - 1]);
      assert forall id :: id in order ==> ms[order[id]] == ms[..|ms| - 1][order[id]];
      order[ms[|ms| - 1].id := |ms| - 1]
  }

  /** A repeated id has the position of its last message. */
  lemma {:induction false} LogOrderLatest(ms: seq<Message>, i: nat)
    requires i < |ms| && forall j :: i < j < |ms| ==> ms[j].id != ms[i].id
    ensures ms[i].id in LogOrder(ms) && LogOrder(ms)[ms[i].id] == i
  {
    if i < |ms| - 1 {
      LogOrderLatest(ms[..|ms| - 1], i);
    }
  }

  /** A message with no children. */
  predicate IsLeaf(ms: seq<Message>, id: Id) {
    Children(ms, id) == []
  }

  /** `b` is a deeper head than `a`, or as deep and later in the log. */
  ghost predicate NoDeeper(ms: Forest, a: Id, b: Id) {
    && a in ById(ms)
    && b in ById(ms)
    && var da, db := |Path(ById(ms), a)|, |Path(ById(ms), b)|;
       da < db || (da == db && LogOrder(ms)[a] <= LogOrder(ms)[b])
  }

  /** `head` is the deepest leaf below `start`, the latest of the deepest ones. */
  ghost predicate IsBestHead(ms: Forest, start: Id, head: Id)
    requires start in ById(ms)
  {
    && head in Subtree(ms, start)
    && IsLeaf(ms, head)
    && forall x :: x in Subtree(ms, start) && IsLeaf(ms, x) ==> NoDeeper(ms, x, head)
  }

  /** A set of at least `minDuplicates` children of a root that read the same but not as the
      root does, the latest selected, with everything below it kept. */
  ghost predicate IsCandidate(ms: Forest, minDuplicates: int, c: Candidate) {
    && Divergence(ms, c)
    && TurnOf(ById(ms)[c.selected]) != TurnOf(ById(ms)[c.staleRoot])
    && |c.starts| >= minDuplicates
    && c.starts == IdsOf(ChildrenReading(ms, c.staleRoot, TurnOf(ById(ms)[c.selected])))
    && (forall d :: d in c.starts ==> LogOrder(ms)[d] <= LogOrder(ms)[c.selected])
    && IsBestHead(ms, c.selected, c.head)
    && c.kept == IdsOf(InLogOrder(ms, Subtree(ms, c.selected)))
  }

  // ----- The best head below a start

  /** `p` extends `path` from `id` down to a leaf. */
  ghost predicate IsLeafPath(ms: Forest, id: Id, path: seq<Id>, p: seq<Id>)
    requires id in ById(ms)
  {
    && |p| > 0
    && p[|p| - 1] in Subtree(ms, id)
    && IsLeaf(ms, p[|p| - 1])
    && |p| == |path| + |Path(ById(ms), p[|p| - 1])| - |Path(ById(ms), id)|
  }

  ghost predicate LeafPathsBelow(ms: Forest, ids: set<Id>, paths: seq<seq<Id>>) {
    forall x :: x in ids && x in ById(ms) && IsLeaf(ms, x) ==>
      exists k :: 0 <= k < |paths| && |paths[k]| > 0 && paths[k][|paths[k]| - 1] == x
  }

  lemma LeafPathLift(ms: Forest, id: Id, child: Message, path: seq<Id>, p: seq<Id>)
    requires id in ById(ms) && child in Children(ms, id) && child.id in ById(ms)
    requires IsLeafPath(ms, child.id, path + [child.id], p)
    ensures IsLeafPath(ms, id, path, p)
  {
    hide Filter, ById, IsLeaf;
    ChildDepth(ms, id, child);
    PathStep(ById(ms), child.id);
    BelowStep(ms, id);
    BelowTransitive(ms, id, child.id, p[|p| - 1]);
  }

  lemma LeafPathsSnoc(ms: Forest, roots: seq<Id>, i: nat, paths: seq<seq<Id>>, next: seq<seq<Id>>)
    requires i < |roots| && paths <= next
    requires LeafPathsBelow(ms, Subtrees(ms, roots[..i]), paths)
    requires LeafPathsBelow(ms, Subtree(ms, roots[i]), next)
    ensures LeafPathsBelow(ms, Subtrees(ms, roots[..i + 1]), next)
  {
    hide Filter, ById, IsLeaf, Subtree, Subtrees;
    SubtreesSnoc(ms, roots, i);
    forall x | x in Subtrees(ms, roots[..i + 1]) && x in ById(ms) && IsLeaf(ms, x)
      ensures exists k :: 0 <= k < |next| && |next[k]| > 0 && next[k][|next[k]| - 1] == x
    {
      if x in Subtrees(ms, roots[..i]) {
        var k :| 0 <= k < |paths| && |paths[k]| > 0 && paths[k][|paths[k]| - 1] == x;
        assert next[k] == paths[k];
      }
    }
  }

  /** Adds every path from `id` down to a leaf to `paths0`. */
  method WalkPaths(ms: Forest, id: Id, path: seq<Id>, paths0: seq<seq<Id>>) returns (paths: seq<seq<Id>>)
    requires id in ById(ms) && |path| > 0 && path[|path| - 1] == id
    ensures paths0 <= paths && |paths0| < |paths|
    ensures forall k :: |paths0| <= k < |paths| ==> IsLeafPath(ms, id, path, paths[k])
    ensures LeafPathsBelow(ms, Subtree(ms, id), paths)
    decreases |ById(ms)| - |Path(ById(ms), id)|
  {
    hide Filter, ById, IsLeafPath, LeafPathsBelow, Children, Subtree, Subtrees;
    var children := Children(ms, id);
    if children == [] {
      LeafAlone(ms, id, path, paths0);
      return paths0 + [path];
    }
    paths := paths0;
    NoLeafPaths(ms, children, paths);
    for i := 0 to |children|
      invariant paths0 <= paths && (i > 0 ==> |paths0| < |paths|)
      invariant forall k :: |paths0| <= k < |paths| ==> IsLeafPath(ms, id, path, paths[k])
      invariant LeafPathsBelow(ms, Subtrees(ms, IdsOf(children)[..i]), paths)
    {
      ChildDepth(ms, id, children[i]);
      var next := WalkPaths(ms, children[i].id, path + [children[i].id], paths);
      forall k | |paths0| <= k < |next| ensures IsLeafPath(ms, id, path, next[k]) {
        if k < |paths| {
          assert next[k] == paths[k];
        } else {
          LeafPathLift(ms, id, children[i], path, next[k]);
        }
      }
      LeafPathsSnoc(ms, IdsOf(children), i, paths, next);
      paths := next;
    }
    assert IdsOf(children)[..|children|] == ChildIds(ms, id);
    InnerNode(ms, id, paths);
  }

  lemma LeafAlone(ms: Forest, id: Id, path: seq<Id>, paths0: seq<seq<Id>>)
    requires id in ById(ms) && |path| > 0 && path[|path| - 1] == id && Children(ms, id) == []
    ensures IsLeafPath(ms, id, path, path)
    ensures LeafPathsBelow(ms, Subtree(ms, id), paths0 + [path])
  {
    BelowStep(ms, id);
    SubtreeSplit(ms, id);
    assert (paths0 + [path])[|paths0|] == path;
  }

  lemma NoLeafPaths(ms: Forest, children: seq<Message>, paths: seq<seq<Id>>)
    ensures LeafPathsBelow(ms, Subtrees(ms, IdsOf(children)[..0]), paths)
  {
  }

  lemma InnerNode(ms: Forest, id: Id, paths: seq<seq<Id>>)
    requires id in ById(ms) && Children(ms, id) != []
    requires LeafPathsBelow(ms, Subtrees(ms, ChildIds(ms, id)), paths)
    ensures LeafPathsBelow(ms, Subtree(ms, id), paths)
  {
    hide Filter, ById;
    SubtreeSplit(ms, id);
  }

  /** None of the paths ends deeper than `head`. */
  ghost predicate NoneDeeper(ms: Forest, paths: seq<seq<Id>>, head: Id) {
    forall k :: 0 <= k < |paths| ==> |paths[k]| > 0 && NoDeeper(ms, paths[k][|paths[k]| - 1], head)
  }

  lemma NoDeeperTransitive(ms: Forest, a: Id, b: Id, c: Id)
    requires NoDeeper(ms, a, b) && NoDeeper(ms, b, c)
    ensures NoDeeper(ms, a, c)
  {
    hide Filter, ById, LogOrder;
  }

  lemma NoneDeeperSnoc(ms: Forest, paths: seq<seq<Id>>, a: Id, p: seq<Id>, b: Id)
    requires NoneDeeper(ms, paths, a) && NoDeeper(ms, a, b)
    requires |p| > 0 && NoDeeper(ms, p[|p| - 1], b)
    ensures NoneDeeper(ms, paths + [p], b)
  {
    hide NoDeeper, IsForest;
    forall k | 0 <= k < |paths| ensures NoDeeper(ms, paths[k][|paths[k]| - 1], b) {
      NoDeeperTransitive(ms, paths[k][|paths[k]| - 1], a, b);
    }
  }

  /** The comparison the search makes. */
  predicate LongerPath(order: map<Id, nat>, p: seq<Id>, best: seq<Id>)
    requires |p| > 0 && p[|p| - 1] in order && |best| > 0 && best[|best| - 1] in order
  {
    |p| > |best| || (|p| == |best| && order[p[|p| - 1]] > order[best[|best| - 1]])
  }

  lemma LongerIsDeeper(ms: Forest, start: Id, p: seq<Id>, best: seq<Id>)
    requires start in ById(ms)
    requires IsLeafPath(ms, start, [start], best) && IsLeafPath(ms, start, [start], p)
    ensures LongerPath(LogOrder(ms), p, best) ==> NoDeeper(ms, best[|best| - 1], p[|p| - 1])
    ensures !LongerPath(LogOrder(ms), p, best) ==> NoDeeper(ms, p[|p| - 1], best[|best| - 1])
    ensures NoDeeper(ms, p[|p| - 1], p[|p| - 1]) && NoDeeper(ms, best[|best| - 1], best[|best| - 1])
  {
    hide Filter, ById, LogOrder, IsLeaf;
  }

  lemma LeafPathEnd(ms: Forest, start: Id, p: seq<Id>)
    requires start in ById(ms) && IsLeafPath(ms, start, [start], p)
    ensures |p| > 0 && p[|p| - 1] in ById(ms) && p[|p| - 1] in LogOrder(ms)
    ensures p[|p| - 1] in Subtree(ms, start) && IsLeaf(ms, p[|p| - 1])
    ensures NoneDeeper(ms, [p], p[|p| - 1])
  {
    hide Filter, ById, LogOrder, IsLeaf;
  }

  /** The last node of the longest path, the latest in the log among the longest. */
  method BestDescendant(ms: Forest, start: Id) returns (head: Id)
    requires start in ById(ms)
    ensures IsBestHead(ms, start, head)
  {
    hide IsForest, LeafPathsBelow, IsLeafPath, NoneDeeper, NoDeeper, LogOrder, ById, Children, Filter;
    var order := LogOrder(ms);
    var paths := WalkPaths(ms, start, [start], []);
    var best := paths[0];
    LeafPathEnd(ms, start, best);
    assert paths[..1] == [best];
    for i := 1 to |paths|
      invariant IsLeafPath(ms, start, [start], best) && |best| > 0
      invariant NoneDeeper(ms, paths[..i], best[|best| - 1])
    {
      LeafPathEnd(ms, start, best);
      LeafPathEnd(ms, start, paths[i]);
      LongerIsDeeper(ms, start, paths[i], best);
      var next := if LongerPath(order, paths[i], best) then paths[i] else best;
      NoneDeeperSnoc(ms, paths[..i], best[|best| - 1], paths[i], next[|next| - 1]);
      assert paths[..i + 1] == paths[..i] + [paths[i]];
      best := next;
    }
    head := best[|best| - 1];
    LeafPathEnd(ms, start, best);
    assert paths[..|paths|] == paths;
    BestOfAll(ms, start, paths, head);
  }

  lemma BestOfAll(ms: Forest, start: Id, paths: seq<seq<Id>>, head: Id)
    requires LeafPathsBelow(ms, Subtree(ms, start), paths) && NoneDeeper(ms, paths, head)
    ensures forall x :: x in Subtree(ms, start) && IsLeaf(ms, x) ==> NoDeeper(ms, x, head)
  {
    hide Filter, ById, IsLeaf, NoDeeper;
    forall x | x in Subtree(ms, start) && IsLeaf(ms, x) ensures NoDeeper(ms, x, head) {
      var k :| 0 <= k < |paths| && |paths[k]| > 0 && paths[k][|paths[k]| - 1] == x;
    }
  }

  // ----- The candidates

  lemma WithTurnSnoc(ms: seq<Message>, i: nat, turn: Turn)
    requires i < |ms|
    ensures WithTurn(ms[..i + 1], turn) ==
      WithTurn(ms[..i], turn) + if TurnOf(ms[i]) == turn then [ms[i]] else []
  {
    assert ms[..i + 1][..i] == ms[..i];
  }

  /** What `a` reads is met before anything reading `b`. */
  ghost predicate MetBefore(children: seq<Message>, a: Turn, b: Turn) {
    exists p :: 0 <= p < |children| && TurnOf(children[p]) == a && forall q :: 0 <= q <= p ==> TurnOf(children[q]) != b
  }

  /** The groups cover exactly the children that do not read as the root does, in the order they
      are first met. */
  ghost predicate Groups(rootTurn: Turn, children: seq<Message>, keys: seq<Turn>, groups: map<Turn, seq<Message>>) {
    && (forall k :: k in keys <==> k in groups)
    && (forall k :: k in groups <==> k != rootTurn && WithTurn(children, k) != [])
    && (forall k :: k in groups ==> groups[k] == WithTurn(children, k))
    && InMetOrder(children, keys)
  }

  ghost predicate InMetOrder(children: seq<Message>, keys: seq<Turn>) {
    forall i, j :: 0 <= i < j < |keys| ==> MetBefore(children, keys[i], keys[j])
  }

  /** Children by what they read, leaving out those that read as the root does. */
  method ReplacementChildrenByContent(root: Message, children: seq<Message>)
      returns (keys: seq<Turn>, groups: map<Turn, seq<Message>>)
    ensures Groups(TurnOf(root), children, keys, groups)
  {
    hide Filter, WithTurn, InMetOrder;
    keys, groups := [], map[];
    NoGroups(children);
    for i := 0 to |children|
      invariant Groups(TurnOf(root), children[..i], keys, groups)
    {
      var key := TurnOf(children[i]);
      forall k { WithTurnSnoc(children, i, k); }
      MetOrderNext(children, i, keys);
      if key != TurnOf(root) {
        if key !in groups {
          keys, groups := keys + [key], groups[key := []];
        }
        groups := groups[key := groups[key] + [children[i]]];
      }
    }
    assert children[..|children|] == children;
  }

  lemma MetBeforeStays(children: seq<Message>, i: nat, a: Turn, b: Turn)
    requires i < |children| && MetBefore(children[..i], a, b)
    ensures MetBefore(children[..i + 1], a, b)
  {
    var p :| 0 <= p < i && TurnOf(children[..i][p]) == a && forall q :: 0 <= q <= p ==> TurnOf(children[..i][q]) != b;
    assert forall q :: 0 <= q <= p ==> children[..i + 1][q] == children[..i][q];
  }

  lemma NewlyMet(children: seq<Message>, i: nat, k: Turn)
    requires i < |children| && WithTurn(children[..i], k) != [] && WithTurn(children[..i], TurnOf(children[i])) == []
    ensures MetBefore(children[..i + 1], k, TurnOf(children[i]))
  {
    hide Filter, WithTurn;
    var before := children[..i];
    assert WithTurn(before, k)[0] in WithTurn(before, k);
    var p :| 0 <= p < i && before[p] == WithTurn(before, k)[0];
    NoneReading(before, TurnOf(children[i]));
    assert forall q :: 0 <= q < i ==> children[..i + 1][q] == before[q] && before[q] in before;
  }

  lemma NoneReading(ms: seq<Message>, turn: Turn)
    requires WithTurn(ms, turn) == []
    ensures forall m :: m in ms ==> TurnOf(m) != turn
  {
    hide Filter;
    forall m | m in ms ensures TurnOf(m) != turn {
      assert m !in WithTurn(ms, turn);
    }
  }

  /** Keys in the order first met stay so, with a new key at the end. */
  lemma MetOrderNext(children: seq<Message>, i: nat, keys: seq<Turn>)
    requires i < |children| && InMetOrder(children[..i], keys)
    requires forall k :: k in keys ==> WithTurn(children[..i], k) != []
    ensures InMetOrder(children[..i + 1], keys)
    ensures WithTurn(children[..i], TurnOf(children[i])) == [] ==>
      InMetOrder(children[..i + 1], keys + [TurnOf(children[i])])
  {
    hide Filter, WithTurn, MetBefore;
    forall x, y | 0 <= x < y < |keys| ensures MetBefore(children[..i + 1], keys[x], keys[y]) {
      MetBeforeStays(children, i, keys[x], keys[y]);
    }
    if WithTurn(children[..i], TurnOf(children[i])) == [] {
      forall x | 0 <= x < |keys| ensures MetBefore(children[..i + 1], keys[x], TurnOf(children[i])) {
        assert keys[x] in keys;
        NewlyMet(children, i, keys[x]);
      }
    }
  }

  lemma NoGroups(children: seq<Message>)
    ensures forall k :: WithTurn(children[..0], k) == []
    ensures InMetOrder(children[..0], [])
  {
  }

  /** The start that comes last in the log. */
  method LatestStart(ms: Forest, starts: seq<Message>) returns (latest: Message)
    requires starts != [] && forall d :: d in starts ==> d in ms
    ensures latest in starts
    ensures forall d :: d in starts ==> LogOrder(ms)[d.id] <= LogOrder(ms)[latest.id]
  {
    hide Filter, ById, LogOrder, IsForest;
    var order := LogOrder(ms);
    latest := starts[0];
    for i := 1 to |starts|
      invariant latest in starts
      invariant forall k :: 0 <= k < i ==> order[starts[k].id] <= order[latest.id]
    {
      if order[starts[i].id] > order[latest.id] {
        latest := starts[i];
      }
    }
  }

  /** A root with a group of children large enough to be a candidate. */
  ghost predicate HasDivergence(ms: Forest, minDuplicates: int, root: Id, turn: Turn) {
    && root in ById(ms)
    && ById(ms)[root].parent == Some(VIRTUAL_ROOT)
    && turn != TurnOf(ById(ms)[root])
    && ChildrenReading(ms, root, turn) != []
    && |ChildrenReading(ms, root, turn)| >= minDuplicates
  }

  ghost predicate Covers(ms: Forest, cands: seq<Candidate>, root: Id, turn: Turn) {
    exists c :: c in cands && c.staleRoot == root && c.starts == IdsOf(ChildrenReading(ms, root, turn))
  }

  method CandidateFor(ms: Forest, minDuplicates: int, root: Message, turn: Turn, starts: seq<Message>)
      returns (c: Candidate)
    requires root in ms && HasDivergence(ms, minDuplicates, root.id, turn)
    requires starts == ChildrenReading(ms, root.id, turn)
    ensures IsCandidate(ms, minDuplicates, c)
    ensures c.staleRoot == root.id && c.starts == IdsOf(starts)
  {
    hide Filter, LogOrder, IsBestHead, ById, IsForest, InLogOrder, ChildrenReading;
    var selected := LatestStart(ms, starts);
    var head := BestDescendant(ms, selected.id);
    var kept := DescendantIds(ms, selected.id);
    c := Candidate(root.id, IdsOf(starts), selected.id, head, kept);
    StartsOf(ms, root.id, turn);
    StartIn(starts, selected);
  }

  lemma StartIn(starts: seq<Message>, selected: Message)
    requires selected in starts
    ensures selected.id in IdsOf(starts)
  {
    var i :| 0 <= i < |starts| && starts[i] == selected;
    assert IdsOf(starts)[i] == selected.id;
  }

  lemma StartsOf(ms: Forest, root: Id, turn: Turn)
    ensures forall d :: d in IdsOf(ChildrenReading(ms, root, turn)) ==>
      && d in ById(ms)
      && ById(ms)[d] in ChildrenReading(ms, root, turn)
      && ById(ms)[d].parent == Some(root)
      && TurnOf(ById(ms)[d]) == turn
  {
    hide Filter, ById;
    var starts := ChildrenReading(ms, root, turn);
    forall d | d in IdsOf(starts) ensures d in ById(ms) && ById(ms)[d] in starts {
      var i :| 0 <= i < |starts| && IdsOf(starts)[i] == d;
      assert starts[i] in starts;
    }
  }

  ghost predicate AllCandidates(ms: Forest, minDuplicates: int, cands: seq<Candidate>) {
    forall c :: c in cands ==> IsCandidate(ms, minDuplicates, c)
  }

  /** Every divergence at the first `n` messages has its candidate. */
  ghost predicate CoversUpTo(ms: Forest, minDuplicates: int, cands: seq<Candidate>, n: nat)
    requires n <= |ms|
  {
    forall i, turn :: 0 <= i < n && HasDivergence(ms, minDuplicates, ms[i].id, turn) ==>
      Covers(ms, cands, ms[i].id, turn)
  }

  /** The candidates at one root. */
  method CandidatesAt(ms: Forest, minDuplicates: int, root: Message) returns (cands: seq<Candidate>)
    requires root in ms && root.parent == Some(VIRTUAL_ROOT)
    ensures AllCandidates(ms, minDuplicates, cands)
    ensures forall turn :: HasDivergence(ms, minDuplicates, root.id, turn) ==> Covers(ms, cands, root.id, turn)
  {
    hide Filter, ById, IsCandidate, IsForest, Children;
    var keys, groups := ReplacementChildrenByContent(root, Children(ms, root.id));
    cands := [];
    for i := 0 to |keys|
      invariant AllCandidates(ms, minDuplicates, cands)
      invariant forall j :: 0 <= j < i && HasDivergence(ms, minDuplicates, root.id, keys[j]) ==>
        Covers(ms, cands, root.id, keys[j])
    {
      var starts := groups[keys[i]];
      if |starts| >= minDuplicates {
        RootLookup(ms, root);
        var c := CandidateFor(ms, minDuplicates, root, keys[i], starts);
        CoversMore(ms, cands, c, root.id);
        cands := cands + [c];
      }
    }
    forall turn | HasDivergence(ms, minDuplicates, root.id, turn) ensures Covers(ms, cands, root.id, turn) {
      RootLookup(ms, root);
      assert turn in groups;
      var j :| 0 <= j < |keys| && keys[j] == turn;
    }
  }

  lemma RootLookup(ms: Forest, root: Message)
    requires root in ms
    ensures root.id in ById(ms) && ById(ms)[root.id] == root
  {
    hide ById;
  }

  lemma CoversMore(ms: Forest, cands: seq<Candidate>, c: Candidate, root: Id)
    ensures forall turn :: Covers(ms, cands, root, turn) ==> Covers(ms, cands + [c], root, turn)
    ensures forall turn :: c.staleRoot == root && c.starts == IdsOf(ChildrenReading(ms, root, turn)) ==>
      Covers(ms, cands + [c], root, turn)
  {
    hide Filter, ById, IsForest;
    forall turn | Covers(ms, cands, root, turn) ensures Covers(ms, cands + [c], root, turn) {
      var d :| d in cands && d.staleRoot == root && d.starts == IdsOf(ChildrenReading(ms, root, turn));
      assert d in cands + [c];
    }
    assert c in cands + [c];
  }

  lemma CoversJoin(ms: Forest, a: seq<Candidate>, b: seq<Candidate>, root: Id, turn: Turn)
    requires Covers(ms, a, root, turn) || Covers(ms, b, root, turn)
    ensures Covers(ms, a + b, root, turn)
  {
    hide ChildrenReading, ById, IsForest;
    if Covers(ms, a, root, turn) {
      var c :| c in a && c.staleRoot == root && c.starts == IdsOf(ChildrenReading(ms, root, turn));
      assert c in a + b;
    } else {
      var c :| c in b && c.staleRoot == root && c.starts == IdsOf(ChildrenReading(ms, root, turn));
      assert c in a + b;
    }
  }

  /** All candidates of a log: each is one, and none is missing. */
  method RootDivergenceCandidates(ms: Forest, minDuplicates: int) returns (cands: seq<Candidate>)
    ensures AllCandidates(ms, minDuplicates, cands)
    ensures CoversUpTo(ms, minDuplicates, cands, |ms|)
  {
    hide *;
    cands := [];
    NothingCovered(ms, minDuplicates);
    for i := 0 to |ms|
      invariant AllCandidates(ms, minDuplicates, cands)
      invariant CoversUpTo(ms, minDuplicates, cands, i)
    {
      var more := [];
      NoCandidates(ms, minDuplicates);
      if ms[i].parent == Some(VIRTUAL_ROOT) {
        more := CandidatesAt(ms, minDuplicates, ms[i]);
      } else {
        NotARoot(ms, minDuplicates, ms[i]);
      }
      CoversNext(ms, minDuplicates, cands, more, i);
      cands := cands + more;
    }
  }

  lemma NothingCovered(ms: Forest, minDuplicates: int)
    ensures AllCandidates(ms, minDuplicates, []) && CoversUpTo(ms, minDuplicates, [], 0)
  {
  }

  lemma NoCandidates(ms: Forest, minDuplicates: int)
    ensures AllCandidates(ms, minDuplicates, [])
  {
  }

  lemma NotARoot(ms: Forest, minDuplicates: int, m: Message)
    requires m in ms && m.parent != Some(VIRTUAL_ROOT)
    ensures forall turn :: !HasDivergence(ms, minDuplicates, m.id, turn)
  {
    RootLookup(ms, m);
  }

  lemma CoversNext(ms: Forest, minDuplicates: int, cands: seq<Candidate>, more: seq<Candidate>, n: nat)
    requires n < |ms| && CoversUpTo(ms, minDuplicates, cands, n)
    requires AllCandidates(ms, minDuplicates, cands) && AllCandidates(ms, minDuplicates, more)
    requires forall turn :: HasDivergence(ms, minDuplicates, ms[n].id, turn) ==> Covers(ms, more, ms[n].id, turn)
    ensures AllCandidates(ms, minDuplicates, cands + more)
    ensures CoversUpTo(ms, minDuplicates, cands + more, n + 1)
  {
    hide HasDivergence, Covers, IsCandidate, ById, IsForest;
    forall i, turn | 0 <= i < n + 1 && HasDivergence(ms, minDuplicates, ms[i].id, turn)
      ensures Covers(ms, cands + more, ms[i].id, turn)
    {
      CoversJoin(ms, cands, more, ms[i].id, turn);
    }
  }

  // ----- The salvage

  datatype SalvageResult = NoCandidate | Salvaged(
    candidate: Candidate,
    repaired: seq<Event>,
    preserved: set<Id>,
    unmapped: nat,
    remapped: nat)

  /** Candidates are ranked by what they keep, then by how often it was written, then by head. */
  predicate Outranks(a: Candidate, b: Candidate) {
    || |a.kept| > |b.kept|
    || (|a.kept| == |b.kept| && |a.starts| > |b.starts|)
    || (|a.kept| == |b.kept| && |a.starts| == |b.starts| && StringLess(b.head, a.head))
  }

  lemma OutranksStrict(best: Candidate, next: Candidate, c: Candidate)
    requires Outranks(next, best) && !Outranks(c, best)
    ensures !Outranks(c, next)
  {
    if StringLess(best.head, next.head) && StringLess(next.head, c.head) {
      StringLessTransitive(best.head, next.head, c.head);
    }
  }

  lemma OutranksIrreflexive(c: Candidate)
    ensures !Outranks(c, c)
  {
    StringLessTotal(c.head, c.head);
  }

  /** A candidate is determined by its root and its group of starts. */
  lemma CandidateUnique(ms: Forest, minDuplicates: int, c: Candidate, d: Candidate)
    requires IsCandidate(ms, minDuplicates, c) && IsCandidate(ms, minDuplicates, d)
    requires c.staleRoot == d.staleRoot && c.starts == d.starts
    ensures c == d
  {
    hide Filter, ById, IsForest, IsLeaf, ChildrenReading, InLogOrder, LogOrder, Subtree, Below;
    SameOrderSameId(ms, c.selected, d.selected);
    SameOrderSameId(ms, c.head, d.head);
  }

  lemma SameOrderSameId(ms: Forest, a: Id, b: Id)
    requires a in ById(ms) && b in ById(ms) && LogOrder(ms)[a] == LogOrder(ms)[b]
    ensures a == b
  {
    hide Filter, ById, IsForest, LogOrder;
  }

  /** The search misses no candidate. */
  lemma CandidateFound(ms: Forest, minDuplicates: int, cands: seq<Candidate>, c: Candidate)
    requires IsCandidate(ms, minDuplicates, c) && AllCandidates(ms, minDuplicates, cands)
    requires CoversUpTo(ms, minDuplicates, cands, |ms|)
    ensures c in cands
  {
    hide Filter, ById, IsForest, LogOrder, IsBestHead, InLogOrder;
    var turn := TurnOf(ById(ms)[c.selected]);
    var root := ById(ms)[c.staleRoot];
    assert ById(ms)[c.selected] in ChildrenReading(ms, c.staleRoot, turn);
    assert HasDivergence(ms, minDuplicates, c.staleRoot, turn);
    var i :| 0 <= i < |ms| && ms[i] == root;
    assert Covers(ms, cands, ms[i].id, turn);
    var d :| d in cands && d.staleRoot == c.staleRoot && d.starts == IdsOf(ChildrenReading(ms, c.staleRoot, turn));
    CandidateUnique(ms, minDuplicates, c, d);
  }

  /** Different candidates have different heads, so of two of them one outranks the other, and it
      does not matter in which order they are found. */
  lemma CandidatesRanked(ms: Forest, minDuplicates: int, c: Candidate, d: Candidate)
    requires IsCandidate(ms, minDuplicates, c) && IsCandidate(ms, minDuplicates, d)
    requires !Outranks(c, d) && !Outranks(d, c)
    ensures c == d
  {
    hide Filter, ById, IsForest, InLogOrder, LogOrder, IsLeaf, Subtree;
    StringLessTotal(c.head, d.head);
    SelectedOnPath(ms, minDuplicates, c);
    SelectedOnPath(ms, minDuplicates, d);
    CandidateUnique(ms, minDuplicates, c, d);
  }

  /** The selected start is the second message on the lineage of the candidate's head. */
  lemma SelectedOnPath(ms: Forest, minDuplicates: int, c: Candidate)
    requires IsCandidate(ms, minDuplicates, c)
    ensures c.head in ById(ms) && |Path(ById(ms), c.head)| > 1 && Path(ById(ms), c.head)[1] == c.selected
  {
    hide Filter, ById, InLogOrder, LogOrder, IsLeaf;
    CandidateIsRepair(ms, minDuplicates, c);
    StartPaths(RepairCase(ms, c), c.selected);
    assert c.head in Subtree(ms, c.selected);
    var path := Path(ById(ms), c.head);
    var k :| 0 <= k < |path| && path[k] == c.selected;
    WalkPrefix(ById(ms), c.head, path, k);
    WalkUnique(ById(ms), c.selected, path[..k + 1], Path(ById(ms), c.selected));
    assert path[..k + 1][1] == c.selected;
  }

  /** The list holds exactly the candidates. */
  lemma CandidatesFound(ms: Forest, minDuplicates: int, cands: seq<Candidate>)
    requires AllCandidates(ms, minDuplicates, cands) && CoversUpTo(ms, minDuplicates, cands, |ms|)
    ensures forall c :: IsCandidate(ms, minDuplicates, c) <==> c in cands
  {
    hide IsCandidate, CoversUpTo;
    forall c | IsCandidate(ms, minDuplicates, c) ensures c in cands {
      CandidateFound(ms, minDuplicates, cands, c);
    }
  }

  lemma CandidateIsRepair(ms: Forest, minDuplicates: int, c: Candidate)
    requires IsCandidate(ms, minDuplicates, c)
    ensures IsRepair(RepairCase(ms, c))
  {
    hide Filter, ById, IsForest, LogOrder, IsBestHead, InLogOrder;
  }

  /** The result holds what the pass over the log made for a candidate. */
  ghost predicate HoldsRepair(r: Repair, events: seq<Event>, result: SalvageResult) {
    && r.ms == Messages(events)
    && result.Salvaged?
    && result.repaired == Repaired(r, events)
    && result.preserved == PreservedAt(r, events, |events|)
    && (result.unmapped, result.remapped) == SidecarCounts(r, events, |events|)
  }

  /** The repair was made for a candidate that no other outranks. */
  ghost predicate RepairsBest(ms: Forest, events: seq<Event>, minDuplicates: int, result: SalvageResult)
    requires ms == Messages(events) && result.Salvaged?
  {
    && IsCandidate(ms, minDuplicates, result.candidate)
    && (forall c :: IsCandidate(ms, minDuplicates, c) ==> !Outranks(c, result.candidate))
    && exists r: Repair :: r.ms == ms && r.c == result.candidate && HoldsRepair(r, events, result)
  }

  /** The whole salvage: it repairs a divergence exactly when there is one, and then one that no
      other outranks. */
  method SalvageRootDivergence(events: seq<Event>, minDuplicates: int) returns (result: SalvageResult)
    requires UniqueIds(Messages(events)) && IsForest(Messages(events))
    ensures result.Salvaged? <==> exists c :: IsCandidate(Messages(events), minDuplicates, c)
    ensures result.Salvaged? ==> RepairsBest(Messages(events), events, minDuplicates, result)
    ensures result.Salvaged? ==> KeepsMost(Messages(events), minDuplicates, result.candidate)
  {
    hide KeepsMost;
    hide Filter, ById, Messages, IsForest, IsRepair, IsCandidate, AllCandidates, Outranks, CoversUpTo;
    hide Repaired, PreservedAt, SidecarCounts;
    var ms: Forest := Messages(events);
    var cands := RootDivergenceCandidates(ms, minDuplicates);
    CandidatesFound(ms, minDuplicates, cands);
    if cands == [] {
      return NoCandidate;
    }
    var best := Best(cands);
    CandidateIsRepair(ms, minDuplicates, best);
    var r: Repair := RepairCase(ms, best);
    var repaired, preserved, unmapped, remapped := RepairEvents(events, r);
    result := Salvaged(best, repaired, preserved, unmapped, remapped);
    assert HoldsRepair(r, events, result);
    BestKeepsMost(ms, minDuplicates, best);
  }

  /** No candidate keeps more messages; none that keeps as many was written more often; of those
      written as often none has a greater head. */
  ghost predicate KeepsMost(ms: Forest, minDuplicates: int, best: Candidate) {
    forall c :: IsCandidate(ms, minDuplicates, c) ==>
      && |c.kept| <= |best.kept|
      && (|c.kept| == |best.kept| ==> |c.starts| <= |best.starts|)
      && (|c.kept| == |best.kept| && |c.starts| == |best.starts| ==>
            c.head == best.head || StringLess(c.head, best.head))
  }

  lemma BestKeepsMost(ms: Forest, minDuplicates: int, best: Candidate)
    requires forall c :: IsCandidate(ms, minDuplicates, c) ==> !Outranks(c, best)
    ensures KeepsMost(ms, minDuplicates, best)
  {
    hide IsCandidate, StringLess;
    forall c | IsCandidate(ms, minDuplicates, c) && |c.kept| == |best.kept| && |c.starts| == |best.starts|
      ensures c.head == best.head || StringLess(c.head, best.head)
    {
      StringLessTotal(c.head, best.head);
      assert !Outranks(c, best);
    }
    forall c | IsCandidate(ms, minDuplicates, c)
      ensures |c.kept| <= |best.kept| && (|c.kept| == |best.kept| ==> |c.starts| <= |best.starts|)
    {
      assert !Outranks(c, best);
    }
  }

  /** The first candidate that no other outranks. */
  method Best(cands: seq<Candidate>) returns (best: Candidate)
    requires cands != []
    ensures best in cands && forall c :: c in cands ==> !Outranks(c, best)
  {
    hide Outranks;
    best := cands[0];
    OutranksIrreflexive(best);
    for i := 1 to |cands|
      invariant best in cands
      invariant forall k :: 0 <= k < i ==> !Outranks(cands[k], best)
    {
      if Outranks(cands[i], best) {
        forall k | 0 <= k < i ensures !Outranks(cands[k], cands[i]) {
          OutranksStrict(best, cands[i], cands[k]);
        }
        OutranksIrreflexive(cands[i]);
        best := cands[i];
      }
    }
  }

  lemma {:induction false} FilterUnique(ms: seq<Message>, keep: Message -> bool)
    requires UniqueIds(ms)
    ensures UniqueIds(Filter(ms, keep))
  {
    if ms != [] {
      var last := ms[|ms| - 1];
      var rest := ms[..|ms| - 1];
      assert ms == rest + [last];
      FilterUnique(rest, keep);
      var r := Filter(rest, keep);
      forall i | 0 <= i < |r| ensures r[i].id != last.id {
        assert r[i] in r;
      }
    }
  }

  /** Asked for at least two duplicates, a salvage removes at least one message. */
  lemma SalvageShrinks(r: Repair, events: seq<Event>, minDuplicates: int)
    requires r.ms == Messages(events) && UniqueIds(r.ms)
    requires IsCandidate(r.ms, minDuplicates, r.c) && minDuplicates >= 2
    ensures |Messages(Repaired(r, events))| < |r.ms|
  {
    hide Filter, ById, Messages, Repaired, Collapsed, LogOrder, IsBestHead, Divergence;
    RepairedJournal(r, events);
    SalvageRemovesDuplicates(r);
    SecondStart(r.ms, minDuplicates, r.c);
  }

  lemma SecondStart(ms: Forest, minDuplicates: int, c: Candidate)
    requires UniqueIds(ms) && IsCandidate(ms, minDuplicates, c) && minDuplicates >= 2
    ensures exists d :: d in c.starts && d != c.selected
  {
    hide Filter, ById, LogOrder, IsBestHead, InLogOrder;
    var turn := TurnOf(ById(ms)[c.selected]);
    FilterUnique(ms, (m: Message) => c.staleRoot != "" && m.parent == Some(c.staleRoot));
    FilterUnique(Children(ms, c.staleRoot), (m: Message) => TurnOf(m) == turn);
    var starts := ChildrenReading(ms, c.staleRoot, turn);
    assert UniqueIds(starts);
    assert c.starts[0] == starts[0].id && c.starts[1] == starts[1].id;
    assert c.starts[0] in c.starts && c.starts[1] in c.starts;
  }

  // ----- Repeated salvage

  /** `next` is what salvaging some candidate of `events` writes. */
  ghost predicate SalvageStep(events: seq<Event>, next: seq<Event>, minDuplicates: int) {
    exists r: Repair ::
      r.ms == Messages(events) && IsCandidate(r.ms, minDuplicates, r.c) && next == Repaired(r, events)
  }

  ghost predicate SalvageRun(journals: seq<seq<Event>>, minDuplicates: int) {
    && |journals| > 0
    && UniqueIds(Messages(journals[0]))
    && IsForest(Messages(journals[0]))
    && forall i :: 0 < i < |journals| ==> SalvageStep(journals[i - 1], journals[i], minDuplicates)
  }

  lemma StepShrinks(events: seq<Event>, next: seq<Event>, minDuplicates: int)
    requires UniqueIds(Messages(events)) && SalvageStep(events, next, minDuplicates)
    ensures UniqueIds(Messages(next)) && IsForest(Messages(next))
    ensures minDuplicates >= 2 ==> |Messages(next)| < |Messages(events)|
  {
    hide Messages, UniqueIds, IsForest, IsCandidate, Repaired;
    var r: Repair :|
      r.ms == Messages(events) && IsCandidate(r.ms, minDuplicates, r.c) && next == Repaired(r, events);
    RepairedIsForest(r, events);
    if minDuplicates >= 2 {
      SalvageShrinks(r, events, minDuplicates);
    }
  }

  /** Salvaging again and again ends: with at least two duplicates asked for, no run is longer than
      the first journal; and every journal of a run can be salvaged again. */
  lemma {:induction false} RepeatedSalvageEnds(journals: seq<seq<Event>>, minDuplicates: int)
    requires SalvageRun(journals, minDuplicates)
    ensures var last := journals[|journals| - 1];
      && UniqueIds(Messages(last)) && IsForest(Messages(last))
      && (minDuplicates >= 2 ==> |journals| - 1 + |Messages(last)| <= |Messages(journals[0])|)
  {
    hide Messages, UniqueIds, IsForest, SalvageStep;
    var n := |journals| - 1;
    if n > 0 {
      RunPrefix(journals, minDuplicates);
      RepeatedSalvageEnds(journals[..n], minDuplicates);
      StepShrinks(journals[n - 1], journals[n], minDuplicates);
    }
  }

  /** After any number of salvages a message that is still there reads as it first did, without at
      most as many turns at the top as there were salvages. */
  lemma {:induction false} RepeatedSalvageReads(journals: seq<seq<Event>>, minDuplicates: int, id: Id) returns (k: nat)
    requires SalvageRun(journals, minDuplicates)
    requires id in ById(Messages(journals[|journals| - 1]))
    ensures var first, last := ById(Messages(journals[0])), ById(Messages(journals[|journals| - 1]));
      && id in first && Rooted(first, id) && Rooted(last, id)
      && k < |journals| && k <= |Lineage(first, id)|
      && Lineage(last, id) == Lineage(first, id)[k..]
  {
    hide Messages, UniqueIds, ById, Lineage, SalvageStep, SalvageRun, Rooted, IsForest;
    var n := |journals| - 1;
    RunPrefix(journals, minDuplicates);
    if n == 0 {
      k := 0;
      FirstRooted(journals, minDuplicates, id);
      assert Lineage(ById(Messages(journals[0])), id)[0..] == Lineage(ById(Messages(journals[0])), id);
    } else {
      RepeatedSalvageEnds(journals[..n], minDuplicates);
      var dropped := StepReads(journals[n - 1], journals[n], minDuplicates, id);
      var before := RepeatedSalvageReads(journals[..n], minDuplicates, id);
      k := before + dropped;
      DropTwice(Lineage(ById(Messages(journals[0])), id), before, dropped);
    }
  }

  lemma DropTwice(turns: seq<Turn>, a: nat, b: nat)
    requires a <= |turns| && b <= |turns[a..]|
    ensures a + b <= |turns| && turns[a..][b..] == turns[a + b..]
  {
  }

  lemma FirstRooted(journals: seq<seq<Event>>, minDuplicates: int, id: Id)
    requires SalvageRun(journals, minDuplicates) && id in ById(Messages(journals[0]))
    ensures Rooted(ById(Messages(journals[0])), id)
  {
    hide Messages, ById, Rooted, SalvageStep, UniqueIds;
  }

  lemma RunPrefix(journals: seq<seq<Event>>, minDuplicates: int)
    requires SalvageRun(journals, minDuplicates)
    ensures |journals| > 0
    ensures |journals| > 1 ==>
      && SalvageRun(journals[..|journals| - 1], minDuplicates)
      && SalvageStep(journals[|journals| - 2], journals[|journals| - 1], minDuplicates)
  {
    hide Messages, UniqueIds, IsForest, SalvageStep;
    if |journals| > 1 {
      var rest := journals[..|journals| - 1];
      assert forall i :: 0 <= i < |rest| ==> rest[i] == journals[i];
    }
  }

  lemma StepReads(events: seq<Event>, next: seq<Event>, minDuplicates: int, id: Id) returns (dropped: nat)
    requires UniqueIds(Messages(events)) && SalvageStep(events, next, minDuplicates)
    requires id in ById(Messages(next))
    ensures id in ById(Messages(events)) && Rooted(ById(Messages(events)), id) && Rooted(ById(Messages(next)), id)
    ensures dropped <= 1 && dropped <= |Lineage(ById(Messages(events)), id)|
    ensures Lineage(ById(Messages(next)), id) == Lineage(ById(Messages(events)), id)[dropped..]
  {
    hide Messages, UniqueIds, ById, Repaired, IsCandidate, Filter, Collapsed, ThroughStart;
    var r: Repair :|
      r.ms == Messages(events) && IsCandidate(r.ms, minDuplicates, r.c) && next == Repaired(r, events);
    SalvageKeepsMeaning(r, events, id);
    PathStep(ById(r.ms), id);
    dropped := if ThroughStart(r, id) then 1 else 0;
  }
}
