/**
 Canonical prefix collapse: folding a log of messages, in append order, into a trie whose nodes
 are told apart by (canonical parent, role, content).
 */
module PrefixCollapse {
  import opened Journal
  import opened Text

  /** The latest of the first `n` nodes that carries `id`. */
  function Latest(nodes: seq<Message>, n: nat, id: Id): (r: Option<nat>)
    requires n <= |nodes|
    ensures r.Some? ==> r.value < n && nodes[r.value].id == id
    ensures r.None? ==> forall j :: 0 <= j < n ==> nodes[j].id != id
    ensures r.Some? ==> forall j :: r.value < j < n ==> nodes[j].id != id
  {
    if n == 0 then None
    else if nodes[n - 1].id == id then Some(n - 1)
    else Latest(nodes, n - 1, id)
  }

  function LoggedParent(nodes: seq<Message>, i: nat): Option<nat>
    requires i < |nodes|
  {
    match nodes[i].parent
    case None => None
    case Some(p) => Latest(nodes, i, p)
  }

  /** What the i-th node reads from its root, following parents logged before it. */
  function LoggedPath(nodes: seq<Message>, i: nat): (path: seq<Turn>)
    requires i < |nodes|
    ensures |path| > 0
  {
    match LoggedParent(nodes, i)
    case None => [TurnOf(nodes[i])]
    case Some(j) => LoggedPath(nodes, j) + [TurnOf(nodes[i])]
  }

  function CanonId(k: nat): Id {
    "c" + Decimal(k)
  }

  lemma CanonIdInjective(j: nat, k: nat)
    requires CanonId(j) == CanonId(k)
    ensures j == k
  {
    assert CanonId(j)[1..] == Decimal(j) && CanonId(k)[1..] == Decimal(k);
    DecimalInjective(j, k);
  }

  /** What tells canonical nodes apart. */
  datatype Key = Key(parent: Option<Id>, turn: Turn)

  function KeyOf(m: Message): Key {
    Key(m.parent, TurnOf(m))
  }

  /** `reading` gives what each canonical node reads from its root. */
  ghost predicate ReadsAs(canon: map<Id, Message>, reading: map<Id, seq<Turn>>) {
    && reading.Keys == canon.Keys
    && (forall c :: c in canon ==> canon[c].id == c)
    && (forall c :: c in canon && canon[c].parent.None? ==> reading[c] == [TurnOf(canon[c])])
    && (forall c :: c in canon && canon[c].parent.Some? ==>
          && canon[c].parent.value in canon
          && reading[c] == reading[canon[c].parent.value] + [TurnOf(canon[c])])
    && (forall c :: c in canon ==> |reading[c]| > 0)
  }

  /** Two canonical nodes never read the same, and the key table finds each of them. */
  ghost predicate IsTrie(canon: map<Id, Message>, keys: map<Key, Id>, reading: map<Id, seq<Turn>>) {
    && ReadsAs(canon, reading)
    && (forall c, d :: c in canon && d in canon && reading[c] == reading[d] ==> c == d)
    && KeysFind(canon, keys)
  }

  /** The key table holds exactly the canonical nodes' keys. */
  ghost predicate KeysFind(canon: map<Id, Message>, keys: map<Key, Id>) {
    && (forall c :: c in canon ==> KeyOf(canon[c]) in keys && keys[KeyOf(canon[c])] == c)
    && (forall k :: k in keys ==> keys[k] in canon && KeyOf(canon[keys[k]]) == k)
  }

  /** Every id logged so far maps to the canonical node that reads its path. */
  ghost predicate Mapped(nodes: seq<Message>, n: nat, toCanon: map<Id, Id>, reading: map<Id, seq<Turn>>)
    requires n <= |nodes|
  {
    && (forall id :: id in toCanon <==> Latest(nodes, n, id).Some?)
    && (forall id :: id in toCanon ==> toCanon[id] in reading)
    && (forall id :: id in toCanon ==> reading[toCanon[id]] == LoggedPath(nodes, Latest(nodes, n, id).value))
  }

  ghost function PathsLogged(nodes: seq<Message>, n: nat): set<seq<Turn>>
    requires n <= |nodes|
  {
    if n == 0 then {} else PathsLogged(nodes, n - 1) + {LoggedPath(nodes, n - 1)}
  }

  /** The first `n` nodes are folded: their ids map to the nodes reading their paths, and no
      other path has a canonical node. */
  ghost predicate Folded(nodes: seq<Message>, n: nat, toCanon: map<Id, Id>, reading: map<Id, seq<Turn>>)
    requires n <= |nodes|
  {
    Mapped(nodes, n, toCanon, reading) && reading.Values == PathsLogged(nodes, n)
  }

  /** What an id reads from its root, by its latest occurrence. */
  function PathOf(nodes: seq<Message>, id: Id): seq<Turn>
    requires Latest(nodes, |nodes|, id).Some?
  {
    LoggedPath(nodes, Latest(nodes, |nodes|, id).value)
  }

  /** Every id has its canonical node; two ids share one exactly when their paths read the same;
      the canonical lineage of an id reads its path; and there is one node for each path. */
  ghost predicate Collapses(nodes: seq<Message>, toCanon: map<Id, Id>, canon: map<Id, Message>) {
    && (forall id :: id in toCanon <==> Latest(nodes, |nodes|, id).Some?)
    && (forall a, b :: a in toCanon && b in toCanon ==>
          (toCanon[a] == toCanon[b] <==> PathOf(nodes, a) == PathOf(nodes, b)))
    && (forall id :: id in toCanon ==>
          Rooted(canon, toCanon[id]) && Lineage(canon, toCanon[id]) == PathOf(nodes, id))
    && |canon| == |PathsLogged(nodes, |nodes|)|
    && (forall path :: path in PathsLogged(nodes, |nodes|) <==> IsLoggedPath(nodes, |nodes|, path))
  }

  /** The fold over the nodes in append order. */
  method CollapsePrefix(nodes: seq<Message>) returns (toCanon: map<Id, Id>, canon: map<Id, Message>)
    ensures Collapses(nodes, toCanon, canon)
  {
    hide IsTrie, Mapped, LoggedPath, CanonId, Collapses;
    var keys: map<Key, Id> := map[];
    ghost var reading: map<Id, seq<Turn>> := map[];
    Nothing(nodes);
    toCanon, canon := map[], map[];
    var next := 0;
    for i := 0 to |nodes|
      invariant IsTrie(canon, keys, reading)
      invariant Folded(nodes, i, toCanon, reading)
      invariant reading.Keys == canon.Keys
      invariant forall c :: c in canon ==> exists k :: 0 <= k < next && c == CanonId(k)
    {
      var n := nodes[i];
      MappedIsCanonical(nodes, i, toCanon, reading);
      var parent := if n.parent.Some? && n.parent.value in toCanon then Some(toCanon[n.parent.value]) else None;
      ghost var path := (if parent.Some? then reading[parent.value] else []) + [TurnOf(n)];
      PathFromMap(nodes, i, toCanon, reading);
      var key := Key(parent, TurnOf(n));
      if key in keys {
        SameKeySamePath(canon, keys, reading, key);
        FoldAgain(nodes, i, toCanon, reading, keys[key]);
        toCanon := toCanon[n.id := keys[key]];
      } else {
        var c := CanonId(next);
        forall k | 0 <= k < next && c == CanonId(k) ensures false {
          CanonIdInjective(k, next);
        }
        var node := Message(c, parent, n.role, n.content, None);
        TrieGrows(canon, keys, reading, node);
        FoldNew(nodes, i, toCanon, reading, c);
        next := next + 1;
        keys, toCanon, canon := keys[key := c], toCanon[n.id := c], canon[c := node];
        reading := reading[c := path];
      }
    }
    TrieCollapses(nodes, toCanon, canon, keys, reading);
  }

  lemma Nothing(nodes: seq<Message>)
    ensures IsTrie(map[], map[], map[]) && Mapped(nodes, 0, map[], map[])
  {
  }

  lemma MappedIsCanonical(nodes: seq<Message>, n: nat, toCanon: map<Id, Id>, reading: map<Id, seq<Turn>>)
    requires n <= |nodes| && Mapped(nodes, n, toCanon, reading)
    ensures forall id :: id in toCanon ==> toCanon[id] in reading
  {
  }

  lemma PathFromMap(nodes: seq<Message>, i: nat, toCanon: map<Id, Id>, reading: map<Id, seq<Turn>>)
    requires i < |nodes| && Mapped(nodes, i, toCanon, reading)
    ensures LoggedPath(nodes, i) ==
      (if nodes[i].parent.Some? && nodes[i].parent.value in toCanon
       then reading[toCanon[nodes[i].parent.value]] else [])
        + [TurnOf(nodes[i])]
  {
  }

  lemma SameKeySamePath(canon: map<Id, Message>, keys: map<Key, Id>, reading: map<Id, seq<Turn>>, key: Key)
    requires IsTrie(canon, keys, reading) && key in keys
    requires key.parent.Some? ==> key.parent.value in canon
    ensures keys[key] in reading
    ensures reading[keys[key]] == (if key.parent.Some? then reading[key.parent.value] else []) + [key.turn]
  {
    assert KeyOf(canon[keys[key]]) == key;
  }

  lemma MapNext(nodes: seq<Message>, i: nat, toCanon: map<Id, Id>, reading: map<Id, seq<Turn>>, c: Id)
    requires i < |nodes| && Mapped(nodes, i, toCanon, reading)
    requires c in reading ==> reading[c] == LoggedPath(nodes, i)
    ensures Mapped(nodes, i + 1, toCanon[nodes[i].id := c], reading[c := LoggedPath(nodes, i)])
  {
    hide LoggedPath, Latest;
    forall id ensures Latest(nodes, i + 1, id) == if nodes[i].id == id then Some(i) else Latest(nodes, i, id) {
      LatestStep(nodes, i, id);
    }
  }

  lemma LatestStep(nodes: seq<Message>, i: nat, id: Id)
    requires i < |nodes|
    ensures Latest(nodes, i + 1, id) == if nodes[i].id == id then Some(i) else Latest(nodes, i, id)
  {
  }

  lemma FoldAgain(nodes: seq<Message>, i: nat, toCanon: map<Id, Id>, reading: map<Id, seq<Turn>>, c: Id)
    requires i < |nodes| && Folded(nodes, i, toCanon, reading)
    requires c in reading && reading[c] == LoggedPath(nodes, i)
    ensures Folded(nodes, i + 1, toCanon[nodes[i].id := c], reading)
  {
    hide LoggedPath, Mapped;
    MapNext(nodes, i, toCanon, reading, c);
    assert reading == reading[c := LoggedPath(nodes, i)];
  }

  lemma FoldNew(nodes: seq<Message>, i: nat, toCanon: map<Id, Id>, reading: map<Id, seq<Turn>>, c: Id)
    requires i < |nodes| && Folded(nodes, i, toCanon, reading) && c !in reading
    ensures Folded(nodes, i + 1, toCanon[nodes[i].id := c], reading[c := LoggedPath(nodes, i)])
  {
    hide LoggedPath, Mapped;
    MapNext(nodes, i, toCanon, reading, c);
    ValuesGrow(reading, c, LoggedPath(nodes, i));
  }

  lemma ValuesGrow(reading: map<Id, seq<Turn>>, c: Id, path: seq<Turn>)
    requires c !in reading
    ensures reading[c := path].Values == reading.Values + {path}
  {
    var grown := reading[c := path];
    assert grown[c] == path;
    forall v | v in reading.Values ensures v in grown.Values {
      var d :| d in reading && reading[d] == v;
      assert grown[d] == v;
    }
  }

  /** A node with a new key reads a new path. */
  lemma TrieGrows(canon: map<Id, Message>, keys: map<Key, Id>, reading: map<Id, seq<Turn>>, node: Message)
    requires IsTrie(canon, keys, reading) && node.id !in canon && KeyOf(node) !in keys
    requires node.parent.Some? ==> node.parent.value in canon
    ensures var path := (if node.parent.Some? then reading[node.parent.value] else []) + [TurnOf(node)];
      IsTrie(canon[node.id := node], keys[KeyOf(node) := node.id], reading[node.id := path])
  {
    var path := (if node.parent.Some? then reading[node.parent.value] else []) + [TurnOf(node)];
    forall c | c in canon ensures reading[c] != path {
      if reading[c] == path {
        SamePathSameKey(canon, keys, reading, c, node);
      }
    }
    ReadsOneMore(canon, reading, node);
    KeysOneMore(canon, keys, node);
    hide KeyOf, ReadsAs;
  }

  lemma ReadsOneMore(canon: map<Id, Message>, reading: map<Id, seq<Turn>>, node: Message)
    requires ReadsAs(canon, reading) && node.id !in canon
    requires node.parent.Some? ==> node.parent.value in canon
    ensures var path := (if node.parent.Some? then reading[node.parent.value] else []) + [TurnOf(node)];
      ReadsAs(canon[node.id := node], reading[node.id := path])
  {
  }

  lemma KeysOneMore(canon: map<Id, Message>, keys: map<Key, Id>, node: Message)
    requires KeysFind(canon, keys) && node.id !in canon && KeyOf(node) !in keys
    ensures KeysFind(canon[node.id := node], keys[KeyOf(node) := node.id])
  {
    hide KeyOf;
  }

  lemma SamePathSameKey(canon: map<Id, Message>, keys: map<Key, Id>, reading: map<Id, seq<Turn>>, c: Id, node: Message)
    requires IsTrie(canon, keys, reading) && c in canon
    requires node.parent.Some? ==> node.parent.value in canon
    requires reading[c] == (if node.parent.Some? then reading[node.parent.value] else []) + [TurnOf(node)]
    ensures KeyOf(canon[c]) == KeyOf(node)
  {
    var above := if node.parent.Some? then reading[node.parent.value] else [];
    var above' := if canon[c].parent.Some? then reading[canon[c].parent.value] else [];
    assert reading[c] == above' + [TurnOf(canon[c])];
    assert reading[c][..|reading[c]| - 1] == above == above';
    assert reading[c][|reading[c]| - 1] == TurnOf(node) == TurnOf(canon[c]);
  }

  // ----- What the collapse means

  /** The canonical lineage of a node reads its path. */
  lemma {:induction false} TrieLineage(canon: map<Id, Message>, reading: map<Id, seq<Turn>>, c: Id)
    requires ReadsAs(canon, reading) && c in canon
    ensures Rooted(canon, c) && Lineage(canon, c) == reading[c]
    decreases |reading[c]|
  {
    if canon[c].parent.Some? {
      TrieLineage(canon, reading, canon[c].parent.value);
    }
    LineageExtend(canon, c);
  }

  /** Two ids share a canonical node exactly when their paths read the same, and the canonical
      lineage of an id reads its path. */
  lemma CollapseIsPathEquality(nodes: seq<Message>, toCanon: map<Id, Id>, canon: map<Id, Message>,
      keys: map<Key, Id>, reading: map<Id, seq<Turn>>, a: Id, b: Id)
    requires IsTrie(canon, keys, reading) && Folded(nodes, |nodes|, toCanon, reading)
    requires a in toCanon && b in toCanon
    ensures Latest(nodes, |nodes|, a).Some? && Latest(nodes, |nodes|, b).Some?
    ensures toCanon[a] == toCanon[b] <==> PathOf(nodes, a) == PathOf(nodes, b)
    ensures Rooted(canon, toCanon[a])
    ensures Lineage(canon, toCanon[a]) == PathOf(nodes, a)
  {
    TrieLineage(canon, reading, toCanon[a]);
  }

  lemma TrieCollapses(nodes: seq<Message>, toCanon: map<Id, Id>, canon: map<Id, Message>,
      keys: map<Key, Id>, reading: map<Id, seq<Turn>>)
    requires IsTrie(canon, keys, reading) && Folded(nodes, |nodes|, toCanon, reading)
    ensures Collapses(nodes, toCanon, canon)
  {
    hide IsTrie, LoggedPath, Latest, Rooted, Lineage, PathOf, PathsLogged, IsLoggedPath;
    CollapseCount(nodes, toCanon, canon, keys, reading);
    forall path ensures path in PathsLogged(nodes, |nodes|) <==> IsLoggedPath(nodes, |nodes|, path) {
      PathsLoggedMember(nodes, |nodes|, path);
    }
    forall a, b | a in toCanon && b in toCanon
      ensures toCanon[a] == toCanon[b] <==> PathOf(nodes, a) == PathOf(nodes, b)
      ensures Rooted(canon, toCanon[a]) && Lineage(canon, toCanon[a]) == PathOf(nodes, a)
    {
      CollapseIsPathEquality(nodes, toCanon, canon, keys, reading, a, b);
    }
  }

  /** There are as many canonical nodes as distinct paths. */
  lemma CollapseCount(nodes: seq<Message>, toCanon: map<Id, Id>, canon: map<Id, Message>,
      keys: map<Key, Id>, reading: map<Id, seq<Turn>>)
    requires IsTrie(canon, keys, reading) && Folded(nodes, |nodes|, toCanon, reading)
    ensures |canon| == |PathsLogged(nodes, |nodes|)|
  {
    InjectiveCount(reading);
    assert |reading.Keys| == |canon.Keys|;
  }

  lemma {:induction false} InjectiveCount(reading: map<Id, seq<Turn>>)
    requires forall c, d :: c in reading && d in reading && reading[c] == reading[d] ==> c == d
    ensures |reading.Keys| == |reading.Values|
    decreases |reading.Keys|
  {
    if c :| c in reading {
      var rest := reading - {c};
      assert rest.Keys == reading.Keys - {c};
      InjectiveCount(rest);
      assert reading == rest[c := reading[c]];
      ValuesGrow(rest, c, reading[c]);
      assert reading[c] !in rest.Values;
    }
  }

  ghost predicate IsLoggedPath(nodes: seq<Message>, n: nat, path: seq<Turn>)
    requires n <= |nodes|
  {
    exists i :: 0 <= i < n && LoggedPath(nodes, i) == path
  }

  lemma {:induction false} PathsLoggedMember(nodes: seq<Message>, n: nat, path: seq<Turn>)
    requires n <= |nodes|
    ensures path in PathsLogged(nodes, n) <==> IsLoggedPath(nodes, n, path)
  {
    hide LoggedPath;
    if n > 0 {
      PathsLoggedMember(nodes, n - 1, path);
      if IsLoggedPath(nodes, n, path) {
        var i :| 0 <= i < n && LoggedPath(nodes, i) == path;
        assert i < n - 1 ==> IsLoggedPath(nodes, n - 1, path);
      }
      if IsLoggedPath(nodes, n - 1, path) {
        var i :| 0 <= i < n - 1 && LoggedPath(nodes, i) == path;
      }
    }
  }

  /** Unique ids, and a parent that is logged at all is logged first. */
  ghost predicate ParentsFirst(nodes: seq<Message>) {
    && UniqueIds(nodes)
    && forall i, j :: 0 <= i < |nodes| && 0 <= j < |nodes| && nodes[i].parent == Some(nodes[j].id) ==> j < i
  }

  lemma ParentIndex(nodes: seq<Message>, i: nat)
    requires ParentsFirst(nodes) && i < |nodes|
    ensures nodes[i].id in ById(nodes) && ById(nodes)[nodes[i].id] == nodes[i]
    ensures HasParent(ById(nodes), nodes[i].id) <==> LoggedParent(nodes, i).Some?
  {
    hide ById;
    ByIdUnique(nodes, nodes[i]);
    if HasParent(ById(nodes), nodes[i].id) {
      var j :| 0 <= j < |nodes| && nodes[j] == ById(nodes)[nodes[i].parent.value];
    }
  }

  lemma LatestIsOnly(nodes: seq<Message>, i: nat)
    requires UniqueIds(nodes) && i < |nodes|
    ensures Latest(nodes, |nodes|, nodes[i].id) == Some(i)
  {
  }

  /** When parents come first, the path the fold follows is the node's lineage. */
  lemma {:induction false} LoggedPathIsLineage(nodes: seq<Message>, i: nat)
    requires ParentsFirst(nodes) && i < |nodes|
    ensures Rooted(ById(nodes), nodes[i].id)
    ensures Lineage(ById(nodes), nodes[i].id) == LoggedPath(nodes, i)
  {
    hide ById, ParentsFirst, Lineage, Rooted, Latest;
    ParentIndex(nodes, i);
    if LoggedParent(nodes, i).Some? {
      LoggedPathIsLineage(nodes, LoggedParent(nodes, i).value);
    }
    LineageExtend(ById(nodes), nodes[i].id);
  }

  /** For such logs two messages are folded together exactly when they have equal lineages, and
      the canonical lineage reads as the original one. */
  lemma CollapsePreservesLineage(nodes: seq<Message>, toCanon: map<Id, Id>, canon: map<Id, Message>, i: nat, j: nat)
    requires Collapses(nodes, toCanon, canon)
    requires ParentsFirst(nodes) && i < |nodes| && j < |nodes|
    ensures nodes[i].id in toCanon && nodes[j].id in toCanon
    ensures Rooted(ById(nodes), nodes[i].id) && Rooted(ById(nodes), nodes[j].id)
    ensures toCanon[nodes[i].id] == toCanon[nodes[j].id] <==>
      Lineage(ById(nodes), nodes[i].id) == Lineage(ById(nodes), nodes[j].id)
    ensures Rooted(canon, toCanon[nodes[i].id])
    ensures Lineage(canon, toCanon[nodes[i].id]) == Lineage(ById(nodes), nodes[i].id)
  {
    hide Lineage, Rooted, ById, LoggedPath, PathsLogged, IsLoggedPath;
    LoggedPathIsLineage(nodes, i);
    LoggedPathIsLineage(nodes, j);
    LatestIsOnly(nodes, i);
    LatestIsOnly(nodes, j);
  }

  // ----- Reading a lineage back, with the cycle check

  datatype LineageResult = Found(path: seq<Id>) | Missing | Cycle

  /** Walks to the root: a missing target is an error, and so is exactly a walk that never ends. */
  method CheckedLineage(nodes: map<Id, Message>, target: Id) returns (result: LineageResult)
    ensures result.Missing? <==> target !in nodes
    ensures result.Cycle? <==> target in nodes && !Rooted(nodes, target)
    ensures result.Found? ==> result.path == Path(nodes, target)
  {
    if target !in nodes {
      return Missing;
    }
    var path: seq<Id>, seen: set<Id> := [], {};
    var cur := Some(target);
    while cur.Some? && cur.value in nodes
      invariant seen <= nodes.Keys
      invariant cur.Some? && cur.value in nodes ==> (Rooted(nodes, target) <==> Rooted(nodes, cur.value))
      invariant cur.Some? && cur.value in nodes && Rooted(nodes, cur.value) ==>
        Path(nodes, target) == Path(nodes, cur.value) + path
      invariant cur.Some? && cur.value in nodes && Rooted(nodes, cur.value) ==>
        forall x :: x in seen && Rooted(nodes, x) ==> |Path(nodes, x)| > |Path(nodes, cur.value)|
      invariant !(cur.Some? && cur.value in nodes) ==> Rooted(nodes, target) && Path(nodes, target) == path
      decreases |nodes.Keys - seen|, if cur.Some? && cur.value in nodes then 1 else 0
    {
      if cur.value in seen {
        return Cycle;
      }
      assert nodes.Keys - (seen + {cur.value}) == (nodes.Keys - seen) - {cur.value};
      WalkOneUp(nodes, cur.value);
      seen := seen + {cur.value};
      path := [cur.value] + path;
      cur := nodes[cur.value].parent;
    }
    result := Found(path);
  }

  lemma WalkOneUp(nodes: map<Id, Message>, id: Id)
    requires id in nodes
    ensures HasParent(nodes, id) ==> (Rooted(nodes, id) <==> Rooted(nodes, nodes[id].parent.value))
    ensures HasParent(nodes, id) && Rooted(nodes, id) ==>
      Path(nodes, id) == Path(nodes, nodes[id].parent.value) + [id]
    ensures !HasParent(nodes, id) ==> Rooted(nodes, id) && Path(nodes, id) == [id]
  {
    if Rooted(nodes, id) {
      PathStep(nodes, id);
    } else {
      if !HasParent(nodes, id) || Rooted(nodes, nodes[id].parent.value) {
        RootedChild(nodes, id);
      }
    }
    if !HasParent(nodes, id) {
      PathStep(nodes, id);
    }
  }
}
