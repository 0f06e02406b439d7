/**
 Choosing the head whose lineage matches the longest prefix of an edited transcript.
 */
module BestPrefix {
  import opened Journal
  import opened Text

  /** Turns are compared by role and stripped content. */
  predicate SameTurn(a: Turn, b: Turn) {
    a.role == b.role && Strip(a.content) == Strip(b.content)
  }

  /** Agreement on the first `n` turns. */
  predicate AgreeUpTo(a: seq<Turn>, b: seq<Turn>, n: nat) {
    n <= |a| && n <= |b| && forall i :: 0 <= i < n ==> SameTurn(a[i], b[i])
  }

  /** The length of the longest common prefix. */
  function Lcp(a: seq<Turn>, b: seq<Turn>): (n: nat)
    ensures forall k: nat :: AgreeUpTo(a, b, k) <==> k <= n
  {
    LcpFrom(a, b, 0)
  }

  function LcpFrom(a: seq<Turn>, b: seq<Turn>, i: nat): (n: nat)
    requires AgreeUpTo(a, b, i)
    ensures i <= n && forall k: nat :: AgreeUpTo(a, b, k) <==> k <= n
    decreases |a| - i
  {
    if i < |a| && i < |b| && SameTurn(a[i], b[i]) then LcpFrom(a, b, i + 1) else i
  }

  method CountCommon(a: seq<Turn>, b: seq<Turn>) returns (i: nat)
    ensures i == Lcp(a, b)
  {
    i := 0;
    while i < |a| && i < |b|
      invariant AgreeUpTo(a, b, i)
    {
      if !SameTurn(a[i], b[i]) {
        assert !AgreeUpTo(a, b, i + 1);
        return;
      }
      i := i + 1;
    }
    assert !AgreeUpTo(a, b, i + 1);
  }

  /** A longer lineage matches no less. */
  lemma LcpMonotone(a: seq<Turn>, b: seq<Turn>, c: seq<Turn>)
    requires b <= c
    ensures Lcp(a, b) <= Lcp(a, c)
  {
    assert AgreeUpTo(a, b, Lcp(a, b));
    assert AgreeUpTo(a, c, Lcp(a, b));
  }

  // ----- Heads

  predicate IsHead(ms: seq<Message>, id: Id) {
    forall m :: m in ms ==> m.parent != Some(id)
  }

  lemma HeadIsNoParent(ms: seq<Message>, id: Id)
    ensures IsHead(ms, id) <==> !exists i :: 0 <= i < |ms| && ms[i].parent.Some? && ms[i].parent.value == id
  {
    if !IsHead(ms, id) {
      var m :| m in ms && m.parent == Some(id);
    }
  }

  /** An id the journal allocates: "n" and a number. */
  predicate IsNumbered(id: Id) {
    |id| > 1 && id[0] == 'n' && forall c :: c in id[1..] ==> IsDigit(c)
  }

  /** The order of heads: numbered ids by number, then the others as strings. */
  predicate KeyLess(a: Id, b: Id) {
    if IsNumbered(a) && IsNumbered(b) then ParseDecimal(a[1..]) < ParseDecimal(b[1..])
    else if IsNumbered(a) || IsNumbered(b) then IsNumbered(a)
    else StringLess(a, b)
  }

  lemma KeyLessOrder(a: Id, b: Id, c: Id)
    ensures !(KeyLess(a, b) && KeyLess(b, a))
    ensures !KeyLess(a, b) && !KeyLess(b, c) ==> !KeyLess(a, c)
  {
    StringLessTotal(a, b);
    StringLessTotal(b, c);
    StringLessTotal(a, c);
    if StringLess(c, b) && StringLess(b, a) {
      StringLessTransitive(c, b, a);
    }
  }

  /** Puts an id after all that are not greater. */
  function Insert(s: seq<Id>, id: Id): (r: seq<Id>)
    ensures multiset(r) == multiset(s) + multiset{id}
  {
    if s == [] then [id]
    else
      var rest, last := s[..|s| - 1], s[|s| - 1];
      assert s == rest + [last];
      if KeyLess(id, last) then Insert(rest, id) + [last] else s + [id]
  }

  /** A stable sort by key. */
  function SortHeads(s: seq<Id>): (r: seq<Id>)
    ensures multiset(r) == multiset(s)
  {
    if s == [] then []
    else
      assert s == s[..|s| - 1] + [s[|s| - 1]];
      Insert(SortHeads(s[..|s| - 1]), s[|s| - 1])
  }

  ghost predicate InKeyOrder(s: seq<Id>) {
    forall i, j :: 0 <= i < j < |s| ==> !KeyLess(s[j], s[i])
  }

  lemma {:induction false} InsertKeepsOrder(s: seq<Id>, id: Id)
    requires InKeyOrder(s)
    ensures InKeyOrder(Insert(s, id))
  {
    hide KeyLess;
    if s != [] {
      var rest, last := s[..|s| - 1], s[|s| - 1];
      if KeyLess(id, last) {
        InsertKeepsOrder(rest, id);
        var r := Insert(rest, id);
        forall i | 0 <= i < |r| ensures !KeyLess(last, r[i]) {
          assert r[i] in multiset(r);
          KeyLessOrder(last, id, last);
          assert r[i] == id || r[i] in rest;
        }
      } else {
        forall i | 0 <= i < |s| ensures !KeyLess(id, s[i]) {
          KeyLessOrder(id, last, s[i]);
        }
      }
    }
  }

  lemma {:induction false} SortedHeads(s: seq<Id>)
    ensures InKeyOrder(SortHeads(s))
  {
    hide KeyLess, Insert;
    if s != [] {
      SortedHeads(s[..|s| - 1]);
      InsertKeepsOrder(SortHeads(s[..|s| - 1]), s[|s| - 1]);
    }
  }

  predicate HasNumber(id: Id) {
    |id| >= 2 && id[0] == 'n' && forall i :: 1 <= i < |id| ==> '0' <= id[i] <= '9'
  }

  /** Ids "n" and digits first, by number; then the others, by code point. */
  ghost predicate HeadOrder(s: seq<Id>) {
    forall i, j :: 0 <= i < j < |s| ==>
      && (HasNumber(s[j]) ==> HasNumber(s[i]))
      && (HasNumber(s[i]) && HasNumber(s[j]) ==> Number(s[i]) <= Number(s[j]))
      && (!HasNumber(s[i]) && !HasNumber(s[j]) ==> s[i] == s[j] || StringLess(s[i], s[j]))
  }

  function Number(id: Id): nat
    requires HasNumber(id)
  {
    assert forall c :: c in id[1..] ==> IsDigit(c);
    ParseDecimal(id[1..])
  }

  lemma KeyOrder(s: seq<Id>)
    requires InKeyOrder(s)
    ensures HeadOrder(s)
  {
    forall i, j | 0 <= i < j < |s|
      ensures HasNumber(s[j]) ==> HasNumber(s[i])
      ensures HasNumber(s[i]) && HasNumber(s[j]) ==> Number(s[i]) <= Number(s[j])
      ensures !HasNumber(s[i]) && !HasNumber(s[j]) ==> s[i] == s[j] || StringLess(s[i], s[j])
    {
      Numbered(s[i]);
      Numbered(s[j]);
      StringLessTotal(s[i], s[j]);
      assert !KeyLess(s[j], s[i]);
    }
  }

  lemma Numbered(id: Id)
    ensures HasNumber(id) <==> IsNumbered(id)
  {
    if IsNumbered(id) {
      forall i | 1 <= i < |id| ensures '0' <= id[i] <= '9' {
        assert id[i] == id[1..][i - 1] && id[1..][i - 1] in id[1..];
      }
    }
  }

  /** One id comes somewhere before another. */
  ghost predicate Before(s: seq<Id>, a: Id, b: Id) {
    exists i, j :: 0 <= i < j < |s| && s[i] == a && s[j] == b
  }

  lemma BeforeSnoc(s: seq<Id>, id: Id, a: Id, b: Id)
    ensures Before(s + [id], a, b) <==> Before(s, a, b) || (a in s && b == id)
  {
    var r := s + [id];
    if i, j :| 0 <= i < j < |r| && r[i] == a && r[j] == b {
      assert i < |s| && r[i] == s[i];
      assert j < |s| ==> r[j] == s[j];
    }
    if i, j :| 0 <= i < j < |s| && s[i] == a && s[j] == b {
      assert r[i] == a && r[j] == b;
    }
    if a in s && b == id {
      var i :| 0 <= i < |s| && s[i] == a;
      assert r[i] == a && r[|s|] == b;
    }
  }

  lemma {:induction false} InsertStable(s: seq<Id>, id: Id, a: Id, b: Id)
    ensures Before(s, a, b) ==> Before(Insert(s, id), a, b)
    ensures a in s && !KeyLess(id, a) ==> Before(Insert(s, id), a, id)
  {
    hide KeyLess, Before;
    if s == [] {
      BeforeNone(a, b);
    } else {
      var rest, last := s[..|s| - 1], s[|s| - 1];
      assert s == rest + [last];
      BeforeSnoc(rest, last, a, b);
      if KeyLess(id, last) {
        InsertStable(rest, id, a, b);
        InsertMembers(rest, id);
        BeforeSnoc(Insert(rest, id), last, a, b);
        BeforeSnoc(Insert(rest, id), last, a, id);
      } else {
        BeforeSnoc(s, id, a, b);
        BeforeSnoc(s, id, a, id);
      }
    }
  }

  lemma BeforeNone(a: Id, b: Id)
    ensures !Before([], a, b)
  {
  }

  lemma InsertMembers(s: seq<Id>, id: Id)
    ensures forall x :: x in s ==> x in Insert(s, id)
  {
    hide Insert;
    forall x | x in s ensures x in Insert(s, id) {
      assert x in multiset(Insert(s, id));
    }
  }

  /** The sort swaps two ids only if the later one belongs before the earlier. */
  lemma {:induction false} SortStable(s: seq<Id>, a: Id, b: Id)
    requires Before(s, a, b) && !KeyLess(b, a)
    ensures Before(SortHeads(s), a, b)
  {
    hide KeyLess, Before, Insert;
    if s == [] {
      BeforeNone(a, b);
    } else {
      var rest, last := s[..|s| - 1], s[|s| - 1];
      assert s == rest + [last];
      BeforeSnoc(rest, last, a, b);
      InsertStable(SortHeads(rest), last, a, b);
      if Before(rest, a, b) {
        SortStable(rest, a, b);
      } else {
        assert a in multiset(SortHeads(rest));
      }
    }
  }

  ghost predicate Logged(ms: seq<Message>, id: Id) {
    exists m :: m in ms && m.id == id
  }

  lemma LoggedAt(ms: seq<Message>)
    ensures forall id :: Logged(ms, id) <==> exists k :: 0 <= k < |ms| && ms[k].id == id
  {
  }

  /** The ids of the messages no message names as its parent, in log order. */
  function HeadsOf(ms: seq<Message>, n: nat): (heads: seq<Id>)
    requires n <= |ms|
    ensures forall id :: id in heads <==> (exists k :: 0 <= k < n && ms[k].id == id) && IsHead(ms, id)
  {
    if n == 0 then [] else HeadsOf(ms, n - 1) + if IsHead(ms, ms[n - 1].id) then [ms[n - 1].id] else []
  }

  lemma {:induction false} HeadsOnce(ms: seq<Message>, n: nat)
    requires UniqueIds(ms) && n <= |ms|
    ensures NoRepeats(HeadsOf(ms, n))
  {
    hide IsHead;
    if n > 0 {
      HeadsOnce(ms, n - 1);
      var before := HeadsOf(ms, n - 1);
      forall i | 0 <= i < |before| ensures before[i] != ms[n - 1].id {
        assert before[i] in before;
      }
    }
  }

  /** Rearranging keeps a list free of repeats. */
  lemma SameElementsOnce(s: seq<Id>, r: seq<Id>)
    requires NoRepeats(s) && multiset(r) == multiset(s)
    ensures NoRepeats(r)
  {
    forall i, j | 0 <= i < j < |r| ensures r[i] != r[j] {
      CountOnce(s, r[j]);
      if r[i] == r[j] {
        CountTwice(r, i, j);
      }
    }
  }

  lemma CountTwice(s: seq<Id>, i: nat, j: nat)
    requires i < j < |s| && s[i] == s[j]
    ensures multiset(s)[s[j]] >= 2
  {
    assert s == s[..j] + [s[j]] + s[j + 1..];
    assert s[..j][i] in multiset(s[..j]);
  }

  lemma {:induction false} CountOnce(s: seq<Id>, id: Id)
    requires NoRepeats(s)
    ensures multiset(s)[id] <= 1
  {
    if s != [] {
      var rest, last := s[..|s| - 1], s[|s| - 1];
      assert s == rest + [last];
      CountOnce(rest, id);
      if id == last {
        assert id !in rest;
      }
    }
  }

  /** The messages no message names as its parent, sorted. */
  method ListHeads(ms: seq<Message>) returns (heads: seq<Id>)
    ensures heads == SortHeads(HeadsOf(ms, |ms|)) && InKeyOrder(heads) && HeadOrder(heads)
    ensures forall id :: id in heads <==> Logged(ms, id) && IsHead(ms, id)
    ensures UniqueIds(ms) ==> NoRepeats(heads)
  {
    hide SortHeads, KeyLess, InKeyOrder, HeadOrder;
    var parentIds := set m | m in ms && m.parent.Some? :: m.parent.value;
    var found: seq<Id> := [];
    for i := 0 to |ms|
      invariant found == HeadsOf(ms, i)
    {
      if ms[i].id !in parentIds {
        found := found + [ms[i].id];
      }
    }
    heads := SortHeads(found);
    SortedHeads(found);
    KeyOrder(heads);
    forall id ensures id in heads <==> id in found {
      assert id in multiset(heads) <==> id in multiset(found);
    }
    LoggedAt(ms);
    if UniqueIds(ms) {
      HeadsOnce(ms, |ms|);
      SameElementsOnce(found, heads);
    }
  }

  ghost predicate Walkable(ms: seq<Message>) {
    UniqueIds(ms) && Acyclic(ById(ms))
  }

  /** What a choice of head reads; no choice means the last message. */
  ghost function ReadingOf(ms: seq<Message>, head: Option<Id>): seq<Turn>
    requires Walkable(ms) && (head.Some? ==> head.value in ById(ms))
  {
    match head
    case Some(id) => Lineage(ById(ms), id)
    case None => if ms == [] then [] else LastReading(ms)
  }

  ghost function LastReading(ms: seq<Message>): seq<Turn>
    requires Walkable(ms) && ms != []
  {
    assert ms[|ms| - 1] in ms;
    Lineage(ById(ms), ms[|ms| - 1].id)
  }

  /** Every message lies at or above some head. */
  lemma {:induction false} SomeHeadBelow(ms: seq<Message>, id: Id) returns (head: Id)
    requires Walkable(ms) && id in ById(ms)
    ensures head in ById(ms) && IsHead(ms, head)
    ensures Lineage(ById(ms), id) <= Lineage(ById(ms), head)
    decreases |ById(ms)| - |Path(ById(ms), id)|
  {
    hide ById, Lineage;
    if IsHead(ms, id) {
      head := id;
    } else {
      var child :| child in ms && child.parent == Some(id);
      ByIdUnique(ms, child);
      PathStep(ById(ms), child.id);
      LineageStep(ById(ms), child.id);
      WalkNoRepeats(ById(ms), child.id, Path(ById(ms), child.id));
      head := SomeHeadBelow(ms, child.id);
    }
  }

  /** One candidate matches a longer prefix than another, or as long a one at greater length. */
  ghost predicate Better(ms: seq<Message>, nodes: seq<Turn>, a: Option<Id>, b: Option<Id>)
    requires Walkable(ms) && (a.Some? ==> a.value in ById(ms)) && (b.Some? ==> b.value in ById(ms))
  {
    var m, n := Lcp(nodes, ReadingOf(ms, a)), Lcp(nodes, ReadingOf(ms, b));
    m > n || (m == n && |ReadingOf(ms, a)| > |ReadingOf(ms, b)|)
  }

  /** The candidates: no head at all, then every head. */
  function CandidateAt(heads: seq<Id>, k: nat): Option<Id>
    requires k <= |heads|
  {
    if k == 0 then None else Some(heads[k - 1])
  }

  /** The k-th candidate is better than those before it, and none after it is better. */
  ghost predicate FirstBest(ms: seq<Message>, nodes: seq<Turn>, heads: seq<Id>, k: nat, n: nat)
    requires Walkable(ms) && forall id :: id in heads ==> id in ById(ms)
    requires k < n <= |heads| + 1
  {
    && (forall j :: 0 <= j < k ==> Better(ms, nodes, CandidateAt(heads, k), CandidateAt(heads, j)))
    && (forall j :: k < j < n ==> !Better(ms, nodes, CandidateAt(heads, j), CandidateAt(heads, k)))
  }

  /** The loop over the candidates; an empty transcript chooses no head. */
  method DeriveBestPrefixHead(ms: seq<Message>, nodes: seq<Turn>) returns (best: Option<Id>)
    requires Walkable(ms)
    ensures nodes == [] ==> best == None
    ensures best.Some? ==> best.value in ById(ms) && IsHead(ms, best.value)
    ensures forall id :: id in ById(ms) ==> Lcp(nodes, Lineage(ById(ms), id)) <= Lcp(nodes, ReadingOf(ms, best))
    ensures nodes != [] ==>
      var heads := SortHeads(HeadsOf(ms, |ms|));
      && (forall id :: id in heads ==> id in ById(ms))
      && exists k :: 0 <= k <= |heads| && best == CandidateAt(heads, k) && FirstBest(ms, nodes, heads, k, |heads| + 1)
    ensures nodes != [] ==> LongestAmongEqual(ms, nodes, best)
  {
    hide LongestAmongEqual, ReadingOf, HeadOrder, InKeyOrder;
    hide ById, Lineage, IsHead, Lcp, SortHeads, HeadsOf, KeyLess, FirstBest, Better;
    best := None;
    if nodes == [] {
      NothingMatches(ms, nodes);
      return;
    }
    var heads := ListHeads(ms);
    HeadsLogged(ms, heads);
    var candidates := Candidates(heads);
    var bestLcp: int, bestLen: int := -1, -1;
    ghost var k: nat := 0;
    for i := 0 to |candidates|
      invariant i == 0 ==> bestLcp == -1 && bestLen == -1
      invariant i > 0 ==>
        && k < i && best == CandidateAt(heads, k)
        && bestLcp == Lcp(nodes, ReadingOf(ms, best)) && bestLen == |ReadingOf(ms, best)|
        && FirstBest(ms, nodes, heads, k, i)
    {
      CandidateLogged(ms, heads, i);
      if i > 0 {
        CandidateLogged(ms, heads, k);
        BetterNext(ms, nodes, heads, k, i);
      } else {
        BetterFirst(ms, nodes, heads);
      }
      var log := MessageLineage(ms, candidates[i]);
      var lcp := CountCommon(nodes, log);
      if lcp > bestLcp || (lcp == bestLcp && |log| > bestLen) {
        best, bestLcp, bestLen, k := candidates[i], lcp, |log|, i;
      }
    }
    BestOfAll(ms, nodes, heads, k);
    BestIsLongest(ms, nodes, heads, k);
  }

  /** Of the heads that match as much as the choice none has a longer lineage, and a head is chosen over
      the last message only if it matches more, or as much at greater length. */
  ghost predicate LongestAmongEqual(ms: seq<Message>, nodes: seq<Turn>, best: Option<Id>)
    requires Walkable(ms) && (best.Some? ==> best.value in ById(ms))
  {
    var read, last := ReadingOf(ms, best), ReadingOf(ms, None);
    && (forall id :: id in ById(ms) && IsHead(ms, id) && Lcp(nodes, Lineage(ById(ms), id)) == Lcp(nodes, read) ==>
          |Lineage(ById(ms), id)| <= |read|)
    && (best.Some? ==>
          || Lcp(nodes, read) > Lcp(nodes, last)
          || (Lcp(nodes, read) == Lcp(nodes, last) && |read| > |last|))
  }

  lemma BestIsLongest(ms: seq<Message>, nodes: seq<Turn>, heads: seq<Id>, k: nat)
    requires Walkable(ms) && k <= |heads|
    requires forall id :: id in heads <==> id in ById(ms) && IsHead(ms, id)
    requires FirstBest(ms, nodes, heads, k, |heads| + 1)
    ensures CandidateAt(heads, k).Some? ==> CandidateAt(heads, k).value in ById(ms)
    ensures LongestAmongEqual(ms, nodes, CandidateAt(heads, k))
  {
    hide ById, Lineage, IsHead, Lcp;
    CandidateLogged(ms, heads, k);
    var best := CandidateAt(heads, k);
    forall id | id in ById(ms) && IsHead(ms, id) && Lcp(nodes, Lineage(ById(ms), id)) == Lcp(nodes, ReadingOf(ms, best))
      ensures |Lineage(ById(ms), id)| <= |ReadingOf(ms, best)|
    {
      var j :| 0 <= j < |heads| && heads[j] == id;
      assert CandidateAt(heads, j + 1) == Some(id);
      if j + 1 > k {
        assert !Better(ms, nodes, CandidateAt(heads, j + 1), best);
      } else if j + 1 < k {
        assert Better(ms, nodes, best, CandidateAt(heads, j + 1));
      }
    }
    if best.Some? {
      assert Better(ms, nodes, best, CandidateAt(heads, 0));
    }
  }

  method Candidates(heads: seq<Id>) returns (candidates: seq<Option<Id>>)
    requires NoRepeats(heads)
    ensures |candidates| == |heads| + 1 && forall k :: 0 <= k <= |heads| ==> candidates[k] == CandidateAt(heads, k)
  {
    candidates := [None];
    for i := 0 to |heads|
      invariant |candidates| == i + 1 && forall k :: 0 <= k <= i ==> candidates[k] == CandidateAt(heads, k)
    {
      if Some(heads[i]) !in candidates {
        candidates := candidates + [Some(heads[i])];
      }
    }
  }

  /** The first best candidate matches at least as much as any message's lineage. */
  lemma BestOfAll(ms: seq<Message>, nodes: seq<Turn>, heads: seq<Id>, k: nat)
    requires Walkable(ms) && k <= |heads|
    requires forall id :: id in heads <==> id in ById(ms) && IsHead(ms, id)
    requires FirstBest(ms, nodes, heads, k, |heads| + 1)
    ensures CandidateAt(heads, k).Some? ==>
      CandidateAt(heads, k).value in ById(ms) && IsHead(ms, CandidateAt(heads, k).value)
    ensures forall id :: id in ById(ms) ==>
      Lcp(nodes, Lineage(ById(ms), id)) <= Lcp(nodes, ReadingOf(ms, CandidateAt(heads, k)))
  {
    hide ById, Lineage, IsHead, Lcp, FirstBest;
    CandidateLogged(ms, heads, k);
    forall id | id in ById(ms)
      ensures Lcp(nodes, Lineage(ById(ms), id)) <= Lcp(nodes, ReadingOf(ms, CandidateAt(heads, k)))
    {
      var head := SomeHeadBelow(ms, id);
      LcpMonotone(nodes, Lineage(ById(ms), id), Lineage(ById(ms), head));
      var j :| 0 <= j < |heads| && heads[j] == head;
      NotBetter(ms, nodes, heads, k, j + 1);
    }
  }

  lemma CandidateLogged(ms: seq<Message>, heads: seq<Id>, k: nat)
    requires k <= |heads| && forall id :: id in heads ==> id in ById(ms)
    ensures CandidateAt(heads, k).Some? ==> CandidateAt(heads, k).value in ById(ms)
  {
  }

  lemma BetterFirst(ms: seq<Message>, nodes: seq<Turn>, heads: seq<Id>)
    requires Walkable(ms) && forall id :: id in heads ==> id in ById(ms)
    ensures FirstBest(ms, nodes, heads, 0, 1)
  {
  }

  /** The next candidate either takes over or leaves the choice as it is. */
  lemma BetterNext(ms: seq<Message>, nodes: seq<Turn>, heads: seq<Id>, k: nat, i: nat)
    requires Walkable(ms) && forall id :: id in heads ==> id in ById(ms)
    requires k < i <= |heads| && FirstBest(ms, nodes, heads, k, i)
    ensures var next, best := CandidateAt(heads, i), CandidateAt(heads, k);
      && (Better(ms, nodes, next, best) <==>
            (var m, n := Lcp(nodes, ReadingOf(ms, next)), Lcp(nodes, ReadingOf(ms, best));
             m > n || (m == n && |ReadingOf(ms, next)| > |ReadingOf(ms, best)|)))
      && FirstBest(ms, nodes, heads, if Better(ms, nodes, next, best) then i else k, i + 1)
  {
    hide ById, Lcp, ReadingOf;
    forall j | 0 <= j < i && Better(ms, nodes, CandidateAt(heads, i), CandidateAt(heads, k))
      ensures Better(ms, nodes, CandidateAt(heads, i), CandidateAt(heads, j))
    {
      CandidateLogged(ms, heads, j);
      assert j < k ==> Better(ms, nodes, CandidateAt(heads, k), CandidateAt(heads, j));
      assert k < j ==> !Better(ms, nodes, CandidateAt(heads, j), CandidateAt(heads, k));
    }
  }

  lemma NotBetter(ms: seq<Message>, nodes: seq<Turn>, heads: seq<Id>, k: nat, j: nat)
    requires Walkable(ms) && forall id :: id in heads ==> id in ById(ms)
    requires k <= |heads| && j <= |heads| && FirstBest(ms, nodes, heads, k, |heads| + 1)
    ensures Lcp(nodes, ReadingOf(ms, CandidateAt(heads, j))) <= Lcp(nodes, ReadingOf(ms, CandidateAt(heads, k)))
  {
    hide ById, Lcp, ReadingOf;
  }

  lemma NothingMatches(ms: seq<Message>, nodes: seq<Turn>)
    requires Walkable(ms) && nodes == []
    ensures forall id :: id in ById(ms) ==> Lcp(nodes, Lineage(ById(ms), id)) == 0
  {
    hide ById, Lineage;
    forall id | id in ById(ms) ensures Lcp(nodes, Lineage(ById(ms), id)) == 0 {
      assert AgreeUpTo(nodes, Lineage(ById(ms), id), Lcp(nodes, Lineage(ById(ms), id)));
    }
  }

  lemma HeadsLogged(ms: seq<Message>, heads: seq<Id>)
    requires forall id :: id in heads <==> Logged(ms, id) && IsHead(ms, id)
    ensures forall id :: id in heads <==> id in ById(ms) && IsHead(ms, id)
  {
    hide ById, IsHead;
    forall id | id in ById(ms) ensures Logged(ms, id) {
      assert ById(ms)[id] in ms;
    }
  }

  /** The turns along the lineage of a head, or of the last message. */
  method MessageLineage(ms: seq<Message>, head: Option<Id>) returns (log: seq<Turn>)
    requires Walkable(ms) && (head.Some? ==> head.value in ById(ms))
    ensures log == ReadingOf(ms, head)
  {
    if head.None? && ms == [] {
      return [];
    }
    var byId := ById(ms);
    if head.None? {
      assert ms[|ms| - 1] in ms;
    }
    var id := if head.Some? then head.value else ms[|ms| - 1].id;
    var path := WalkLineage(byId, id);
    WalkInDomain(byId, id, path);
    log := Reading(byId, path);
  }
}
