/**
 Stitching: identifying the common linear root prefix of several journals.
 */
module Stitch {
  import opened Journal
  import opened Projection

  /** A node of one source, by source id and local id. */
  datatype Pseudonym = Pseudonym(source: string, local: Id)

  /** One stitched message and the names it goes by, one for each source in order; the first
      is the canonical one. */
  datatype StitchedNode = StitchedNode(pseudonyms: seq<Pseudonym>)

  datatype StitchResult = SingleSource | MissingRoot | Stitched(nodes: seq<StitchedNode>)

  predicate IsRootParent(parent: Option<Id>) {
    parent.None? || parent.value == VIRTUAL_ROOT
  }

  function MessageOf(sources: seq<Source>, k: nat, i: nat): Message
    requires k < |sources| && i < |Messages(sources[k].events)|
  {
    Messages(sources[k].events)[i]
  }

  // ----- The longest common linear prefix

  /** Every source has an i-th message; they read the same, and each continues its source's
      previous one (or is a root). */
  predicate AgreeAt(sources: seq<Source>, i: nat)
    requires |sources| > 0
  {
    && (forall k :: 0 <= k < |sources| ==> i < |Messages(sources[k].events)|)
    && (forall k :: 0 <= k < |sources| ==> TurnOf(MessageOf(sources, k, i)) == TurnOf(MessageOf(sources, 0, i)))
    && (forall k :: 0 <= k < |sources| ==> ContinuesAt(sources, k, i))
  }

  predicate ContinuesAt(sources: seq<Source>, k: nat, i: nat)
    requires k < |sources| && i < |Messages(sources[k].events)|
  {
    if i == 0 then MessageOf(sources, k, i).parent.None? || MessageOf(sources, k, i).parent.value == "n0"
    else MessageOf(sources, k, i).parent == Some(MessageOf(sources, k, i - 1).id)
  }

  /** The first `n` messages of every source form one common linear path from the root. */
  ghost predicate CommonPrefix(sources: seq<Source>, n: nat)
    requires |sources| > 0
  {
    forall i :: 0 <= i < n ==> AgreeAt(sources, i)
  }

  function NodeAt(sources: seq<Source>, i: nat): StitchedNode
    requires |sources| > 0 && AgreeAt(sources, i)
  {
    StitchedNode(seq(|sources|, k requires 0 <= k < |sources| =>
      Pseudonym(sources[k].id, MessageOf(sources, k, i).id)))
  }

  /** The stitch is the longest common linear prefix. */
  ghost predicate IsStitch(sources: seq<Source>, nodes: seq<StitchedNode>)
    requires |sources| > 0
  {
    && CommonPrefix(sources, |nodes|)
    && !AgreeAt(sources, |nodes|)
    && forall i :: 0 <= i < |nodes| ==> AgreeAt(sources, i) && nodes[i] == NodeAt(sources, i)
  }

  predicate SameTurns(candidates: seq<(string, Message)>)
    requires |candidates| > 0
  {
    forall k :: 0 <= k < |candidates| ==> TurnOf(candidates[k].1) == TurnOf(candidates[0].1)
  }

  /** The test the source makes: equal turns, and every parent a name of the previous node. */
  predicate Equivalent(candidates: seq<(string, Message)>, previous: seq<StitchedNode>)
    requires |candidates| > 0
  {
    && SameTurns(candidates)
    && forall k :: 0 <= k < |candidates| ==> ParentMatches(candidates[k].0, candidates[k].1, previous)
  }

  predicate ParentMatches(source: string, m: Message, previous: seq<StitchedNode>) {
    if previous == [] then IsRootParent(m.parent)
    else Pseudonym(source, ParentId(m)) in previous[|previous| - 1].pseudonyms
  }

  function ParentId(m: Message): Id {
    if m.parent.Some? then m.parent.value else ""
  }

  ghost predicate DistinctSources(sources: seq<Source>) {
    forall j, k :: 0 <= j < k < |sources| ==> sources[j].id != sources[k].id
  }

  /** Being a name of the previous node is naming the previous message of the same source. */
  lemma EquivalentIsAgreement(
      sources: seq<Source>, i: nat, candidates: seq<(string, Message)>, nodes: seq<StitchedNode>)
    requires |sources| > 0 && DistinctSources(sources) && |nodes| == i
    requires forall k :: 0 <= k < |sources| ==>
      i < |Messages(sources[k].events)| && LocalIds(Messages(sources[k].events))
    requires |candidates| == |sources|
    requires forall k :: 0 <= k < |sources| ==> candidates[k] == (sources[k].id, MessageOf(sources, k, i))
    requires i > 0 ==> AgreeAt(sources, i - 1) && nodes[i - 1] == NodeAt(sources, i - 1)
    ensures Equivalent(candidates, nodes) <==> AgreeAt(sources, i)
  {
    hide Messages, ParentMatches, LocalIds, ContinuesAt;
    forall k | 0 <= k < |sources|
      ensures ParentMatches(candidates[k].0, candidates[k].1, nodes) <==> ContinuesAt(sources, k, i)
    {
      MatchIsContinuing(sources, i, k, nodes);
    }
  }

  lemma MatchIsContinuing(sources: seq<Source>, i: nat, k: nat, nodes: seq<StitchedNode>)
    requires k < |sources| && DistinctSources(sources) && |nodes| == i
    requires i < |Messages(sources[k].events)| && LocalIds(Messages(sources[k].events))
    requires i > 0 ==> AgreeAt(sources, i - 1) && nodes[i - 1] == NodeAt(sources, i - 1)
    ensures ParentMatches(sources[k].id, MessageOf(sources, k, i), nodes) <==> ContinuesAt(sources, k, i)
  {
    hide Messages;
    if i > 0 {
      var name := Pseudonym(sources[k].id, ParentId(MessageOf(sources, k, i)));
      assert nodes[i - 1].pseudonyms[k] == Pseudonym(sources[k].id, MessageOf(sources, k, i - 1).id);
      assert MessageOf(sources, k, i - 1) in Messages(sources[k].events);
      if name in nodes[i - 1].pseudonyms {
        var j :| 0 <= j < |sources| && nodes[i - 1].pseudonyms[j] == name;
        assert sources[j].id == sources[k].id;
      }
    }
  }

  method SelectedScopeStitch(sources: seq<Source>) returns (result: StitchResult)
    requires DistinctSources(sources)
    requires forall k :: 0 <= k < |sources| ==> LocalIds(Messages(sources[k].events))
    ensures result.SingleSource? <==> |sources| < 2
    ensures result.MissingRoot? <==>
      |sources| >= 2 && exists k :: 0 <= k < |sources| && Messages(sources[k].events) == []
    ensures result.Stitched? ==> IsStitch(sources, result.nodes)
  {
    hide Messages, LocalIds, Equivalent;
    if |sources| < 2 {
      return SingleSource;
    }
    if exists k :: 0 <= k < |sources| && Messages(sources[k].events) == [] {
      return MissingRoot;
    }
    var nodes: seq<StitchedNode> := [];
    var index := 0;
    while true
      invariant index == |nodes| && CommonPrefix(sources, index)
      invariant forall i :: 0 <= i < index ==> AgreeAt(sources, i) && nodes[i] == NodeAt(sources, i)
      decreases |Messages(sources[0].events)| - index
    {
      var candidates: seq<(string, Message)> := [];
      for k := 0 to |sources|
        invariant |candidates| == k
        invariant forall j :: 0 <= j < k ==>
          index < |Messages(sources[j].events)| && candidates[j] == (sources[j].id, MessageOf(sources, j, index))
      {
        if index >= |Messages(sources[k].events)| {
          return Stitched(nodes);
        }
        candidates := candidates + [(sources[k].id, MessageOf(sources, k, index))];
      }
      EquivalentIsAgreement(sources, index, candidates, nodes);
      if !Equivalent(candidates, nodes) {
        return Stitched(nodes);
      }
      var pseudonyms := seq(|candidates|, k requires 0 <= k < |candidates| =>
        Pseudonym(candidates[k].0, candidates[k].1.id));
      assert StitchedNode(pseudonyms) == NodeAt(sources, index);
      nodes := nodes + [StitchedNode(pseudonyms)];
      index := index + 1;
    }
  }

  /** No longer prefix is common. */
  lemma StitchIsLongest(sources: seq<Source>, nodes: seq<StitchedNode>, n: nat)
    requires |sources| > 0 && IsStitch(sources, nodes)
    ensures CommonPrefix(sources, n) <==> n <= |nodes|
    ensures (forall k :: 0 <= k < |sources| ==>
              SharesPrefix(Messages(sources[k].events), Messages(sources[0].events), n)) <==> n <= |nodes|
  {
    hide AgreeAt;
    CommonIsShared(sources, n);
  }

  /** The first n messages have the roles and contents of another journal's first n; the first is a
      root and each of the others is below the one before it. */
  ghost predicate SharesPrefix(ms: seq<Message>, others: seq<Message>, n: nat) {
    && n <= |ms| && n <= |others|
    && (forall i :: 0 <= i < n ==> ms[i].role == others[i].role && ms[i].content == others[i].content)
    && (n > 0 ==> ms[0].parent.None? || ms[0].parent.value == "n0")
    && (forall i :: 0 < i < n ==> ms[i].parent == Some(ms[i - 1].id))
  }

  lemma {:induction false} CommonIsShared(sources: seq<Source>, n: nat)
    requires |sources| > 0
    ensures CommonPrefix(sources, n) <==> forall k :: 0 <= k < |sources| ==>
      SharesPrefix(Messages(sources[k].events), Messages(sources[0].events), n)
  {
    hide Messages, AgreeAt, SharesPrefix;
    if n == 0 {
      forall k | 0 <= k < |sources|
        ensures SharesPrefix(Messages(sources[k].events), Messages(sources[0].events), 0)
      {
        SharesNothing(Messages(sources[k].events), Messages(sources[0].events));
      }
    } else {
      CommonIsShared(sources, n - 1);
      forall k | 0 <= k < |sources|
        ensures SharesPrefix(Messages(sources[k].events), Messages(sources[0].events), n) <==>
          SharesPrefix(Messages(sources[k].events), Messages(sources[0].events), n - 1) && SharesAt(sources, k, n - 1)
      {
        SharesOneMore(sources, k, n - 1);
      }
      AgreesBySharing(sources, n - 1);
    }
  }

  lemma SharesNothing(ms: seq<Message>, others: seq<Message>)
    ensures SharesPrefix(ms, others, 0)
  {
  }

  ghost predicate SharesAt(sources: seq<Source>, k: nat, i: nat)
    requires k < |sources|
  {
    var ms, first := Messages(sources[k].events), Messages(sources[0].events);
    && i < |ms| && i < |first|
    && ms[i].role == first[i].role && ms[i].content == first[i].content
    && if i == 0 then ms[i].parent.None? || ms[i].parent.value == "n0" else ms[i].parent == Some(ms[i - 1].id)
  }

  lemma SharesOneMore(sources: seq<Source>, k: nat, i: nat)
    requires k < |sources|
    ensures SharesPrefix(Messages(sources[k].events), Messages(sources[0].events), i + 1) <==>
      SharesPrefix(Messages(sources[k].events), Messages(sources[0].events), i) && SharesAt(sources, k, i)
  {
    hide Messages;
  }

  lemma AgreesBySharing(sources: seq<Source>, i: nat)
    requires |sources| > 0
    ensures AgreeAt(sources, i) <==> forall k :: 0 <= k < |sources| ==> SharesAt(sources, k, i)
  {
    hide Messages;
    if forall k :: 0 <= k < |sources| ==> SharesAt(sources, k, i) {
      assert SharesAt(sources, 0, i);
      forall k | 0 <= k < |sources|
        ensures i < |Messages(sources[k].events)|
        ensures TurnOf(MessageOf(sources, k, i)) == TurnOf(MessageOf(sources, 0, i)) && ContinuesAt(sources, k, i)
      {
        assert SharesAt(sources, 0, i) && SharesAt(sources, k, i);
      }
    }
    if AgreeAt(sources, i) {
      forall k | 0 <= k < |sources| ensures SharesAt(sources, k, i) {
        assert TurnOf(MessageOf(sources, k, i)) == TurnOf(MessageOf(sources, 0, i)) && ContinuesAt(sources, k, i);
      }
    }
  }

  // ----- All names of a stitched node mean the same

  lemma {:induction false} PrefixWalk(sources: seq<Source>, n: nat, k: nat, i: nat)
    requires |sources| > 0 && CommonPrefix(sources, n) && k < |sources| && i < n
    requires ReadySource(sources[k]) && AgreeAt(sources, i)
    ensures MessageOf(sources, k, i).id in Local(sources[k])
    ensures Rooted(Local(sources[k]), MessageOf(sources, k, i).id)
    ensures |Lineage(Local(sources[k]), MessageOf(sources, k, i).id)| == i + 1
    ensures forall j :: 0 <= j <= i ==> AgreeAt(sources, j)
    ensures forall j :: 0 <= j <= i ==>
      Lineage(Local(sources[k]), MessageOf(sources, k, i).id)[j] == TurnOf(MessageOf(sources, 0, j))
    decreases i
  {
    hide Messages, ById, Lineage, Rooted;
    var m := MessageOf(sources, k, i);
    assert m in Messages(sources[k].events);
    LocalLookup(sources[k], m);
    assert ContinuesAt(sources, k, i);
    if i > 0 {
      assert AgreeAt(sources, i - 1);
      PrefixWalk(sources, n, k, i - 1);
    } else {
      RootHasNoParent(sources[k], m);
    }
    LineageExtend(Local(sources[k]), m.id);
  }

  lemma RootHasNoParent(s: Source, m: Message)
    requires ReadySource(s) && m in Messages(s.events) && IsRootParent(m.parent)
    ensures m.id in Local(s) && !HasParent(Local(s), m.id)
  {
    hide Messages, ById;
    LocalLookup(s, m);
    if VIRTUAL_ROOT in Local(s) {
      LocalIdOf(s, VIRTUAL_ROOT);
    }
  }

  /** The pseudonyms of a stitched node all have the same lineage. */
  lemma PseudonymsAgree(sources: seq<Source>, nodes: seq<StitchedNode>, i: nat, j: nat, k: nat)
    requires ReadySources(sources) && IsStitch(sources, nodes)
    requires i < |nodes| && j < |sources| && k < |sources|
    ensures |nodes[i].pseudonyms| == |sources|
    ensures nodes[i].pseudonyms[j].local in Local(sources[j]) && nodes[i].pseudonyms[j].source == sources[j].id
    ensures Rooted(Local(sources[j]), nodes[i].pseudonyms[j].local)
    ensures nodes[i].pseudonyms[k].local in Local(sources[k]) && Rooted(Local(sources[k]), nodes[i].pseudonyms[k].local)
    ensures Lineage(Local(sources[j]), nodes[i].pseudonyms[j].local) ==
      Lineage(Local(sources[k]), nodes[i].pseudonyms[k].local)
  {
    hide Messages, Local, ReadySource, Rooted, Lineage;
    PrefixWalk(sources, |nodes|, j, i);
    PrefixWalk(sources, |nodes|, k, i);
  }

  // ----- A cold lineage as a prefix of a hot one

  datatype PrefixProof = PrefixProof(pairs: seq<(Id, Id)>, reason: Option<Mismatch>)

  datatype Mismatch = EmptyCold | ColdLonger | RoleMismatch | ContentMismatch | TopologyMismatch

  /** The i-th messages read the same, and each continues its own lineage. */
  ghost predicate PairAt(cold: seq<Message>, hot: seq<Message>, i: nat)
    requires i < |cold| <= |hot|
  {
    && TurnOf(cold[i]) == TurnOf(hot[i])
    && if i == 0 then
         && (cold[i].parent.None? || cold[i].parent.value == "n0")
         && (hot[i].parent.None? || hot[i].parent.value == "n0")
       else cold[i].parent == Some(cold[i - 1].id) && hot[i].parent == Some(hot[i - 1].id)
  }

  predicate ParentsMatch(cold: Message, hot: Message, pairs: seq<(Id, Id)>) {
    if pairs == [] then IsRootParent(cold.parent) && IsRootParent(hot.parent)
    else cold.parent == Some(pairs[|pairs| - 1].0) && hot.parent == Some(pairs[|pairs| - 1].1)
  }

  /** Pairs proved so far match position by position, so the tests made next decide the next. */
  lemma PairTests(cold: seq<Message>, hot: seq<Message>, pairs: seq<(Id, Id)>, i: nat)
    requires i == |pairs| < |cold| <= |hot|
    requires i > 0 ==> pairs[i - 1] == (cold[i - 1].id, hot[i - 1].id)
    ensures PairAt(cold, hot, i) <==>
      cold[i].role == hot[i].role && cold[i].content == hot[i].content && ParentsMatch(cold[i], hot[i], pairs)
  {
  }

  /** The pairs are those of the first messages, all of which match. */
  ghost predicate Matched(cold: seq<Message>, hot: seq<Message>, pairs: seq<(Id, Id)>)
    requires |cold| <= |hot|
  {
    && |pairs| <= |cold|
    && forall i :: 0 <= i < |pairs| ==> PairAt(cold, hot, i) && pairs[i] == (cold[i].id, hot[i].id)
  }

  /** Why the next messages do not match, if they do not. */
  function MismatchAt(cold: seq<Message>, hot: seq<Message>, n: nat): Mismatch
    requires n < |cold| <= |hot|
  {
    if cold[n].role != hot[n].role then RoleMismatch
    else if cold[n].content != hot[n].content then ContentMismatch
    else TopologyMismatch
  }

  lemma MatchedNext(cold: seq<Message>, hot: seq<Message>, pairs: seq<(Id, Id)>)
    requires |pairs| < |cold| <= |hot| && Matched(cold, hot, pairs)
    ensures var i := |pairs|;
      && (PairAt(cold, hot, i) <==>
            cold[i].role == hot[i].role && cold[i].content == hot[i].content && ParentsMatch(cold[i], hot[i], pairs))
      && (PairAt(cold, hot, i) ==> Matched(cold, hot, pairs + [(cold[i].id, hot[i].id)]))
      && MismatchAt(cold, hot, i) ==
         (if cold[i].role != hot[i].role then RoleMismatch
          else if cold[i].content != hot[i].content then ContentMismatch
          else TopologyMismatch)
  {
    hide PairAt, ParentsMatch, Matched;
    LastPair(cold, hot, pairs);
    PairTests(cold, hot, pairs, |pairs|);
    if PairAt(cold, hot, |pairs|) {
      MatchedSnoc(cold, hot, pairs);
    }
  }

  lemma LastPair(cold: seq<Message>, hot: seq<Message>, pairs: seq<(Id, Id)>)
    requires |cold| <= |hot| && Matched(cold, hot, pairs)
    ensures |pairs| <= |cold|
    ensures |pairs| > 0 ==> pairs[|pairs| - 1] == (cold[|pairs| - 1].id, hot[|pairs| - 1].id)
  {
    hide PairAt;
  }

  lemma MatchedSnoc(cold: seq<Message>, hot: seq<Message>, pairs: seq<(Id, Id)>)
    requires |pairs| < |cold| <= |hot| && Matched(cold, hot, pairs) && PairAt(cold, hot, |pairs|)
    ensures Matched(cold, hot, pairs + [(cold[|pairs|].id, hot[|pairs|].id)])
  {
    hide PairAt;
  }

  lemma MatchedEnds(cold: seq<Message>, hot: seq<Message>, pairs: seq<(Id, Id)>)
    requires |cold| <= |hot| && Matched(cold, hot, pairs)
    requires |pairs| < |cold| ==> !PairAt(cold, hot, |pairs|)
    ensures |pairs| == |cold| <==> forall i :: 0 <= i < |cold| ==> PairAt(cold, hot, i)
    ensures |pairs| <= |cold|
    ensures forall i :: 0 <= i < |pairs| ==> PairAt(cold, hot, i) && pairs[i] == (cold[i].id, hot[i].id)
  {
    hide PairAt;
  }

  method ProveRootPrefix(cold: seq<Message>, hot: seq<Message>) returns (proof: PrefixProof)
    ensures proof.reason.None? <==>
      0 < |cold| <= |hot| && forall i :: 0 <= i < |cold| ==> PairAt(cold, hot, i)
    ensures |proof.pairs| <= |cold|
    ensures proof.reason.None? ==> |proof.pairs| == |cold|
    ensures proof.reason == Some(EmptyCold) <==> cold == []
    ensures proof.reason == Some(ColdLonger) <==> |cold| > |hot|
    ensures !(0 < |cold| <= |hot|) ==> proof.pairs == []
    ensures proof.reason.Some? && 0 < |cold| <= |hot| ==>
      var n := |proof.pairs|;
      && n < |cold| && !PairAt(cold, hot, n)
      && proof.reason.value == MismatchAt(cold, hot, n)
    ensures proof.reason.Some? && 0 < |cold| <= |hot| ==>
      var c, h := cold[|proof.pairs|], hot[|proof.pairs|];
      proof.reason.value == (
        if c.role != h.role then RoleMismatch
        else if c.content != h.content then ContentMismatch
        else TopologyMismatch)
    ensures |cold| <= |hot| ==>
      forall i :: 0 <= i < |proof.pairs| ==> PairAt(cold, hot, i) && proof.pairs[i] == (cold[i].id, hot[i].id)
  {
    if cold == [] {
      return PrefixProof([], Some(EmptyCold));
    }
    if |cold| > |hot| {
      return PrefixProof([], Some(ColdLonger));
    }
    hide PairAt, ParentsMatch, Matched, MismatchAt;
    var pairs: seq<(Id, Id)> := [];
    for i := 0 to |cold|
      invariant |pairs| == i && Matched(cold, hot, pairs)
    {
      MatchedNext(cold, hot, pairs);
      if cold[i].role != hot[i].role {
        MatchedEnds(cold, hot, pairs);
        return PrefixProof(pairs, Some(RoleMismatch));
      }
      if cold[i].content != hot[i].content {
        MatchedEnds(cold, hot, pairs);
        return PrefixProof(pairs, Some(ContentMismatch));
      }
      if !ParentsMatch(cold[i], hot[i], pairs) {
        MatchedEnds(cold, hot, pairs);
        return PrefixProof(pairs, Some(TopologyMismatch));
      }
      pairs := pairs + [(cold[i].id, hot[i].id)];
    }
    MatchedEnds(cold, hot, pairs);
    proof := PrefixProof(pairs, None);
  }
}
