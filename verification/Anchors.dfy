/**
 Resolving the anchor of a projection over several sources.
 */
module Anchors {
  import opened Journal
  import opened Projection
  import opened Stitch

  datatype Resolution = Resolved(id: Id) | SourceNotSelected | NotFound | Ambiguous

  /** The position of the first colon. */
  function FirstColon(s: string): (i: nat)
    requires ':' in s
    ensures i < |s| && s[i] == ':' && forall j :: 0 <= j < i ==> s[j] != ':'
  {
    if s[0] == ':' then 0
    else
      assert s == [s[0]] + s[1..];
      1 + FirstColon(s[1..])
  }

  /** An anchor of the form source:local, split at its first colon. */
  function QualifiedAnchor(anchor: Id): Option<Pseudonym> {
    if ':' !in anchor then None
    else
      var i := FirstColon(anchor);
      if i == 0 || i + 1 == |anchor| then None else Some(Pseudonym(anchor[..i], anchor[i + 1..]))
  }

  predicate Contains(events: seq<Event>, id: Id) {
    exists m :: m in Messages(events) && m.id == id
  }

  predicate Names(node: StitchedNode, anchor: Id) {
    exists p :: p in node.pseudonyms && (anchor == Qualify(p.source, p.local) || anchor == p.local)
  }

  /** The canonical name of the first stitched node that goes by `anchor`. */
  function StitchedAnchor(nodes: seq<StitchedNode>, anchor: Id): Option<Id>
    requires forall node :: node in nodes ==> node.pseudonyms != []
  {
    if nodes == [] then None
    else if Names(nodes[0], anchor) then
      Some(Qualify(nodes[0].pseudonyms[0].source, nodes[0].pseudonyms[0].local))
    else StitchedAnchor(nodes[1..], anchor)
  }

  /** The source with an id, if selected. */
  function FindSource(sources: seq<Source>, id: string): (k: Option<nat>)
    ensures k.Some? ==> k.value < |sources| && sources[k.value].id == id
    ensures k.None? ==> forall j :: 0 <= j < |sources| ==> sources[j].id != id
  {
    if sources == [] then None
    else if sources[0].id == id then Some(0)
    else
      var k := FindSource(sources[1..], id);
      assert forall j :: 0 < j < |sources| ==> sources[j] == sources[1..][j - 1];
      if k.Some? then Some(k.value + 1) else None
  }

  /** The sources that log a message with this local id. */
  function Holders(sources: seq<Source>, local: Id): (ks: seq<nat>)
    ensures forall k :: k in ks <==> 0 <= k < |sources| && Contains(sources[k].events, local)
    ensures forall i, j :: 0 <= i < j < |ks| ==> ks[i] < ks[j]
  {
    HoldersAmong(sources, local, |sources|)
  }

  function HoldersAmong(sources: seq<Source>, local: Id, n: nat): (ks: seq<nat>)
    requires n <= |sources|
    ensures forall k :: k in ks <==> 0 <= k < n && Contains(sources[k].events, local)
    ensures forall i, j :: 0 <= i < j < |ks| ==> ks[i] < ks[j]
  {
    if n == 0 then []
    else
      var ks := HoldersAmong(sources, local, n - 1);
      assert forall i :: 0 <= i < |ks| ==> ks[i] in ks;
      if Contains(sources[n - 1].events, local) then ks + [n - 1] else ks
  }

  /** Resolution once the stitch does not know the anchor. */
  function UnstitchedAnchor(sources: seq<Source>, anchor: Id): Resolution {
    match QualifiedAnchor(anchor)
    case Some(p) =>
      (match FindSource(sources, p.source)
       case None => SourceNotSelected
       case Some(k) => if Contains(sources[k].events, p.local) then Resolved(Qualify(p.source, p.local)) else NotFound)
    case None =>
      var ks := Holders(sources, anchor);
      if ks == [] then NotFound
      else if |ks| > 1 then Ambiguous
      else
        assert ks[0] in ks;
        Resolved(Qualify(sources[ks[0]].id, anchor))
  }

  /** Resolution in a single source keeps the local id. */
  function LocalAnchor(source: Source, anchor: Id): Resolution {
    var local := QualifiedAnchor(anchor);
    if local.Some? && local.value.source != source.id then SourceNotSelected
    else
      var id := if local.Some? then local.value.local else anchor;
      if Contains(source.events, id) then Resolved(id) else NotFound
  }

  /** Resolution over the selected sources. */
  method AnchorForSources(sources: seq<Source>, anchor: Id) returns (result: Resolution)
    requires |sources| > 0 && DistinctSources(sources)
    requires forall k :: 0 <= k < |sources| ==> LocalIds(Messages(sources[k].events))
    ensures |sources| == 1 ==> result == LocalAnchor(sources[0], anchor)
    ensures |sources| >= 2 ==> ResolvesTo(sources, anchor, result)
  {
    hide Messages, LocalIds, UnstitchedAnchor;
    if |sources| < 2 {
      return LocalAnchor(sources[0], anchor);
    }
    var stitch := SelectedScopeStitch(sources);
    if stitch.Stitched? {
      NodesHaveNames(sources, stitch.nodes);
      var matched := StitchedAnchor(stitch.nodes, anchor);
      if matched.Some? {
        return Resolved(matched.value);
      }
    }
    result := UnstitchedAnchor(sources, anchor);
  }

  /** In a single source an anchor resolves only to a logged message that it names, bare or by the
      source's id; and it does resolve to every message so named. */
  lemma LocalAnchorNames(source: Source, anchor: Id)
    requires LocalIds(Messages(source.events))
    ensures var result := LocalAnchor(source, anchor);
      result.Resolved? ==>
        && Contains(source.events, result.id)
        && (anchor == result.id || anchor == Qualify(source.id, result.id))
    ensures Contains(source.events, anchor) ==> LocalAnchor(source, anchor) == Resolved(anchor)
    ensures forall local ::
      Contains(source.events, local) && anchor == Qualify(source.id, local) && source.id != "" && ':' !in source.id ==>
        LocalAnchor(source, anchor) == Resolved(local)
  {
    hide Messages, FirstColon;
    var split := QualifiedAnchor(anchor);
    if split.Some? {
      assert anchor == Qualify(split.value.source, split.value.local);
    }
    forall local |
      Contains(source.events, local) && anchor == Qualify(source.id, local) && source.id != "" && ':' !in source.id
      ensures LocalAnchor(source, anchor) == Resolved(local)
    {
      SplitQualified(source.id, local);
    }
  }

  lemma NodesHaveNames(sources: seq<Source>, nodes: seq<StitchedNode>)
    requires |sources| > 0 && IsStitch(sources, nodes)
    ensures forall node :: node in nodes ==> node.pseudonyms != []
  {
    hide AgreeAt;
  }

  /** Through the longest common prefix if that knows the anchor, otherwise directly. */
  ghost predicate ResolvesTo(sources: seq<Source>, anchor: Id, result: Resolution)
    requires |sources| >= 2
  {
    || (&& (exists k :: 0 <= k < |sources| && Messages(sources[k].events) == [])
        && result == UnstitchedAnchor(sources, anchor))
    || exists nodes: seq<StitchedNode> ::
         && IsStitch(sources, nodes)
         && (forall node :: node in nodes ==> node.pseudonyms != [])
         && result ==
              match StitchedAnchor(nodes, anchor)
              case Some(id) => Resolved(id)
              case None => UnstitchedAnchor(sources, anchor)
  }

  // ----- What resolution means

  /** `id` is in the merged events and reads what `local` reads in the k-th source. */
  ghost predicate ReadsAs(sources: seq<Source>, k: nat, local: Id, id: Id)
    requires k < |sources|
  {
    && local in Local(sources[k])
    && id in MergedById(sources)
    && (Rooted(MergedById(sources), id) <==> Rooted(Local(sources[k]), local))
    && (Rooted(Local(sources[k]), local) ==> Lineage(MergedById(sources), id) == Lineage(Local(sources[k]), local))
  }

  lemma ReadsAsItself(sources: seq<Source>, k: nat, local: Id)
    requires ReadySources(sources) && k < |sources| && Contains(sources[k].events, local)
    ensures ReadsAs(sources, k, local, Qualify(sources[k].id, local))
  {
    hide Messages, ById, Qualify, IsWalk;
    var m :| m in Messages(sources[k].events) && m.id == local;
    LocalLookup(sources[k], m);
    MergedEntry(sources, k, local);
    QualifiedLineage(sources, k, local);
  }

  /** A matched node has a name that is the anchor, and the match is its canonical name. */
  lemma {:induction false} MatchedNode(nodes: seq<StitchedNode>, anchor: Id) returns (i: nat)
    requires forall node :: node in nodes ==> node.pseudonyms != []
    requires StitchedAnchor(nodes, anchor).Some?
    ensures i < |nodes| && Names(nodes[i], anchor) && forall j :: 0 <= j < i ==> !Names(nodes[j], anchor)
    ensures StitchedAnchor(nodes, anchor) == Some(Qualify(nodes[i].pseudonyms[0].source, nodes[i].pseudonyms[0].local))
  {
    if Names(nodes[0], anchor) {
      i := 0;
    } else {
      var j := MatchedNode(nodes[1..], anchor);
      i := j + 1;
    }
  }

  /** The canonical name of a stitched node reads what every name of it reads at home. */
  lemma CanonicalReads(sources: seq<Source>, nodes: seq<StitchedNode>, i: nat, k: nat)
    requires ReadySources(sources) && IsStitch(sources, nodes) && i < |nodes| && k < |sources|
    ensures |nodes[i].pseudonyms| == |sources|
    ensures nodes[i].pseudonyms[k].source == sources[k].id
    ensures ReadsAs(sources, k, nodes[i].pseudonyms[k].local,
      Qualify(nodes[i].pseudonyms[0].source, nodes[i].pseudonyms[0].local))
  {
    hide Messages, ById, Qualify, IsWalk, IsStitch, ReadySources, Lineage, Rooted, Local, MergedById;
    PseudonymsAgree(sources, nodes, i, 0, k);
    PseudonymsAgree(sources, nodes, i, k, 0);
    QualifiedLineage(sources, 0, nodes[i].pseudonyms[0].local);
    MergedEntry(sources, 0, nodes[i].pseudonyms[0].local);
  }

  lemma LocalIdOf'(sources: seq<Source>, k: nat, local: Id)
    requires ReadySources(sources) && k < |sources| && local in Local(sources[k])
    ensures ':' !in local
  {
    hide Messages, ById;
    LocalIdOf(sources[k], local);
  }

  lemma QualifiedHasColon(source: string, local: Id)
    ensures ':' in Qualify(source, local)
  {
    assert Qualify(source, local)[|source|] == ':';
  }

  lemma SameSource(sources: seq<Source>, j: nat, k: nat)
    requires ReadySources(sources) && j < |sources| && k < |sources| && sources[j].id == sources[k].id
    ensures j == k
  {
  }

  /** A name of a stitched node that is this qualified anchor belongs to the anchor's source. */
  lemma NameOfQualified(sources: seq<Source>, nodes: seq<StitchedNode>, i: nat, k: nat, local: Id)
    requires ReadySources(sources) && IsStitch(sources, nodes) && i < |nodes| && k < |sources|
    requires local in Local(sources[k]) && Names(nodes[i], Qualify(sources[k].id, local))
    ensures |nodes[i].pseudonyms| == |sources| && nodes[i].pseudonyms[k].local == local
  {
    hide Messages, ById, IsWalk, IsStitch, Rooted, Lineage, Local, ReadySources, Qualify, NodeAt;
    PseudonymsAgree(sources, nodes, i, 0, k);
    LocalIdOf'(sources, k, local);
    var p :| p in nodes[i].pseudonyms &&
      (Qualify(sources[k].id, local) == Qualify(p.source, p.local) || Qualify(sources[k].id, local) == p.local);
    var j :| 0 <= j < |nodes[i].pseudonyms| && nodes[i].pseudonyms[j] == p;
    PseudonymsAgree(sources, nodes, i, j, k);
    LocalIdOf'(sources, j, p.local);
    QualifiedHasColon(sources[k].id, local);
    QualifyInjective(sources[k].id, local, p.source, p.local);
    SameSource(sources, j, k);
  }

  /** Splitting a qualified anchor gives its parts back when the source id is non-empty and
      colon-free; otherwise it gives nothing, or a local part with a colon in it. */
  lemma SplitQualified(source: string, local: Id)
    requires local != "" && ':' !in local
    ensures var split := QualifiedAnchor(Qualify(source, local));
      if source != "" && ':' !in source then split == Some(Pseudonym(source, local))
      else split.Some? ==> ':' in split.value.local
  {
    var q := Qualify(source, local);
    assert q[|source|] == ':';
    if ':' in source {
      var j :| 0 <= j < |source| && source[j] == ':';
      assert q[j] == ':';
      var i := FirstColon(q);
      assert q[i + 1..][|source| - i - 1] == ':';
    } else {
      assert forall j :: 0 <= j < |source| ==> q[j] == source[j];
      assert FirstColon(q) == |source|;
      assert q[..|source|] == source && q[|source| + 1..] == local;
    }
  }

  /** Without the stitch, a qualified anchor of a selected message resolves to itself exactly
      when its source id is non-empty and colon-free, and to nothing otherwise. */
  lemma UnstitchedQualified(sources: seq<Source>, k: nat, local: Id)
    requires ReadySources(sources) && k < |sources| && local in Local(sources[k])
    ensures var result := UnstitchedAnchor(sources, Qualify(sources[k].id, local));
      && (result.Resolved? <==> sources[k].id != "" && ':' !in sources[k].id)
      && (result.Resolved? ==> result.id == Qualify(sources[k].id, local))
  {
    hide Messages, ById, IsWalk, QualifiedAnchor, Qualify, FindSource, Holders, Local, Contains, ReadySources;
    LogsLocal(sources, k, local);
    QualifiedHasColon(sources[k].id, local);
    SplitQualified(sources[k].id, local);
    forall j, id | 0 <= j < |sources| && ':' in id ensures !Contains(sources[j].events, id) {
      NoColonAnywhere(sources, j, id);
    }
    forall j | 0 <= j < |sources| && sources[j].id == sources[k].id ensures j == k {
      SameSource(sources, j, k);
    }
  }

  lemma LogsLocal(sources: seq<Source>, k: nat, local: Id)
    requires ReadySources(sources) && k < |sources| && local in Local(sources[k])
    ensures local != "" && ':' !in local && Contains(sources[k].events, local)
  {
    hide Messages, ById;
    LocalIdOf(sources[k], local);
    assert Local(sources[k])[local] in Messages(sources[k].events);
  }

  lemma NoColonAnywhere(sources: seq<Source>, j: nat, id: Id)
    requires ReadySources(sources) && j < |sources| && ':' in id
    ensures !Contains(sources[j].events, id)
  {
    hide Messages, ById, ReadySource;
    NoColonInside(sources[j], id);
  }

  lemma NoColonInside(s: Source, id: Id)
    requires ReadySource(s) && ':' in id
    ensures !Contains(s.events, id)
  {
    hide Messages, ById;
  }

  /** Resolving a qualified anchor never changes what is projected: whatever comes back is in the
      merged events and reads what the anchor reads in its own source. */
  lemma QualifiedAnchorKeepsLineage(sources: seq<Source>, k: nat, local: Id, result: Resolution)
    requires ReadySources(sources) && k < |sources| && local in Local(sources[k])
    requires ResolvesTo(sources, Qualify(sources[k].id, local), result)
    ensures sources[k].id != "" && ':' !in sources[k].id ==> result.Resolved?
    ensures result.Resolved? ==> ReadsAs(sources, k, local, result.id)
  {
    hide Messages, ById, IsWalk, ReadsAs, Qualify, UnstitchedAnchor, IsStitch, StitchedAnchor;
    var anchor := Qualify(sources[k].id, local);
    UnstitchedQualified(sources, k, local);
    LocalIdOf(sources[k], local);
    assert Local(sources[k])[local] in Messages(sources[k].events);
    assert Contains(sources[k].events, local);
    ReadsAsItself(sources, k, local);
    if nodes: seq<StitchedNode> :|
      && IsStitch(sources, nodes)
      && (forall node :: node in nodes ==> node.pseudonyms != [])
      && StitchedAnchor(nodes, anchor).Some?
      && result == Resolved(StitchedAnchor(nodes, anchor).value)
    {
      var i := MatchedNode(nodes, anchor);
      NameOfQualified(sources, nodes, i, k, local);
      CanonicalReads(sources, nodes, i, k);
    }
  }

  /** Without a stitch a bare anchor is found if a source logs it, and resolves if only one does. */
  lemma UnstitchedBare(sources: seq<Source>, anchor: Id)
    requires ':' !in anchor
    ensures UnstitchedAnchor(sources, anchor) == NotFound <==>
      forall k :: 0 <= k < |sources| ==> !Contains(sources[k].events, anchor)
    ensures UnstitchedAnchor(sources, anchor) == Ambiguous <==>
      exists j, k ::
        0 <= j < k < |sources| && Contains(sources[j].events, anchor) && Contains(sources[k].events, anchor)
    ensures UnstitchedAnchor(sources, anchor).Resolved? ==> exists k ::
      && 0 <= k < |sources| && Contains(sources[k].events, anchor)
      && UnstitchedAnchor(sources, anchor).id == sources[k].id + ":" + anchor
    ensures UnstitchedAnchor(sources, anchor) != SourceNotSelected
  {
    hide Contains;
    var ks := Holders(sources, anchor);
    if |ks| > 1 {
      assert ks[0] in ks && ks[1] in ks;
    } else if |ks| == 1 {
      assert ks[0] in ks;
    }
    if j, k :| 0 <= j < k < |sources| && Contains(sources[j].events, anchor) && Contains(sources[k].events, anchor) {
      assert j in ks && k in ks;
    }
  }

  /** A bare anchor that resolves reads what the anchor reads in some source that logs it. */
  lemma BareAnchorKeepsLineage(sources: seq<Source>, anchor: Id, result: Resolution)
    requires ReadySources(sources) && ':' !in anchor && ResolvesTo(sources, anchor, result)
    ensures result.Resolved? ==> exists k :: 0 <= k < |sources| && ReadsAs(sources, k, anchor, result.id)
    ensures result == NotFound ==> forall k :: 0 <= k < |sources| ==> !Contains(sources[k].events, anchor)
    ensures result == Ambiguous ==>
      exists j, k ::
        0 <= j < k < |sources| && Contains(sources[j].events, anchor) && Contains(sources[k].events, anchor)
    ensures result != SourceNotSelected
  {
    hide Messages, ById, IsWalk, ReadsAs, Qualify, IsStitch, StitchedAnchor, Contains;
    var ks := Holders(sources, anchor);
    if ks != [] {
      assert ks[0] in ks;
      ReadsAsItself(sources, ks[0], anchor);
      if |ks| > 1 {
        assert ks[1] in ks;
      }
    }
    if nodes: seq<StitchedNode> :|
      && IsStitch(sources, nodes)
      && (forall node :: node in nodes ==> node.pseudonyms != [])
      && StitchedAnchor(nodes, anchor).Some?
      && result == Resolved(StitchedAnchor(nodes, anchor).value)
    {
      var i := MatchedNode(nodes, anchor);
      var j := NameOfBare(sources, nodes, i, anchor);
      CanonicalReads(sources, nodes, i, j);
    }
  }

  lemma NameOfBare(sources: seq<Source>, nodes: seq<StitchedNode>, i: nat, anchor: Id) returns (j: nat)
    requires ReadySources(sources) && IsStitch(sources, nodes) && i < |nodes|
    requires ':' !in anchor && Names(nodes[i], anchor)
    ensures j < |sources| == |nodes[i].pseudonyms| && nodes[i].pseudonyms[j].local == anchor
  {
    hide Messages, ById, IsWalk, IsStitch, Rooted, Lineage;
    PseudonymsAgree(sources, nodes, i, 0, 0);
    j :| 0 <= j < |nodes[i].pseudonyms| &&
      var p := nodes[i].pseudonyms[j];
      anchor == Qualify(p.source, p.local) || anchor == p.local;
    assert Qualify(nodes[i].pseudonyms[j].source, nodes[i].pseudonyms[j].local)[|nodes[i].pseudonyms[j].source|] == ':';
  }
}
