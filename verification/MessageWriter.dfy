/**
 Writing messages to a hot journal: allocating ids and parents for those that bring none.
 */
module MessageWriter {
  import opened Journal
  import opened Text
  import opened Projection
  import opened Salvage

  datatype ParentChoice = DefaultParent | Given(parent: Option<Id>)

  /** A message to write; a missing id is allocated. */
  datatype Node = Node(
    id: Option<Id>,
    parent: ParentChoice,
    role: string,
    content: string,
    provenance: Option<string>)

  predicate AllDigits(s: string) {
    s != [] && forall c :: c in s ==> IsDigit(c)
  }

  /** One more than the number in the last message's id; an id without a number is an error. */
  function NextMessageId(ms: seq<Message>): Option<Id> {
    if ms == [] then Some("n1")
    else
      var last := ms[|ms| - 1].id;
      if |last| > 0 && AllDigits(last[1..]) then Some("n" + Decimal(ParseDecimal(last[1..]) + 1)) else None
  }

  function DefaultParentOf(ms: seq<Message>): Id {
    if ms == [] then VIRTUAL_ROOT else ms[|ms| - 1].id
  }

  /** The message a node becomes after `ms`; the next id is computed even if it is not used. */
  function Materialize(ms: seq<Message>, node: Node): Option<Message> {
    match NextMessageId(ms)
    case None => None
    case Some(next) =>
      Some(Message(
        if node.id.Some? then node.id.value else next,
        if node.parent.Given? then node.parent.parent else Some(DefaultParentOf(ms)),
        node.role,
        node.content,
        node.provenance))
  }

  /** The messages after writing all nodes, or an error and nothing. */
  function MaterializeAll(ms: seq<Message>, nodes: seq<Node>): (after: Option<seq<Message>>)
    ensures after.Some? ==> |after.value| == |ms| + |nodes| && ms <= after.value
  {
    if nodes == [] then Some(ms)
    else
      match MaterializeAll(ms, nodes[..|nodes| - 1])
      case None => None
      case Some(before) =>
        match Materialize(before, nodes[|nodes| - 1])
        case None => None
        case Some(m) => Some(before + [m])
  }

  // ----- What a write does, message by message

  /** An id whose tail is a number. */
  predicate HasNumber(id: Id) {
    |id| > 1 && forall c :: c in id[1..] ==> '0' <= c <= '9'
  }

  /** The id after another: "n" and the next number, written without leading zeros. */
  predicate IsNextId(id: Id, previous: Id) {
    && HasNumber(previous) && HasNumber(id)
    && id[0] == 'n' && id[1] != '0'
    && ParseDecimal(id[1..]) == ParseDecimal(previous[1..]) + 1
  }

  /** A node as it is written at the end of a journal. */
  predicate WrittenAfter(before: seq<Message>, node: Node, m: Message) {
    && m.role == node.role
    && m.content == node.content
    && m.provenance == node.provenance
    && (match node.id
        case Some(id) => m.id == id
        case None => if before == [] then m.id == "n1" else IsNextId(m.id, before[|before| - 1].id))
    && (match node.parent
        case Given(parent) => m.parent == parent
        case DefaultParent =>
          m.parent == Some(if before == [] then "n0" else before[|before| - 1].id))
  }

  /** The nodes as they are written one after the other. */
  ghost predicate AllWritten(ms: seq<Message>, nodes: seq<Node>, written: seq<Message>) {
    && |written| == |nodes|
    && forall i :: 0 <= i < |nodes| ==> WrittenAfter(ms + written[..i], nodes[i], written[i])
  }

  /** A write fails exactly when it has to number after an id without a number: the journal's last one, or
      one it was given for a node before the last. */
  predicate Unnumbered(ms: seq<Message>, nodes: seq<Node>) {
    && nodes != []
    && (|| (ms != [] && !HasNumber(ms[|ms| - 1].id))
        || exists i :: 0 <= i < |nodes| - 1 && nodes[i].id.Some? && !HasNumber(nodes[i].id.value))
  }

  lemma {:induction false} DecimalShape(n: nat)
    requires n > 0
    ensures Decimal(n)[0] != '0'
  {
    if n >= 10 {
      DecimalShape(n / 10);
    }
  }

  lemma NextIdIsNext(previous: Id)
    requires HasNumber(previous)
    ensures IsNextId("n" + Decimal(ParseDecimal(previous[1..]) + 1), previous)
  {
    var n := ParseDecimal(previous[1..]) + 1;
    DecimalShape(n);
    ParseDecimalRoundTrip(n);
    assert ("n" + Decimal(n))[1..] == Decimal(n);
  }

  lemma MaterializeIsWritten(ms: seq<Message>, node: Node)
    ensures Materialize(ms, node).None? <==> ms != [] && !HasNumber(ms[|ms| - 1].id)
    ensures Materialize(ms, node).Some? ==> WrittenAfter(ms, node, Materialize(ms, node).value)
  {
    if ms != [] && HasNumber(ms[|ms| - 1].id) {
      NextIdIsNext(ms[|ms| - 1].id);
    }
  }

  lemma {:induction false} AllMaterialized(ms: seq<Message>, nodes: seq<Node>)
    ensures MaterializeAll(ms, nodes).None? <==> Unnumbered(ms, nodes)
    ensures MaterializeAll(ms, nodes).Some? ==> AllWritten(ms, nodes, MaterializeAll(ms, nodes).value[|ms|..])
  {
    hide Materialize, HasNumber, WrittenAfter;
    if nodes != [] {
      var rest, last := nodes[..|nodes| - 1], nodes[|nodes| - 1];
      AllMaterialized(ms, rest);
      if MaterializeAll(ms, rest).Some? {
        var before := MaterializeAll(ms, rest).value;
        MaterializeIsWritten(before, last);
        assert ms + before[|ms|..] == before;
        LastWritten(ms, rest, before[|ms|..]);
        UnnumberedMore(ms, nodes);
        if Materialize(before, last).Some? {
          MoreWritten(ms, nodes, before[|ms|..], Materialize(before, last).value);
        }
      } else {
        UnnumberedMore(ms, nodes);
      }
    }
  }

  /** Whether the last id written has a number. */
  lemma LastWritten(ms: seq<Message>, nodes: seq<Node>, written: seq<Message>)
    requires AllWritten(ms, nodes, written)
    ensures var after := ms + written;
      after != [] ==>
        (HasNumber(after[|after| - 1].id) <==>
          if nodes == [] then HasNumber(ms[|ms| - 1].id)
          else nodes[|nodes| - 1].id.None? || HasNumber(nodes[|nodes| - 1].id.value))
    ensures nodes != [] ==> ms + written != []
  {
    hide ParseDecimal;
    if nodes != [] {
      var n := |nodes| - 1;
      assert WrittenAfter(ms + written[..n], nodes[n], written[n]);
      assert (ms + written)[|ms| + n] == written[n];
    }
  }

  lemma UnnumberedMore(ms: seq<Message>, nodes: seq<Node>)
    requires nodes != []
    ensures var rest := nodes[..|nodes| - 1];
      Unnumbered(ms, nodes) <==>
        || Unnumbered(ms, rest)
        || (if rest == [] then ms != [] && !HasNumber(ms[|ms| - 1].id)
            else rest[|rest| - 1].id.Some? && !HasNumber(rest[|rest| - 1].id.value))
  {
    hide HasNumber;
    var rest := nodes[..|nodes| - 1];
    assert forall i :: 0 <= i < |rest| ==> rest[i] == nodes[i];
    if rest != [] {
      assert rest[|rest| - 1] == nodes[|nodes| - 2];
    }
  }

  lemma MoreWritten(ms: seq<Message>, nodes: seq<Node>, before: seq<Message>, m: Message)
    requires nodes != [] && AllWritten(ms, nodes[..|nodes| - 1], before)
    requires WrittenAfter(ms + before, nodes[|nodes| - 1], m)
    ensures AllWritten(ms, nodes, before + [m])
    ensures (ms + before + [m])[|ms|..] == before + [m]
  {
    hide WrittenAfter;
    var written, rest := before + [m], nodes[..|nodes| - 1];
    forall i | 0 <= i < |nodes| ensures WrittenAfter(ms + written[..i], nodes[i], written[i]) {
      if i < |rest| {
        assert written[..i] == before[..i] && rest[i] == nodes[i];
      } else {
        assert written[..i] == before;
      }
    }
  }

  function SidecarEvents(sidecars: seq<Sidecar>): (events: seq<Event>)
    ensures |events| == |sidecars| && forall i :: 0 <= i < |sidecars| ==> events[i] == SidecarEvent(sidecars[i])
  {
    seq(|sidecars|, i requires 0 <= i < |sidecars| => SidecarEvent(sidecars[i]))
  }

  function MessageEvents(ms: seq<Message>): (events: seq<Event>)
    ensures |events| == |ms| && forall i :: 0 <= i < |ms| ==> events[i] == MessageEvent(ms[i])
  {
    seq(|ms|, i requires 0 <= i < |ms| => MessageEvent(ms[i]))
  }

  lemma {:induction false} SidecarsAppended(events: seq<Event>, sidecars: seq<Sidecar>)
    ensures Messages(events + SidecarEvents(sidecars)) == Messages(events)
  {
    hide Messages;
    var n := |sidecars|;
    if n == 0 {
      assert events + SidecarEvents(sidecars) == events;
    } else {
      SidecarsAppended(events, sidecars[..n - 1]);
      var before := events + SidecarEvents(sidecars[..n - 1]);
      MessagesSnoc(before, SidecarEvent(sidecars[n - 1]));
      assert events + SidecarEvents(sidecars) == before + [SidecarEvent(sidecars[n - 1])];
    }
  }

  lemma {:induction false} MessagesAppended(events: seq<Event>, ms: seq<Message>)
    ensures Messages(events + MessageEvents(ms)) == Messages(events) + ms
  {
    hide Messages;
    var n := |ms|;
    if n == 0 {
      assert events + MessageEvents(ms) == events;
    } else {
      MessagesAppended(events, ms[..n - 1]);
      var before := events + MessageEvents(ms[..n - 1]);
      MessagesSnoc(before, MessageEvent(ms[n - 1]));
      assert events + MessageEvents(ms) == before + [MessageEvent(ms[n - 1])];
      assert Messages(events) + ms == Messages(events) + ms[..n - 1] + [ms[n - 1]];
    }
  }

  class HotJournal {
    var events: seq<Event>

    constructor ()
      ensures events == []
    {
      events := [];
    }

    method AppendNodes(sidecars: seq<Sidecar>)
      modifies this
      ensures events == old(events) + SidecarEvents(sidecars)
      ensures Messages(events) == old(Messages(events))
    {
      hide Messages;
      ghost var appended := SidecarEvents(sidecars);
      for i := 0 to |sidecars|
        invariant events == old(events) + appended[..i]
      {
        events := events + [SidecarEvent(sidecars[i])];
      }
      assert appended[..|sidecars|] == appended;
      SidecarsAppended(old(events), sidecars);
    }

    /** Writes all nodes, each seeing the ones before it, or fails without writing any. */
    method WriteMessageEvents(nodes: seq<Node>) returns (written: Option<seq<Message>>)
      modifies this
      ensures written.None? <==> MaterializeAll(old(Messages(events)), nodes).None?
      ensures written.None? <==> Unnumbered(old(Messages(events)), nodes)
      ensures written.Some? ==> AllWritten(old(Messages(events)), nodes, written.value)
      ensures written.None? ==> events == old(events)
      ensures written.Some? ==>
        && |written.value| == |nodes|
        && events == old(events) + MessageEvents(written.value)
        && Messages(events) == old(Messages(events)) + written.value
        && Some(Messages(events)) == MaterializeAll(old(Messages(events)), nodes)
    {
      hide Materialize, MaterializeAll, Messages, AllWritten, Unnumbered;
      var before := Messages(events);
      AllMaterialized(before, nodes);
      var materialized: seq<Message> := [];
      assert before + materialized == before;
      NothingMaterialized(before, nodes);
      for i := 0 to |nodes|
        invariant |materialized| == i && events == old(events)
        invariant MaterializeAll(before, nodes[..i]) == Some(before + materialized)
      {
        MaterializeNext(before, nodes, i);
        var m := Materialize(before + materialized, nodes[i]);
        if m.None? {
          FailureStays(before, nodes, i + 1);
          return None;
        }
        assert before + (materialized + [m.value]) == before + materialized + [m.value];
        materialized := materialized + [m.value];
      }
      assert nodes[..|nodes|] == nodes;
      ghost var appended := MessageEvents(materialized);
      for i := 0 to |materialized|
        invariant events == old(events) + appended[..i]
      {
        events := events + [MessageEvent(materialized[i])];
      }
      assert appended[..|materialized|] == appended;
      MessagesAppended(old(events), materialized);
      written := Some(materialized);
    }
  }

  lemma NothingMaterialized(ms: seq<Message>, nodes: seq<Node>)
    ensures MaterializeAll(ms, nodes[..0]) == Some(ms)
  {
  }

  lemma MaterializeNext(ms: seq<Message>, nodes: seq<Node>, i: nat)
    requires i < |nodes| && MaterializeAll(ms, nodes[..i]).Some?
    ensures var before := MaterializeAll(ms, nodes[..i]).value;
      MaterializeAll(ms, nodes[..i + 1]) ==
        match Materialize(before, nodes[i])
        case None => None
        case Some(m) => Some(before + [m])
  {
    hide Materialize;
    assert nodes[..i + 1][..i] == nodes[..i];
  }

  lemma {:induction false} FailureStays(ms: seq<Message>, nodes: seq<Node>, n: nat)
    requires n <= |nodes| && MaterializeAll(ms, nodes[..n]).None?
    ensures MaterializeAll(ms, nodes).None?
    decreases |nodes| - n
  {
    if n < |nodes| {
      assert nodes[..n + 1][..n] == nodes[..n];
      FailureStays(ms, nodes, n + 1);
    } else {
      assert nodes[..n] == nodes;
    }
  }

  // ----- Journals written this way are forests

  function NthId(k: nat): Id {
    "n" + Decimal(k)
  }

  /** The k-th message carries the id n(k+1). */
  ghost predicate Numbered(ms: seq<Message>) {
    forall k :: 0 <= k < |ms| ==> ms[k].id == NthId(k + 1)
  }

  /** No id of its own, and a parent that is the virtual root or already logged. */
  ghost predicate Regular(ms: seq<Message>, node: Node) {
    && node.id.None?
    && (node.parent.Given? ==>
          && node.parent.parent.Some?
          && (node.parent.parent.value == VIRTUAL_ROOT ||
              exists j :: 0 <= j < |ms| && ms[j].id == node.parent.parent.value))
  }

  lemma NthIdShape(k: nat)
    ensures NthId(k)[1..] == Decimal(k) && AllDigits(NthId(k)[1..]) && ParseDecimal(NthId(k)[1..]) == k
    ensures NthId(k) != "" && ':' !in NthId(k)
    ensures k > 0 ==> NthId(k) != VIRTUAL_ROOT
  {
    ParseDecimalRoundTrip(k);
    ParseDecimalRoundTrip(0);
    assert NthId(0) == "n" + Decimal(0) == VIRTUAL_ROOT;
  }

  lemma NthIdInjective(j: nat, k: nat)
    requires NthId(j) == NthId(k)
    ensures j == k
  {
    NthIdShape(j);
    NthIdShape(k);
  }

  /** Writing one regular node numbers it next and hangs it below something logged. */
  lemma WriteKeepsForest(ms: seq<Message>, node: Node)
    requires Numbered(ms) && OrderedForest(ms) && Regular(ms, node)
    ensures Materialize(ms, node).Some?
    ensures Numbered(ms + [Materialize(ms, node).value]) && OrderedForest(ms + [Materialize(ms, node).value])
  {
    hide NthId, NextMessageId, Regular, ParentEarlier;
    NextIsNumbered(ms);
    var m := Materialize(ms, node).value;
    RegularIsNew(ms, node);
    NewIdFits(ms, m);
    forall i | 0 <= i < |ms| + 1 ensures ParentEarlier(ms + [m], i) {
      if i < |ms| {
        EarlierStays(ms, m, i);
      } else {
        ParentIsLogged(ms, node);
      }
    }
  }

  lemma RegularIsNew(ms: seq<Message>, node: Node)
    requires Numbered(ms) && Regular(ms, node)
    ensures Materialize(ms, node).Some? && Materialize(ms, node).value.id == NthId(|ms| + 1)
  {
    hide NthId, NextMessageId;
    NextIsNumbered(ms);
  }

  /** The next number is a new, proper id. */
  lemma NewIdFits(ms: seq<Message>, m: Message)
    requires Numbered(ms) && UniqueIds(ms) && m.id == NthId(|ms| + 1)
    ensures Numbered(ms + [m]) && UniqueIds(ms + [m]) && m.id != "" && m.id != VIRTUAL_ROOT
  {
    hide NthId;
    NthIdShape(|ms| + 1);
    forall i | 0 <= i < |ms| ensures ms[i].id != m.id {
      if ms[i].id == m.id {
        NthIdInjective(i + 1, |ms| + 1);
      }
    }
  }

  lemma NextIsNumbered(ms: seq<Message>)
    requires Numbered(ms)
    ensures NextMessageId(ms) == Some(NthId(|ms| + 1))
  {
    if ms != [] {
      NthIdShape(|ms|);
    } else {
      assert NthId(1) == "n1";
    }
  }

  lemma EarlierStays(ms: seq<Message>, m: Message, i: nat)
    requires i < |ms| && ParentEarlier(ms, i)
    ensures ParentEarlier(ms + [m], i)
  {
    if ms[i].parent.value != VIRTUAL_ROOT {
      var j :| 0 <= j < i && ms[j].id == ms[i].parent.value;
      assert (ms + [m])[j] == ms[j];
    }
  }

  lemma ParentIsLogged(ms: seq<Message>, node: Node)
    requires Regular(ms, node) && Materialize(ms, node).Some?
    ensures ParentEarlier(ms + [Materialize(ms, node).value], |ms|)
  {
    var m := Materialize(ms, node).value;
    if m.parent.value != VIRTUAL_ROOT {
      var j :| 0 <= j < |ms| && ms[j].id == m.parent.value;
      assert (ms + [m])[j] == ms[j];
    }
  }

  /** Every node regular when its turn comes. */
  ghost predicate RegularRun(ms: seq<Message>, nodes: seq<Node>) {
    forall i, before :: 0 <= i < |nodes| && MaterializeAll(ms, nodes[..i]) == Some(before) ==> Regular(before, nodes[i])
  }

  lemma {:induction false} RunKeepsForest(ms: seq<Message>, nodes: seq<Node>)
    requires Numbered(ms) && OrderedForest(ms) && RegularRun(ms, nodes)
    ensures MaterializeAll(ms, nodes).Some?
    ensures var ms' := MaterializeAll(ms, nodes).value;
      Numbered(ms') && OrderedForest(ms') && |ms'| == |ms| + |nodes| && ms <= ms'
  {
    hide Materialize, Numbered, OrderedForest, Regular, RegularRun;
    if nodes != [] {
      var rest, last := nodes[..|nodes| - 1], nodes[|nodes| - 1];
      RegularPrefix(ms, nodes);
      RunKeepsForest(ms, rest);
      WriteKeepsForest(MaterializeAll(ms, rest).value, last);
    }
  }

  lemma RegularPrefix(ms: seq<Message>, nodes: seq<Node>)
    requires RegularRun(ms, nodes) && nodes != []
    ensures RegularRun(ms, nodes[..|nodes| - 1])
    ensures forall before :: MaterializeAll(ms, nodes[..|nodes| - 1]) == Some(before) ==>
      Regular(before, nodes[|nodes| - 1])
  {
    hide MaterializeAll, Regular;
    var rest := nodes[..|nodes| - 1];
    assert forall i :: 0 <= i < |rest| ==> rest[i] == nodes[i] && rest[..i] == nodes[..i];
  }

  /** One call: a batch of messages, sidecar records, or a seal of the hot file. */
  datatype Call = WriteCall(nodes: seq<Node>) | AppendCall(sidecars: seq<Sidecar>) | SealCall

  /** The sealed segments in order, and the hot file, which is all a write reads. */
  datatype Store = Store(sealed: seq<seq<Event>>, hot: seq<Event>)

  function SourcesOf(store: Store): seq<seq<Event>> {
    store.sealed + [store.hot]
  }

  function Called(store: Store, call: Call): Option<Store> {
    match call
    case WriteCall(nodes) =>
      var before := Messages(store.hot);
      (match MaterializeAll(before, nodes)
       case None => None
       case Some(after) => Some(store.(hot := store.hot + MessageEvents(after[|before|..]))))
    case AppendCall(sidecars) => Some(store.(hot := store.hot + SidecarEvents(sidecars)))
    case SealCall => Some(Store(store.sealed + [store.hot], []))
  }

  /** The journal after some calls, if none failed. */
  function StoreAfter(calls: seq<Call>): Option<Store> {
    if calls == [] then Some(Store([], []))
    else
      match StoreAfter(calls[..|calls| - 1])
      case None => None
      case Some(before) => Called(before, calls[|calls| - 1])
  }

  /** Every batch regular when its turn comes. */
  ghost predicate RegularCalls(calls: seq<Call>) {
    forall i, before :: 0 <= i < |calls| && calls[i].WriteCall? && StoreAfter(calls[..i]) == Some(before) ==>
      RegularRun(Messages(before.hot), calls[i].nodes)
  }

  /** Numbered from n1 in order, parents first. */
  ghost predicate InOrder(events: seq<Event>) {
    Numbered(Messages(events)) && OrderedForest(Messages(events))
  }

  ghost predicate AllInOrder(store: Store) {
    InOrder(store.hot) && forall k :: 0 <= k < |store.sealed| ==> InOrder(store.sealed[k])
  }

  lemma CallKeepsOrder(store: Store, call: Call)
    requires AllInOrder(store) && (call.WriteCall? ==> RegularRun(Messages(store.hot), call.nodes))
    ensures Called(store, call).Some? && AllInOrder(Called(store, call).value)
  {
    hide RegularRun, MaterializeAll, Numbered, OrderedForest, Messages;
    match call {
      case WriteCall(nodes) =>
        var before := Messages(store.hot);
        RunKeepsForest(before, nodes);
        var after := MaterializeAll(before, nodes).value;
        MessagesAppended(store.hot, after[|before|..]);
        assert before + after[|before|..] == after;
      case AppendCall(sidecars) =>
        SidecarsAppended(store.hot, sidecars);
      case SealCall =>
        NothingWritten();
    }
  }

  lemma NothingWritten()
    ensures InOrder([])
  {
  }

  lemma {:induction false} CallsKeepOrder(calls: seq<Call>)
    requires RegularCalls(calls)
    ensures StoreAfter(calls).Some? && AllInOrder(StoreAfter(calls).value)
  {
    hide RegularRun, Called, InOrder;
    if calls == [] {
      NothingWritten();
    } else {
      var rest, last := calls[..|calls| - 1], calls[|calls| - 1];
      assert forall i :: 0 <= i < |rest| ==> rest[i] == calls[i] && rest[..i] == calls[..i];
      CallsKeepOrder(rest);
      assert last.WriteCall? ==> RegularRun(Messages(StoreAfter(rest).value.hot), calls[|rest|].nodes);
      CallKeepsOrder(StoreAfter(rest).value, last);
    }
  }

  /** What every source promises: ids are n1 to nk in order, every parent comes first, the integrity
      check passes with ids any projection can qualify, the journal is one that salvage accepts, and
      every lineage walk ends within as many steps as there are messages up to it. */
  ghost predicate WellWritten(events: seq<Event>) {
    var ms := Messages(events);
    && Numbered(ms)
    && OrderedForest(ms)
    && IsForest(ms)
    && (forall id :: ReadySource(Source(id, events)))
    && forall i :: 0 <= i < |ms| ==> Rooted(ById(ms), ms[i].id) && |Path(ById(ms), ms[i].id)| <= i + 1
  }

  lemma OrderIsWellWritten(events: seq<Event>)
    requires InOrder(events)
    ensures WellWritten(events)
  {
    hide Messages, ById, IsForest;
    var ms := Messages(events);
    ForestIsIntact(ms);
    OrderedIsForest(ms);
    forall m | m in ms ensures m.id != "" && m.id != VIRTUAL_ROOT && ':' !in m.id {
      var k :| 0 <= k < |ms| && ms[k] == m;
      NthIdShape(k + 1);
    }
    forall i | 0 <= i < |ms|
      ensures Rooted(ById(ms), ms[i].id) && |Path(ById(ms), ms[i].id)| <= i + 1
    {
      WalkIsShort(ms, i);
    }
  }

  /** After any sequence of write, append and seal calls from an empty journal every source, sealed
      or hot, is well written; and ids are unique across the logical history exactly when at most
      one source holds messages, since each is numbered from n1. */
  lemma EveryWriteRun(calls: seq<Call>)
    requires RegularCalls(calls)
    ensures StoreAfter(calls).Some?
    ensures var sources := SourcesOf(StoreAfter(calls).value);
      && (forall k :: 0 <= k < |sources| ==> WellWritten(sources[k]))
      && (UniqueIds(Messages(Flat(sources))) <==> AtMostOne(sources))
  {
    hide RegularCalls, StoreAfter, InOrder, WellWritten, UniqueIds, AtMostOne, Messages;
    CallsKeepOrder(calls);
    var store := StoreAfter(calls).value;
    var sources := SourcesOf(store);
    forall k | 0 <= k < |sources| ensures InOrder(sources[k]) && WellWritten(sources[k]) {
      assert sources[k] == if k < |store.sealed| then store.sealed[k] else store.hot;
      OrderIsWellWritten(sources[k]);
    }
    UniqueAcrossSources(sources);
  }

  /** The sources one after the other. */
  function Flat(sources: seq<seq<Event>>): seq<Event> {
    if sources == [] then [] else Flat(sources[..|sources| - 1]) + sources[|sources| - 1]
  }

  /** No two sources hold messages. */
  ghost predicate AtMostOne(sources: seq<seq<Event>>) {
    forall j, k :: 0 <= j < k < |sources| ==> Messages(sources[j]) == [] || Messages(sources[k]) == []
  }

  lemma FlatSnoc(sources: seq<seq<Event>>, n: nat)
    requires n < |sources|
    ensures Messages(Flat(sources[..n + 1])) == Messages(Flat(sources[..n])) + Messages(sources[n])
  {
    hide Messages;
    assert sources[..n + 1][..n] == sources[..n];
    MessagesSplit(Flat(sources[..n]), sources[n]);
  }

  lemma FlatNone(sources: seq<seq<Event>>)
    ensures Messages(Flat(sources[..0])) == []
  {
  }

  lemma {:induction false} UniqueIfOne(sources: seq<seq<Event>>, n: nat)
    requires n <= |sources| && AtMostOne(sources)
    requires forall k :: 0 <= k < |sources| ==> InOrder(sources[k])
    ensures UniqueIds(Messages(Flat(sources[..n])))
    ensures Messages(Flat(sources[..n])) != [] ==> exists k :: 0 <= k < n && Messages(sources[k]) != []
  {
    hide Messages, Flat;
    if n == 0 {
      FlatNone(sources);
    } else {
      UniqueIfOne(sources, n - 1);
      FlatSnoc(sources, n - 1);
      var before, last := Messages(Flat(sources[..n - 1])), Messages(sources[n - 1]);
      assert before == [] || last == [];
      assert before + last == if last == [] then before else last;
    }
  }

  lemma {:induction false} FirstStays(sources: seq<seq<Event>>, j: nat, n: nat)
    requires j < n <= |sources| && Messages(sources[j]) != []
    ensures Messages(sources[j])[0] in Messages(Flat(sources[..n]))
  {
    hide Messages, Flat;
    FlatSnoc(sources, n - 1);
    if j < n - 1 {
      FirstStays(sources, j, n - 1);
    }
  }

  lemma {:induction false} OnceUnique(sources: seq<seq<Event>>, n: nat)
    requires n <= |sources| && UniqueIds(Messages(Flat(sources)))
    ensures UniqueIds(Messages(Flat(sources[..n])))
    decreases |sources| - n
  {
    hide Messages, Flat;
    if n == |sources| {
      assert sources[..n] == sources;
    } else {
      OnceUnique(sources, n + 1);
      FlatSnoc(sources, n);
      var before, more := Messages(Flat(sources[..n])), Messages(sources[n]);
      assert forall i :: 0 <= i < |before| ==> (before + more)[i] == before[i];
    }
  }

  lemma FirstIsN1(events: seq<Event>)
    requires InOrder(events) && Messages(events) != []
    ensures Messages(events)[0].id == NthId(1)
  {
  }

  lemma SharedId(before: seq<Message>, m: Message, more: seq<Message>)
    requires m in before && more != [] && m.id == more[0].id
    ensures !UniqueIds(before + more)
  {
    var p :| 0 <= p < |before| && before[p] == m;
    assert (before + more)[p].id == (before + more)[|before|].id;
  }

  lemma UniqueAcrossSources(sources: seq<seq<Event>>)
    requires forall k :: 0 <= k < |sources| ==> InOrder(sources[k])
    ensures UniqueIds(Messages(Flat(sources))) <==> AtMostOne(sources)
  {
    hide Messages, Flat, InOrder, UniqueIds, AtMostOne;
    if AtMostOne(sources) {
      UniqueIfOne(sources, |sources|);
      assert sources[..|sources|] == sources;
    } else {
      var j, k := TwoHold(sources);
      TwoShareN1(sources, j, k);
      if UniqueIds(Messages(Flat(sources))) {
        OnceUnique(sources, k + 1);
      }
    }
  }

  lemma TwoHold(sources: seq<seq<Event>>) returns (j: nat, k: nat)
    requires !AtMostOne(sources)
    ensures j < k < |sources| && Messages(sources[j]) != [] && Messages(sources[k]) != []
  {
    hide Messages;
    j, k :| 0 <= j < k < |sources| && Messages(sources[j]) != [] && Messages(sources[k]) != [];
  }

  /** Two sources that hold messages both have an n1. */
  lemma TwoShareN1(sources: seq<seq<Event>>, j: nat, k: nat)
    requires j < k < |sources| && InOrder(sources[j]) && InOrder(sources[k])
    requires Messages(sources[j]) != [] && Messages(sources[k]) != []
    ensures !UniqueIds(Messages(Flat(sources[..k + 1])))
  {
    hide Messages, Flat, InOrder, UniqueIds, NthId;
    FirstIsN1(sources[j]);
    FirstIsN1(sources[k]);
    FirstStays(sources, j, k);
    FlatSnoc(sources, k);
    SharedId(Messages(Flat(sources[..k])), Messages(sources[j])[0], Messages(sources[k]));
  }

  lemma ForestIsIntact(ms: seq<Message>)
    requires OrderedForest(ms)
    ensures Intact(ms)
  {
    hide ById;
    forall m | m in ms ensures ParentLogged(ms, m) {
      var i :| 0 <= i < |ms| && ms[i] == m;
      assert ParentEarlier(ms, i);
      if m.parent.value != VIRTUAL_ROOT {
        var j :| 0 <= j < i && ms[j].id == m.parent.value;
        assert ms[j] in ms;
      }
    }
  }

  lemma {:induction false} WalkIsShort(ms: seq<Message>, i: nat)
    requires OrderedForest(ms) && i < |ms|
    ensures Rooted(ById(ms), ms[i].id) && |Path(ById(ms), ms[i].id)| <= i + 1
  {
    hide ById;
    ByIdUnique(ms, ms[i]);
    OrderedForestRooted(ms, i);
    PathStep(ById(ms), ms[i].id);
    if HasParent(ById(ms), ms[i].id) {
      assert ParentEarlier(ms, i) && ms[i].parent.value != VIRTUAL_ROOT;
      var j :| 0 <= j < i && ms[j].id == ms[i].parent.value;
      WalkIsShort(ms, j);
    }
  }
}
