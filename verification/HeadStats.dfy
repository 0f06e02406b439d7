/**
 Lineage statistics of every message, memoised along shared lineages.
 */
module HeadStats {
  import opened Journal

  /** Depth, role changes, and how many messages came from each source. */
  datatype Stats = Stats(depth: nat, turns: nat, provenance: map<string, nat>)

  const EMPTY_STATS := Stats(0, 0, map[])

  function SourceOf(m: Message): string {
    if m.provenance.Some? then m.provenance.value else "?"
  }

  function Counted(counts: map<string, nat>, source: string): map<string, nat> {
    counts[source := (if source in counts then counts[source] else 0) + 1]
  }

  /** The statistics of a child from those of its parent. */
  function Extend(above: Stats, m: Message, parent: Option<Message>): Stats {
    Stats(
      above.depth + 1,
      above.turns + if parent.Some? && parent.value.role != m.role then 1 else 0,
      Counted(above.provenance, SourceOf(m)))
  }

  // ----- The direct computation over a lineage

  function RoleChanges(lineage: seq<Message>): nat {
    if |lineage| < 2 then 0
    else
      RoleChanges(lineage[..|lineage| - 1]) +
        if lineage[|lineage| - 1].role != lineage[|lineage| - 2].role then 1 else 0
  }

  function SourceCounts(lineage: seq<Message>): map<string, nat> {
    if lineage == [] then map[]
    else Counted(SourceCounts(lineage[..|lineage| - 1]), SourceOf(lineage[|lineage| - 1]))
  }

  function DirectStats(lineage: seq<Message>): Stats {
    Stats(|lineage|, RoleChanges(lineage), SourceCounts(lineage))
  }

  // ----- What the statistics count

  /** A message comes from a source; "?" if it names none. */
  predicate ComesFrom(m: Message, source: string) {
    match m.provenance
    case Some(named) => source == named
    case None => source == "?"
  }

  /** The positions of the messages from a source. */
  function FromSource(lineage: seq<Message>, source: string): set<nat> {
    set i | 0 <= i < |lineage| && ComesFrom(lineage[i], source)
  }

  predicate ChangesAt(lineage: seq<Message>, i: nat) {
    0 < i < |lineage| && lineage[i].role != lineage[i - 1].role
  }

  /** The positions whose role is not the one before. */
  function Changes(lineage: seq<Message>): set<nat> {
    set i | 0 <= i < |lineage| && ChangesAt(lineage, i)
  }

  /** As deep as the lineage is long, one turn for each change of role, and for each source some message
      comes from, how many do. */
  ghost predicate Describes(stats: Stats, lineage: seq<Message>) {
    && stats.depth == |lineage|
    && stats.turns == |Changes(lineage)|
    && (forall s :: s in stats.provenance <==> exists i :: 0 <= i < |lineage| && ComesFrom(lineage[i], s))
    && (forall s :: s in stats.provenance ==> stats.provenance[s] == |FromSource(lineage, s)|)
  }

  lemma FromSnoc(lineage: seq<Message>, m: Message, source: string)
    ensures |FromSource(lineage + [m], source)| == |FromSource(lineage, source)| + if ComesFrom(m, source) then 1 else 0
  {
    hide ComesFrom;
    var n := |lineage|;
    var more := lineage + [m];
    assert more[n] == m && forall i :: 0 <= i < n ==> more[i] == lineage[i];
    assert FromSource(more, source) == FromSource(lineage, source) + if ComesFrom(m, source) then {n} else {};
    assert n !in FromSource(lineage, source);
  }

  lemma CountsSnoc(lineage: seq<Message>, m: Message, source: string)
    ensures var before, after := SourceCounts(lineage), SourceCounts(lineage + [m]);
      && (source in after <==> source in before || ComesFrom(m, source))
      && (source in after ==>
            after[source] == (if source in before then before[source] else 0) + if ComesFrom(m, source) then 1 else 0)
  {
    assert (lineage + [m])[..|lineage|] == lineage;
    assert ComesFrom(m, source) <==> source == SourceOf(m);
    hide ComesFrom, SourceOf;
  }

  lemma {:induction false} CountsSources(lineage: seq<Message>, source: string)
    ensures source in SourceCounts(lineage) <==> |FromSource(lineage, source)| > 0
    ensures source in SourceCounts(lineage) ==> SourceCounts(lineage)[source] == |FromSource(lineage, source)|
  {
    hide FromSource, SourceCounts, ComesFrom;
    if lineage == [] {
      NoSources(source);
    } else {
      var n := |lineage| - 1;
      var rest, last := lineage[..n], lineage[n];
      assert lineage == rest + [last];
      CountsSources(rest, source);
      FromSnoc(rest, last, source);
      CountsSnoc(rest, last, source);
    }
  }

  lemma NoSources(source: string)
    ensures SourceCounts([]) == map[] && FromSource([], source) == {}
  {
  }

  lemma ChangesSnoc(lineage: seq<Message>, m: Message)
    requires lineage != []
    ensures |Changes(lineage + [m])| ==
      |Changes(lineage)| + if m.role != lineage[|lineage| - 1].role then 1 else 0
  {
    var n, more := |lineage|, lineage + [m];
    assert more[n] == m && forall i :: 0 <= i < n ==> more[i] == lineage[i];
    assert forall i :: 0 <= i < n ==> (ChangesAt(more, i) <==> ChangesAt(lineage, i));
    assert Changes(more) == Changes(lineage) + if m.role != lineage[n - 1].role then {n} else {};
    assert n !in Changes(lineage);
  }

  lemma {:induction false} CountsChanges(lineage: seq<Message>)
    ensures RoleChanges(lineage) == |Changes(lineage)|
  {
    if |lineage| < 2 {
      assert Changes(lineage) == {};
    } else {
      hide Changes;
      var n := |lineage| - 1;
      CountsChanges(lineage[..n]);
      assert lineage == lineage[..n] + [lineage[n]];
      ChangesSnoc(lineage[..n], lineage[n]);
    }
  }

  lemma DirectDescribes(lineage: seq<Message>)
    ensures Describes(DirectStats(lineage), lineage)
  {
    hide SourceCounts, RoleChanges, ComesFrom;
    CountsChanges(lineage);
    forall s
      ensures s in SourceCounts(lineage) <==> exists i :: 0 <= i < |lineage| && ComesFrom(lineage[i], s)
      ensures s in SourceCounts(lineage) ==> SourceCounts(lineage)[s] == |FromSource(lineage, s)|
    {
      CountsSources(lineage, s);
      SomeFrom(lineage, s);
    }
  }

  lemma SomeFrom(lineage: seq<Message>, source: string)
    ensures FromSource(lineage, source) != {} <==> exists i :: 0 <= i < |lineage| && ComesFrom(lineage[i], source)
  {
    hide ComesFrom;
    if i :| 0 <= i < |lineage| && ComesFrom(lineage[i], source) {
      assert i in FromSource(lineage, source);
    }
  }

  method LineageStats(lineage: seq<Message>) returns (stats: Stats)
    ensures stats == DirectStats(lineage)
    ensures Describes(stats, lineage)
  {
    hide Describes;
    DirectDescribes(lineage);
    var turns: nat := 0;
    for i := 0 to |lineage|
      invariant turns == RoleChanges(lineage[..i])
    {
      assert lineage[..i + 1][..i] == lineage[..i];
      if 0 < i && lineage[i].role != lineage[i - 1].role {
        turns := turns + 1;
      }
    }
    assert lineage[..|lineage|] == lineage;
    var counts: map<string, nat> := map[];
    for i := 0 to |lineage|
      invariant counts == SourceCounts(lineage[..i])
    {
      assert lineage[..i + 1][..i] == lineage[..i];
      counts := Counted(counts, SourceOf(lineage[i]));
    }
    stats := Stats(|lineage|, turns, counts);
  }

  // ----- The memoised pass

  function MessagesOn(byId: map<Id, Message>, path: seq<Id>): (ms: seq<Message>)
    requires forall x :: x in path ==> x in byId
    ensures |ms| == |path| && forall i :: 0 <= i < |path| ==> ms[i] == byId[path[i]]
  {
    seq(|path|, i requires 0 <= i < |path| => byId[path[i]])
  }

  /** What the memo has to hold for a message. */
  ghost function StatsOf(byId: map<Id, Message>, id: Id): Stats
    requires Rooted(byId, id)
  {
    WalkInDomain(byId, id, Path(byId, id));
    DirectStats(MessagesOn(byId, Path(byId, id)))
  }

  function ParentMessage(byId: map<Id, Message>, id: Id): Option<Message>
    requires id in byId
  {
    if HasParent(byId, id) then Some(byId[byId[id].parent.value]) else None
  }

  /** Extending the parent's statistics gives the message's own. */
  lemma ExtendIsStats(byId: map<Id, Message>, id: Id)
    requires Rooted(byId, id)
    ensures id in byId && (HasParent(byId, id) ==> Rooted(byId, byId[id].parent.value))
    ensures StatsOf(byId, id) ==
      Extend(
        if HasParent(byId, id) then StatsOf(byId, byId[id].parent.value) else EMPTY_STATS,
        byId[id],
        ParentMessage(byId, id))
  {
    PathStep(byId, id);
    var path := Path(byId, id);
    WalkInDomain(byId, id, path);
    var lineage := MessagesOn(byId, path);
    if HasParent(byId, id) {
      var parent := byId[id].parent.value;
      WalkInDomain(byId, parent, Path(byId, parent));
      PathStep(byId, parent);
      var above := MessagesOn(byId, Path(byId, parent));
      assert above[|above| - 1] == byId[parent];
      assert lineage == above + [byId[id]];
      DirectExtend(above, byId[id]);
    } else {
      assert lineage == [] + [byId[id]];
      DirectExtend([], byId[id]);
    }
  }

  /** The direct statistics of a lineage one message longer. */
  lemma DirectExtend(above: seq<Message>, m: Message)
    ensures DirectStats(above + [m]) ==
      Extend(DirectStats(above), m, if above == [] then None else Some(above[|above| - 1]))
    ensures DirectStats([]) == EMPTY_STATS
  {
    assert (above + [m])[..|above|] == above;
  }

  ghost predicate MemoRight(byId: map<Id, Message>, memo: map<Id, Stats>) {
    forall id :: id in memo ==> id in byId && Rooted(byId, id) && memo[id] == StatsOf(byId, id)
  }

  function NextUp(byId: map<Id, Message>, id: Id): Option<Id> {
    if id in byId && HasParent(byId, id) then byId[id].parent else None
  }

  /** What lies above the i-th entry of the stack: the next entry, or `current`. */
  function NextOnStack(stack: seq<Id>, current: Option<Id>, i: nat): Option<Id> {
    if i + 1 < |stack| then Some(stack[i + 1]) else current
  }

  /** The stack holds the climb from `id` to just below `current`, none of it in the memo: the
      lineage of `id` is the lineage of `current` and then the stack, top first. */
  ghost predicate Climbs(byId: map<Id, Message>, memo: map<Id, Stats>, id: Id, stack: seq<Id>, current: Option<Id>) {
    && (forall x :: x in stack ==> Rooted(byId, x) && x !in memo)
    && (forall i :: 0 <= i < |stack| ==> NextUp(byId, stack[i]) == NextOnStack(stack, current, i))
    && (current.Some? ==> Rooted(byId, current.value))
    && (if stack == [] then current == Some(id) else stack[0] == id)
  }

  /** How much of the lineage is still to climb. */
  ghost function ToClimb(byId: map<Id, Message>, current: Option<Id>): nat {
    if current.Some? && Rooted(byId, current.value) then |Path(byId, current.value)| else 0
  }

  lemma ClimbOne(byId: map<Id, Message>, memo: map<Id, Stats>, id: Id, stack: seq<Id>, current: Id)
    requires Climbs(byId, memo, id, stack, Some(current)) && current !in memo
    ensures Climbs(byId, memo, id, stack + [current], NextUp(byId, current))
    ensures ToClimb(byId, NextUp(byId, current)) < ToClimb(byId, Some(current))
    ensures current !in stack
  {
    PathStep(byId, current);
    var climbed := stack + [current];
    var next := NextUp(byId, current);
    forall i | 0 <= i < |climbed|
      ensures NextUp(byId, climbed[i]) == NextOnStack(climbed, next, i)
    {
      if i < |stack| {
        assert climbed[i] == stack[i];
        assert NextUp(byId, stack[i]) == NextOnStack(stack, Some(current), i);
      }
    }
    if current in stack {
      var i :| 0 <= i < |stack| && stack[i] == current;
      StackLongerThan(byId, memo, id, stack, current, i);
    }
  }

  /** Everything on the stack lies strictly below `current`. */
  lemma {:induction false} StackLongerThan(
      byId: map<Id, Message>, memo: map<Id, Stats>, id: Id, stack: seq<Id>, current: Id, i: nat)
    requires Climbs(byId, memo, id, stack, Some(current)) && i < |stack|
    ensures Rooted(byId, stack[i]) && |Path(byId, stack[i])| > |Path(byId, current)|
    decreases |stack| - i
  {
    assert stack[i] in stack;
    PathStep(byId, stack[i]);
    assert NextUp(byId, stack[i]).Some?;
    assert |Path(byId, stack[i])| == |Path(byId, byId[stack[i]].parent.value)| + 1;
    if i + 1 < |stack| {
      StackLongerThan(byId, memo, id, stack, current, i + 1);
    }
  }

  /** What the popping loop keeps. */
  ghost predicate Filling(
      byId: map<Id, Message>, memo: map<Id, Stats>, id: Id, stack: seq<Id>, current: Option<Id>, above: Stats)
  {
    && MemoRight(byId, memo)
    && Climbs(byId, memo, id, stack, current)
    && (forall i, j :: 0 <= i < j < |stack| ==> stack[i] != stack[j])
    && (current.Some? ==> current.value in memo)
    && above == if current.Some? then memo[current.value] else EMPTY_STATS
  }

  /** Popping an entry makes it what the climb ends below. */
  lemma PopOne(byId: map<Id, Message>, memo: map<Id, Stats>, id: Id, stack: seq<Id>, current: Option<Id>, stats: Stats)
    requires stack != [] && Climbs(byId, memo, id, stack, current)
    requires forall i, j :: 0 <= i < j < |stack| ==> stack[i] != stack[j]
    ensures var n := |stack| - 1; Climbs(byId, memo[stack[n] := stats], id, stack[..n], Some(stack[n]))
  {
    hide Rooted, NextUp;
    var n := |stack| - 1;
    var node, rest := stack[n], stack[..n];
    assert node in stack;
    assert forall x :: x in rest ==> x in stack && x != node;
    forall i | 0 <= i < |rest|
      ensures NextUp(byId, rest[i]) == NextOnStack(rest, Some(node), i)
    {
      assert rest[i] == stack[i];
    }
    assert rest != [] ==> rest[0] == stack[0];
  }

  /** The popped message's statistics extend those of its parent. */
  lemma PoppedStats(
      byId: map<Id, Message>, memo: map<Id, Stats>, id: Id, stack: seq<Id>, current: Option<Id>, above: Stats)
    requires stack != [] && Filling(byId, memo, id, stack, current, above)
    ensures var node := stack[|stack| - 1];
      && node in byId && node !in memo && Rooted(byId, node)
      && Extend(above, byId[node], ParentMessage(byId, node)) == StatsOf(byId, node)
  {
    hide Extend, StatsOf, Rooted;
    var n := |stack| - 1;
    var node := stack[n];
    assert node in stack;
    ExtendIsStats(byId, node);
    assert NextUp(byId, stack[n]) == NextOnStack(stack, current, n);
    assert current == NextUp(byId, node);
  }

  /** Popping a message and extending the statistics above it. */
  lemma FillOne(byId: map<Id, Message>, memo: map<Id, Stats>, id: Id, stack: seq<Id>, current: Option<Id>, above: Stats)
    requires stack != [] && Filling(byId, memo, id, stack, current, above)
    ensures var node := stack[|stack| - 1];
      && node in byId && node !in memo
      && var stats := Extend(above, byId[node], ParentMessage(byId, node));
        Filling(byId, memo[node := stats], id, stack[..|stack| - 1], Some(node), stats)
  {
    hide Extend, StatsOf, Rooted, Climbs, ParentMessage;
    PoppedStats(byId, memo, id, stack, current, above);
    var node := stack[|stack| - 1];
    PopOne(byId, memo, id, stack, current, Extend(above, byId[node], ParentMessage(byId, node)));
  }

  ghost function Ids(s: seq<Id>): set<Id> {
    set id | id in s
  }

  lemma IdsSnoc(s: seq<Id>, id: Id)
    ensures Ids(s + [id]) == Ids(s) + {id}
  {
  }

  lemma OnceDistinct(s: seq<Id>, ids: set<Id>, stack: seq<Id>, base: seq<Id>)
    requires Once(s, ids) && s == base + stack
    ensures forall i, j :: 0 <= i < j < |stack| ==> stack[i] != stack[j]
  {
    assert forall i :: 0 <= i < |stack| ==> stack[i] == s[|base| + i];
  }

  /** Statistics for one message.  `pushed` records every message put on the stack, `computed`
      every entry put in the memo. */
  method StatsForEvent(byId: map<Id, Message>, id: Id, memo0: map<Id, Stats>,
                       ghost pushed0: seq<Id>, ghost computed0: seq<Id>)
      returns (stats: Stats, memo: map<Id, Stats>, ghost pushed: seq<Id>, ghost computed: seq<Id>)
    requires Acyclic(byId) && id in byId && MemoRight(byId, memo0)
    requires Once(pushed0, memo0.Keys) && Once(computed0, memo0.Keys)
    ensures MemoRight(byId, memo) && memo0.Keys <= memo.Keys && id in memo && stats == memo[id]
    ensures Once(pushed, memo.Keys) && Once(computed, memo.Keys)
  {
    hide *;
    memo, pushed, computed := memo0, pushed0, computed0;
    var stack: seq<Id> := [];
    var current := Some(id);
    ClimbStart(byId, memo, id);
    assert pushed0 + stack == pushed0 && memo0.Keys + {} == memo0.Keys;
    while current.Some? && current.value !in memo
      invariant Climbs(byId, memo0, id, stack, current)
      invariant memo == memo0 && pushed == pushed0 + stack
      invariant Once(pushed, memo0.Keys + Ids(stack))
      decreases ToClimb(byId, current)
    {
      ClimbOne(byId, memo, id, stack, current.value);
      PushOne(pushed0, memo.Keys, stack, current.value);
      stack := stack + [current.value];
      pushed := pushed0 + stack;
      current := NextUp(byId, current.value);
    }
    OnceDistinct(pushed, memo.Keys + Ids(stack), stack, pushed0);
    ghost var all := memo.Keys + Ids(stack);
    stats := if current.Some? then memo[current.value] else EMPTY_STATS;
    FillStart(byId, memo, id, stack, current, stats);
    while stack != []
      invariant Filling(byId, memo, id, stack, current, stats)
      invariant memo0.Keys <= memo.Keys && memo.Keys + Ids(stack) == all
      invariant Once(computed, memo.Keys)
      decreases |stack|
    {
      var node := stack[|stack| - 1];
      FillOne(byId, memo, id, stack, current, stats);
      OnceMore(computed, memo.Keys, node);
      IdsSnoc(stack[..|stack| - 1], node);
      assert stack[..|stack| - 1] + [node] == stack;
      stats := Extend(stats, byId[node], ParentMessage(byId, node));
      assert memo[node := stats].Keys == memo.Keys + {node};
      memo := memo[node := stats];
      computed := computed + [node];
      stack := stack[..|stack| - 1];
      current := Some(node);
    }
    FillEnd(byId, memo, id, current, stats);
    assert memo.Keys + {} == memo.Keys;
  }

  lemma ClimbStart(byId: map<Id, Message>, memo: map<Id, Stats>, id: Id)
    requires Acyclic(byId) && id in byId
    ensures Climbs(byId, memo, id, [], Some(id)) && Ids([]) == {}
  {
  }

  lemma PushOne(pushed: seq<Id>, known: set<Id>, stack: seq<Id>, id: Id)
    requires Once(pushed + stack, known + Ids(stack)) && id !in known && id !in stack
    ensures Once(pushed + (stack + [id]), known + Ids(stack + [id]))
  {
    hide Once;
    IdsSnoc(stack, id);
    OnceMore(pushed + stack, known + Ids(stack), id);
    assert pushed + stack + [id] == pushed + (stack + [id]);
    assert known + Ids(stack) + {id} == known + Ids(stack + [id]);
  }

  lemma FillStart(
      byId: map<Id, Message>, memo: map<Id, Stats>, id: Id, stack: seq<Id>, current: Option<Id>, above: Stats)
    requires MemoRight(byId, memo) && Climbs(byId, memo, id, stack, current)
    requires forall i, j :: 0 <= i < j < |stack| ==> stack[i] != stack[j]
    requires current.Some? ==> current.value in memo
    requires above == if current.Some? then memo[current.value] else EMPTY_STATS
    ensures Filling(byId, memo, id, stack, current, above)
  {
  }

  lemma FillEnd(byId: map<Id, Message>, memo: map<Id, Stats>, id: Id, current: Option<Id>, above: Stats)
    requires Filling(byId, memo, id, [], current, above)
    ensures MemoRight(byId, memo) && id in memo && memo[id] == above && Ids([]) == {}
  {
  }

  /** Each of these ids occurs exactly once. */
  ghost predicate Once(s: seq<Id>, ids: set<Id>) {
    && (forall i, j :: 0 <= i < j < |s| ==> s[i] != s[j])
    && (forall id :: id in s <==> id in ids)
  }

  lemma OnceMore(s: seq<Id>, ids: set<Id>, id: Id)
    requires Once(s, ids) && id !in ids
    ensures Once(s + [id], ids + {id})
  {
    assert forall i :: 0 <= i < |s| ==> s[i] in s;
  }

  /** The pass over all messages: every memo entry is what a direct computation over the
      message's lineage gives, and each message is pushed and computed exactly once. */
  method HeadLineageStats(byId: map<Id, Message>, ids: seq<Id>)
      returns (memo: map<Id, Stats>, ghost pushed: seq<Id>, ghost computed: seq<Id>)
    requires Acyclic(byId) && forall id :: id in ids <==> id in byId
    ensures memo.Keys == byId.Keys
    ensures forall id :: id in byId ==> Rooted(byId, id) && memo[id] == StatsOf(byId, id)
    ensures forall id :: id in byId ==> Describes(memo[id], LineageOf(byId, id))
    ensures Once(pushed, byId.Keys) && Once(computed, byId.Keys) && |pushed| == |computed| == |byId|
  {
    hide StatsOf, Rooted, Describes, LineageOf;
    memo, pushed, computed := map[], [], [];
    for i := 0 to |ids|
      invariant MemoRight(byId, memo) && Once(pushed, memo.Keys) && Once(computed, memo.Keys)
      invariant forall j :: 0 <= j < i ==> ids[j] in memo
    {
      var stats;
      stats, memo, pushed, computed := StatsForEvent(byId, ids[i], memo, pushed, computed);
    }
    assert memo.Keys == byId.Keys;
    CountOnce(pushed, byId.Keys);
    CountOnce(computed, byId.Keys);
    assert |byId.Keys| == |byId|;
    forall id | id in byId ensures Rooted(byId, id) && Describes(memo[id], LineageOf(byId, id)) {
      assert id in memo;
      StatsDescribe(byId, id);
    }
  }

  /** The messages on the lineage of a message, root first. */
  ghost function LineageOf(byId: map<Id, Message>, id: Id): seq<Message>
    requires Rooted(byId, id)
  {
    WalkInDomain(byId, id, Path(byId, id));
    MessagesOn(byId, Path(byId, id))
  }

  lemma StatsDescribe(byId: map<Id, Message>, id: Id)
    requires Rooted(byId, id)
    ensures Describes(StatsOf(byId, id), LineageOf(byId, id))
  {
    hide Describes;
    DirectDescribes(LineageOf(byId, id));
  }

  lemma {:induction false} CountOnce(s: seq<Id>, all: set<Id>)
    requires forall i, j :: 0 <= i < j < |s| ==> s[i] != s[j]
    requires forall x :: x in s <==> x in all
    ensures |s| == |all|
  {
    if s != [] {
      var last, rest := s[|s| - 1], s[..|s| - 1];
      assert last in s;
      assert s == rest + [last];
      CountOnce(rest, all - {last});
    }
  }
}
