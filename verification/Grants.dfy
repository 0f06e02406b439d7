/**
 Shell grants in layered scopes: a fold over the log, and the command list it allows.
 */
module Grants {
  import opened Journal
  import opened Text

  /** The scopes, weakest first. */
  const SCOPES: seq<string> := ["global", "user", "workspace", "session", "transient"]

  const DEFAULTS: seq<string> :=
    ["echo", "pwd", "ls", "cat", "head", "tail", "wc", "rg", "find", "sed", "awk"]

  /** The value of an override: a string, a list some of whose entries may not be strings, or
      something else. */
  datatype Value = One(value: string) | Many(values: seq<Option<string>>) | Neither

  /** The records that can edit grants; a missing scope is `None`. */
  datatype Record =
    | PolicyOverride(key: string, scope: string, action: string, value: Value)
    | ShellScopeGrant(grantScope: Option<string>, action: string, grant: string)
    | Unrelated

  datatype Edits = Edits(added: set<string>, removed: set<string>)

  const NO_EDITS := Edits({}, {})

  type Policy = map<string, Edits>

  // ----- What a record does

  function EditedScope(r: Record): (scope: Option<string>)
    ensures scope.Some? ==> scope.value in SCOPES
  {
    match r
    case PolicyOverride(key, scope, _, _) =>
      if (key == "shell.allowed" || key == "shell.allowed_commands") && scope in SCOPES then Some(scope)
      else None
    case ShellScopeGrant(given, _, _) =>
      var scope := if given.None? || given.value == "head" then "session" else given.value;
      if scope in SCOPES then Some(scope) else None
    case Unrelated => None
  }

  function ListedValues(r: Record): seq<Option<string>> {
    match r
    case PolicyOverride(_, _, _, One(v)) => [Some(v)]
    case PolicyOverride(_, _, _, Many(vs)) => vs
    case ShellScopeGrant(_, _, grant) => [Some(grant)]
    case _ => []
  }

  predicate IsReset(r: Record) {
    !r.Unrelated? && r.action == "reset"
  }

  predicate IsAdd(r: Record) {
    !r.Unrelated? && r.action == "add"
  }

  predicate IsRemove(r: Record) {
    !r.Unrelated? && (r.action == "remove" || r.action == "unset")
  }

  function ChangeOne(e: Edits, value: Option<string>, add: bool): Edits {
    if value.None? || value.value == "" then e
    else if add then Edits(e.added + {value.value}, e.removed - {value.value})
    else Edits(e.added - {value.value}, e.removed + {value.value})
  }

  function ChangeAll(e: Edits, values: seq<Option<string>>, add: bool): Edits {
    if values == [] then e
    else ChangeOne(ChangeAll(e, values[..|values| - 1], add), values[|values| - 1], add)
  }

  function Revise(e: Edits, r: Record): Edits {
    if IsReset(r) then NO_EDITS
    else if IsAdd(r) then ChangeAll(e, ListedValues(r), true)
    else if IsRemove(r) then ChangeAll(e, ListedValues(r), false)
    else e
  }

  function ApplyRecord(policy: Policy, r: Record): Policy {
    var scope := EditedScope(r);
    if scope.Some? && scope.value in policy then policy[scope.value := Revise(policy[scope.value], r)]
    else policy
  }

  const CLEAR: Policy := map s | s in SCOPES :: NO_EDITS

  function Fold(records: seq<Record>): (policy: Policy)
    ensures policy.Keys == CLEAR.Keys
  {
    if records == [] then CLEAR else ApplyRecord(Fold(records[..|records| - 1]), records[|records| - 1])
  }

  // ----- The last word on a grant

  datatype Verdict = Added | Removed | Silent

  predicate Names(r: Record, g: string) {
    g != "" && Some(g) in ListedValues(r)
  }

  /** What the last record to concern `g` in a scope said, reading the log backwards. */
  function LastWord(records: seq<Record>, scope: string, g: string): Verdict {
    if records == [] then Silent
    else
      var r := records[|records| - 1];
      if EditedScope(r) == Some(scope) && IsReset(r) then Silent
      else if EditedScope(r) == Some(scope) && Names(r, g) && IsAdd(r) then Added
      else if EditedScope(r) == Some(scope) && Names(r, g) && IsRemove(r) then Removed
      else LastWord(records[..|records| - 1], scope, g)
  }

  lemma {:induction false} ChangeAllMeaning(e: Edits, values: seq<Option<string>>, add: bool, g: string)
    ensures var after := ChangeAll(e, values, add);
      && (g in after.added <==> if g != "" && Some(g) in values then add else g in e.added)
      && (g in after.removed <==> if g != "" && Some(g) in values then !add else g in e.removed)
  {
    if values != [] {
      var rest, last := values[..|values| - 1], values[|values| - 1];
      ChangeAllMeaning(e, rest, add, g);
      assert values == rest + [last];
    }
  }

  /** A scope's sets hold exactly the last word on each grant since the scope's last reset. */
  lemma {:induction false} FoldIsLastWord(records: seq<Record>, scope: string, g: string)
    requires scope in SCOPES
    ensures g in Fold(records)[scope].added <==> LastWord(records, scope, g) == Added
    ensures g in Fold(records)[scope].removed <==> LastWord(records, scope, g) == Removed
  {
    if records != [] {
      var rest, r := records[..|records| - 1], records[|records| - 1];
      FoldIsLastWord(rest, scope, g);
      ChangeAllMeaning(Fold(rest)[scope], ListedValues(r), true, g);
      ChangeAllMeaning(Fold(rest)[scope], ListedValues(r), false, g);
    }
  }

  lemma AddedAndRemovedDisjoint(records: seq<Record>, scope: string)
    requires scope in SCOPES
    ensures Fold(records)[scope].added !! Fold(records)[scope].removed
  {
    forall g | g in Fold(records)[scope].added ensures g !in Fold(records)[scope].removed {
      FoldIsLastWord(records, scope, g);
    }
  }

  // ----- The same by the records themselves

  const ADDING: set<string> := {"add"}
  const REMOVING: set<string> := {"remove", "unset"}

  /** The record is about the shell grants of a scope; a scope grant without a scope, or for the
      head, is about the session. */
  ghost predicate Concerns(r: Record, scope: string) {
    match r
    case PolicyOverride(key, s, _, _) => key in {"shell.allowed", "shell.allowed_commands"} && s == scope
    case ShellScopeGrant(s, _, _) => s == Some(scope) || (scope == "session" && (s == None || s == Some("head")))
    case Unrelated => false
  }

  /** The record lists a command: as its value, among its values, or as its grant. */
  ghost predicate ListsCommand(r: Record, g: string) {
    match r
    case PolicyOverride(_, _, _, value) =>
      value == One(g) || (value.Many? && exists i :: 0 <= i < |value.values| && value.values[i] == Some(g))
    case ShellScopeGrant(_, _, grant) => grant == g
    case Unrelated => false
  }

  ghost predicate Tells(r: Record, scope: string, g: string, actions: set<string>) {
    !r.Unrelated? && Concerns(r, scope) && g != "" && ListsCommand(r, g) && r.action in actions
  }

  ghost predicate Clears(r: Record, scope: string) {
    !r.Unrelated? && Concerns(r, scope) && r.action == "reset"
  }

  /** The i-th record says one thing about a command, and no later one unsays it. */
  ghost predicate Stands(records: seq<Record>, i: nat, scope: string, g: string,
                         said: set<string>, unsaid: set<string>)
  {
    && i < |records| && Tells(records[i], scope, g, said)
    && forall j :: i < j < |records| ==> !Clears(records[j], scope) && !Tells(records[j], scope, g, unsaid)
  }

  ghost predicate SomeStands(records: seq<Record>, scope: string, g: string, said: set<string>, unsaid: set<string>) {
    exists i: nat :: Stands(records, i, scope, g, said, unsaid)
  }

  ghost predicate AddedIn(records: seq<Record>, scope: string, g: string) {
    SomeStands(records, scope, g, ADDING, REMOVING)
  }

  ghost predicate RemovedIn(records: seq<Record>, scope: string, g: string) {
    SomeStands(records, scope, g, REMOVING, ADDING)
  }

  lemma RecordTells(r: Record, scope: string, g: string)
    requires scope in SCOPES
    ensures Tells(r, scope, g, ADDING) <==> EditedScope(r) == Some(scope) && Names(r, g) && IsAdd(r)
    ensures Tells(r, scope, g, REMOVING) <==> EditedScope(r) == Some(scope) && Names(r, g) && IsRemove(r)
    ensures Clears(r, scope) <==> EditedScope(r) == Some(scope) && IsReset(r)
    ensures !(Tells(r, scope, g, ADDING) && Tells(r, scope, g, REMOVING))
    ensures Clears(r, scope) ==> !Tells(r, scope, g, ADDING) && !Tells(r, scope, g, REMOVING)
  {
  }

  lemma StandsSnoc(records: seq<Record>, n: nat, scope: string, g: string, said: set<string>, unsaid: set<string>)
    requires n < |records|
    requires forall r :: !(Tells(r, scope, g, said) && Tells(r, scope, g, unsaid))
    ensures SomeStands(records[..n + 1], scope, g, said, unsaid) <==>
      || Tells(records[n], scope, g, said)
      || (&& !Clears(records[n], scope) && !Tells(records[n], scope, g, unsaid)
          && SomeStands(records[..n], scope, g, said, unsaid))
  {
    hide Tells, Clears;
    var before, after := records[..n], records[..n + 1];
    if i: nat :| Stands(after, i, scope, g, said, unsaid) {
      if i < n {
        assert after[n] == records[n];
        assert Stands(before, i, scope, g, said, unsaid) by {
          assert forall j :: 0 <= j < n ==> before[j] == after[j];
        }
      }
    }
    if Tells(records[n], scope, g, said) {
      assert Stands(after, n, scope, g, said, unsaid);
    }
    if i: nat :| Stands(before, i, scope, g, said, unsaid) {
      if !Clears(records[n], scope) && !Tells(records[n], scope, g, unsaid) {
        assert Stands(after, i, scope, g, said, unsaid) by {
          assert forall j :: 0 <= j < n ==> after[j] == before[j];
        }
      }
    }
  }

  lemma {:induction false} LastWordStands(records: seq<Record>, n: nat, scope: string, g: string)
    requires scope in SCOPES && n <= |records|
    ensures LastWord(records[..n], scope, g) == Added <==> AddedIn(records[..n], scope, g)
    ensures LastWord(records[..n], scope, g) == Removed <==> RemovedIn(records[..n], scope, g)
  {
    hide Tells, Clears, EditedScope, Names, IsAdd, IsRemove, IsReset;
    if n > 0 {
      LastWordStands(records, n - 1, scope, g);
      assert records[..n][..n - 1] == records[..n - 1];
      forall r ensures !(Tells(r, scope, g, ADDING) && Tells(r, scope, g, REMOVING)) {
        RecordTells(r, scope, g);
      }
      RecordTells(records[n - 1], scope, g);
      StandsSnoc(records, n - 1, scope, g, ADDING, REMOVING);
      StandsSnoc(records, n - 1, scope, g, REMOVING, ADDING);
    }
  }

  /** A scope adds a command exactly when some record adds it there and none after that one removes
      it there or resets the scope; likewise for removing. */
  lemma FoldStands(records: seq<Record>, scope: string, g: string)
    requires scope in SCOPES
    ensures g in Fold(records)[scope].added <==> AddedIn(records, scope, g)
    ensures g in Fold(records)[scope].removed <==> RemovedIn(records, scope, g)
  {
    hide Fold, LastWord, AddedIn, RemovedIn;
    FoldIsLastWord(records, scope, g);
    LastWordStands(records, |records|, scope, g);
    assert records[..|records|] == records;
  }

  // ----- The fold as it runs

  method ApplyValues(e: Edits, values: seq<Option<string>>, add: bool) returns (after: Edits)
    ensures after == ChangeAll(e, values, add)
  {
    var added, removed := e.added, e.removed;
    for i := 0 to |values|
      invariant Edits(added, removed) == ChangeAll(e, values[..i], add)
    {
      assert values[..i + 1][..i] == values[..i];
      if values[i].Some? && values[i].value != "" {
        if add {
          added, removed := added + {values[i].value}, removed - {values[i].value};
        } else {
          removed, added := removed + {values[i].value}, added - {values[i].value};
        }
      }
    }
    assert values[..|values|] == values;
    after := Edits(added, removed);
  }

  /** Folding the log leaves, in every scope, exactly the last word on each grant. */
  method FoldRecords(records: seq<Record>) returns (policy: Policy)
    ensures policy == Fold(records)
  {
    hide Revise;
    policy := CLEAR;
    for i := 0 to |records|
      invariant policy == Fold(records[..i])
    {
      var r := records[i];
      assert records[..i + 1][..i] == records[..i];
      var scope := EditedScope(r);
      if scope.Some? {
        var edits := ReviseScope(policy[scope.value], r);
        policy := policy[scope.value := edits];
      }
    }
    assert records[..|records|] == records;
  }

  method ReviseScope(e: Edits, r: Record) returns (after: Edits)
    ensures after == Revise(e, r)
  {
    if IsReset(r) {
      after := NO_EDITS;
    } else if IsAdd(r) {
      after := ApplyValues(e, ListedValues(r), true);
    } else if IsRemove(r) {
      after := ApplyValues(e, ListedValues(r), false);
    } else {
      after := e;
    }
  }

  // ----- The allowed commands

  /** A list without the strings of a set, in order. */
  function Without(s: seq<string>, drop: set<string>): (r: seq<string>)
    ensures forall x :: x in r <==> x in s && x !in drop
  {
    if s == [] then []
    else
      var last := s[|s| - 1];
      assert s == s[..|s| - 1] + [last];
      Without(s[..|s| - 1], drop) + if last in drop then [] else [last]
  }

  function Elements(s: seq<string>): set<string> {
    set x | x in s
  }

  /** One scope's edits on top of the scopes below it: removals first, then the additions not
      already there, in order. */
  function Layer(below: seq<string>, e: Edits): seq<string> {
    var kept := Without(below, e.removed);
    kept + Without(Sorted(e.added), Elements(kept))
  }

  lemma {:induction false} WithoutNoRepeats(s: seq<string>, drop: set<string>)
    requires NoRepeats(s)
    ensures NoRepeats(Without(s, drop))
  {
    if s != [] {
      WithoutNoRepeats(s[..|s| - 1], drop);
    }
  }

  lemma SortedNoRepeats(s: set<string>)
    ensures NoRepeats(Sorted(s))
  {
    hide Sorted, StringLess;
    var r := Sorted(s);
    forall i, j | 0 <= i < j < |r| ensures r[i] != r[j] {
      StringLessTotal(r[i], r[j]);
    }
  }

  lemma LayerMeaning(below: seq<string>, e: Edits)
    requires NoRepeats(below)
    ensures NoRepeats(Layer(below, e))
    ensures forall g :: g in Layer(below, e) <==> g in e.added || (g in below && g !in e.removed)
  {
    hide Sorted, Without;
    WithoutNoRepeats(below, e.removed);
    SortedNoRepeats(e.added);
    var kept := Without(below, e.removed);
    WithoutNoRepeats(Sorted(e.added), Elements(kept));
    var extra := Without(Sorted(e.added), Elements(kept));
    forall i, j | 0 <= i < |kept| && 0 <= j < |extra| ensures kept[i] != extra[j] {
      assert extra[j] in extra && kept[i] in kept;
    }
  }

  /** The list after the k weakest scopes. */
  function AllowedAfter(policy: Policy, k: nat): seq<string>
    requires k <= |SCOPES| && policy.Keys == CLEAR.Keys
  {
    if k == 0 then DEFAULTS else Layer(AllowedAfter(policy, k - 1), policy[SCOPES[k - 1]])
  }

  lemma {:induction false} AllowedNoRepeats(policy: Policy, k: nat)
    requires k <= |SCOPES| && policy.Keys == CLEAR.Keys
    ensures NoRepeats(AllowedAfter(policy, k))
  {
    hide Layer;
    if k > 0 {
      AllowedNoRepeats(policy, k - 1);
      LayerMeaning(AllowedAfter(policy, k - 1), policy[SCOPES[k - 1]]);
    }
  }

  /** The strongest of the k weakest scopes to mention a grant decides; otherwise the default. */
  function Granted(records: seq<Record>, k: nat, g: string): bool
    requires k <= |SCOPES|
  {
    if k == 0 then g in DEFAULTS
    else
      match LastWord(records, SCOPES[k - 1], g)
      case Added => true
      case Removed => false
      case Silent => Granted(records, k - 1, g)
  }

  /** The list allows a grant exactly when the strongest scope mentioning it adds it, or none
      mentions it and it is a default. */
  lemma {:induction false} GrantPrecedence(records: seq<Record>, k: nat, g: string)
    requires k <= |SCOPES|
    ensures g in AllowedAfter(Fold(records), k) <==> Granted(records, k, g)
  {
    hide Fold, LastWord, Layer;
    if k > 0 {
      var below := AllowedAfter(Fold(records), k - 1);
      GrantPrecedence(records, k - 1, g);
      AllowedNoRepeats(Fold(records), k - 1);
      LayerMeaning(below, Fold(records)[SCOPES[k - 1]]);
      FoldIsLastWord(records, SCOPES[k - 1], g);
    }
  }

  /** A command is granted exactly when a scope adds it or it is a default, and no scope above that one
      removes it. */
  lemma {:induction false} GrantedStands(records: seq<Record>, k: nat, g: string)
    requires k <= |SCOPES|
    ensures Granted(records, k, g) <==>
      || (g in DEFAULTS && forall j :: 0 <= j < k ==> !RemovedIn(records, SCOPES[j], g))
      || exists i :: (0 <= i < k && AddedIn(records, SCOPES[i], g) &&
                     forall j :: i < j < k ==> !RemovedIn(records, SCOPES[j], g))
  {
    hide LastWord, AddedIn, RemovedIn;
    if k > 0 {
      GrantedStands(records, k - 1, g);
      LastWordStands(records, |records|, SCOPES[k - 1], g);
      assert records[..|records|] == records;
    }
  }

  predicate Edited(e: Edits) {
    e.added != {} || e.removed != {}
  }

  // ----- The list as it is computed

  /** Where a string first occurs in a list, or the list's length. */
  function IndexOf(s: seq<string>, x: string): (i: nat)
    ensures i <= |s| && (i < |s| <==> x in s)
    ensures i < |s| ==> s[i] == x
    ensures forall j :: 0 <= j < i ==> s[j] != x
  {
    if s == [] || s[0] == x then 0 else 1 + IndexOf(s[1..], x)
  }

  /** A list with the first occurrence of a string taken out. */
  function RemoveFirst(s: seq<string>, x: string): seq<string>
    requires x in s
  {
    var i := IndexOf(s, x);
    s[..i] + s[i + 1..]
  }

  lemma {:induction false} WithoutAppend(a: seq<string>, b: seq<string>, drop: set<string>)
    ensures Without(a + b, drop) == Without(a, drop) + Without(b, drop)
  {
    if b == [] {
      assert a + b == a;
    } else {
      assert (a + b)[..|a + b| - 1] == a + b[..|b| - 1];
      WithoutAppend(a, b[..|b| - 1], drop);
    }
  }

  lemma {:induction false} WithoutTwice(s: seq<string>, first: set<string>, second: set<string>)
    ensures Without(Without(s, first), second) == Without(s, first + second)
  {
    if s != [] {
      var rest, last := s[..|s| - 1], s[|s| - 1];
      WithoutTwice(rest, first, second);
      WithoutAppend(Without(rest, first), if last in first then [] else [last], second);
      assert [last][..0] == [];
    }
  }

  lemma {:induction false} WithoutNone(s: seq<string>, drop: set<string>)
    requires forall x :: x in drop ==> x !in s
    ensures Without(s, drop) == s
  {
    if s != [] {
      assert s == s[..|s| - 1] + [s[|s| - 1]];
      assert s[|s| - 1] in s;
      WithoutNone(s[..|s| - 1], drop);
    }
  }

  /** Without repeats, taking out the first occurrence takes out the string. */
  lemma RemoveFirstIsWithout(s: seq<string>, x: string)
    requires NoRepeats(s) && x in s
    ensures RemoveFirst(s, x) == Without(s, {x})
  {
    hide IndexOf, Without;
    var i := IndexOf(s, x);
    assert s == s[..i] + ([x] + s[i + 1..]);
    WithoutAppend(s[..i], [x] + s[i + 1..], {x});
    WithoutAppend([x], s[i + 1..], {x});
    assert x !in s[..i] && x !in s[i + 1..];
    WithoutNone(s[..i], {x});
    WithoutNone(s[i + 1..], {x});
    WithoutSame(x);
  }

  lemma WithoutSame(x: string)
    ensures Without([x], {x}) == []
  {
    assert [x][..0] == [];
  }

  method RemoveAll(below: seq<string>, removed: set<string>) returns (allowed: seq<string>)
    requires NoRepeats(below)
    ensures allowed == Without(below, removed)
  {
    hide Without, Sorted, IndexOf, RemoveFirst;
    allowed := below;
    var order := Sorted(removed);
    WithoutNone(below, {});
    assert Elements(order[..0]) == {};
    for i := 0 to |order|
      invariant allowed == Without(below, Elements(order[..i]))
    {
      ghost var before := Elements(order[..i]);
      WithoutNoRepeats(below, before);
      WithoutTwice(below, before, {order[i]});
      assert Elements(order[..i + 1]) == before + {order[i]} by {
        assert order[..i + 1] == order[..i] + [order[i]];
      }
      if order[i] in allowed {
        RemoveFirstIsWithout(allowed, order[i]);
        allowed := RemoveFirst(allowed, order[i]);
      } else {
        WithoutNone(allowed, {order[i]});
      }
    }
    assert Elements(order[..|order|]) == removed by {
      assert order[..|order|] == order;
    }
  }

  method AppendMissing(kept: seq<string>, added: set<string>) returns (allowed: seq<string>)
    ensures allowed == kept + Without(Sorted(added), Elements(kept))
  {
    hide Sorted, StringLess, Without;
    allowed := kept;
    var order := Sorted(added);
    SortedNoRepeats(added);
    ghost var drop := Elements(kept);
    WithoutNone(order[..0], drop);
    assert kept + [] == kept;
    for i := 0 to |order|
      invariant allowed == kept + Without(order[..i], drop)
    {
      WithoutSnoc(order, i, drop);
      assert order[i] !in order[..i];
      assert order[i] in allowed <==> order[i] in drop;
      if order[i] !in allowed {
        allowed := allowed + [order[i]];
      } else {
        assert Without(order[..i], drop) + [] == Without(order[..i], drop);
      }
    }
    assert order[..|order|] == order;
  }

  lemma WithoutSnoc(s: seq<string>, i: nat, drop: set<string>)
    requires i < |s|
    ensures Without(s[..i + 1], drop) == Without(s[..i], drop) + if s[i] in drop then [] else [s[i]]
  {
    assert s[..i + 1][..i] == s[..i];
  }

  method ApplyLayer(below: seq<string>, e: Edits) returns (allowed: seq<string>)
    requires NoRepeats(below)
    ensures allowed == Layer(below, e)
  {
    allowed := RemoveAll(below, e.removed);
    allowed := AppendMissing(allowed, e.added);
  }

  /** The list in force, and the list recorded with each edited scope. */
  method AllowedLists(policy: Policy)
      returns (allowed: seq<string>, layers: map<string, seq<string>>)
    requires policy.Keys == CLEAR.Keys
    ensures allowed == AllowedAfter(policy, |SCOPES|)
    ensures LayersRight(policy, layers, |SCOPES|)
  {
    hide Fold, Layer, AllowedAfter, LayersRight, Edited;
    allowed, layers := DEFAULTS, map[];
    AllowedStart(policy);
    LayersStart(policy);
    for i := 0 to |SCOPES|
      invariant allowed == AllowedAfter(policy, i)
      invariant LayersRight(policy, layers, i)
    {
      AllowedNoRepeats(policy, i);
      var e := policy[SCOPES[i]];
      allowed := ApplyLayer(allowed, e);
      AllowedNext(policy, i);
      LayersNext(policy, layers, i);
      if Edited(e) {
        layers := layers[SCOPES[i] := allowed];
      }
    }
  }

  /** A scope's list is recorded exactly when it has edits, and is then the list after it. */
  ghost predicate LayerRight(policy: Policy, layers: map<string, seq<string>>, j: nat)
    requires j < |SCOPES| && policy.Keys == CLEAR.Keys
  {
    && (SCOPES[j] in layers <==> Edited(policy[SCOPES[j]]))
    && (SCOPES[j] in layers ==> layers[SCOPES[j]] == AllowedAfter(policy, j + 1))
  }

  /** The i weakest scopes have their lists recorded and the others do not. */
  ghost predicate LayersRight(policy: Policy, layers: map<string, seq<string>>, i: nat)
    requires i <= |SCOPES| && policy.Keys == CLEAR.Keys
  {
    && (forall j :: i <= j < |SCOPES| ==> SCOPES[j] !in layers)
    && (forall j :: 0 <= j < i ==> LayerRight(policy, layers, j))
  }

  lemma LayersStart(policy: Policy)
    requires policy.Keys == CLEAR.Keys
    ensures LayersRight(policy, map[], 0)
  {
  }

  lemma LayersNext(policy: Policy, layers: map<string, seq<string>>, i: nat)
    requires policy.Keys == CLEAR.Keys && i < |SCOPES| && LayersRight(policy, layers, i)
    ensures var list := AllowedAfter(policy, i + 1);
      LayersRight(policy, if Edited(policy[SCOPES[i]]) then layers[SCOPES[i] := list] else layers, i + 1)
  {
    hide AllowedAfter, Edited, LayerRight;
    var list := AllowedAfter(policy, i + 1);
    var next := if Edited(policy[SCOPES[i]]) then layers[SCOPES[i] := list] else layers;
    LayerHere(policy, layers, i, list);
    forall j | i + 1 <= j < |SCOPES| ensures SCOPES[j] !in next {
      LayerElsewhere(policy, layers, i, j, list);
    }
    forall j | 0 <= j < i + 1 ensures LayerRight(policy, next, j) {
      if j < i {
        LayerElsewhere(policy, layers, i, j, list);
      }
    }
  }

  lemma LayerHere(policy: Policy, layers: map<string, seq<string>>, i: nat, list: seq<string>)
    requires policy.Keys == CLEAR.Keys && i < |SCOPES|
    requires SCOPES[i] !in layers && list == AllowedAfter(policy, i + 1)
    ensures LayerRight(policy, if Edited(policy[SCOPES[i]]) then layers[SCOPES[i] := list] else layers, i)
  {
  }

  lemma LayerElsewhere(policy: Policy, layers: map<string, seq<string>>, i: nat, j: nat, list: seq<string>)
    requires policy.Keys == CLEAR.Keys && i < |SCOPES| && j < |SCOPES| && i != j
    ensures SCOPES[j] in layers[SCOPES[i] := list] <==> SCOPES[j] in layers
    ensures LayerRight(policy, layers, j) ==> LayerRight(policy, layers[SCOPES[i] := list], j)
  {
    hide AllowedAfter, Edited;
    DistinctScopes();
    assert SCOPES[i] != SCOPES[j];
  }

  /** The active grants: what each scope holds, the list in force if any scope has edits, and the
      list recorded with each edited scope. */
  method ActiveShellGrants(records: seq<Record>)
      returns (policy: Policy, allowed: Option<seq<string>>, layers: map<string, seq<string>>)
    ensures policy == Fold(records)
    ensures allowed.Some? <==> exists i :: 0 <= i < |SCOPES| && Edited(policy[SCOPES[i]])
    ensures allowed.Some? ==>
      NoRepeats(allowed.value) && forall g :: g in allowed.value <==> Granted(records, |SCOPES|, g)
    ensures allowed.Some? ==> LayersRight(policy, layers, |SCOPES|)
  {
    hide Fold, Granted, AllowedAfter, LayersRight, Edited;
    policy := FoldRecords(records);
    allowed, layers := None, map[];
    var any := false;
    for i := 0 to |SCOPES|
      invariant any <==> exists j :: 0 <= j < i && Edited(policy[SCOPES[j]])
    {
      any := any || Edited(policy[SCOPES[i]]);
    }
    if any {
      var list;
      list, layers := AllowedLists(policy);
      allowed := Some(list);
      AllowedNoRepeats(policy, |SCOPES|);
      forall g ensures g in list <==> Granted(records, |SCOPES|, g) {
        GrantPrecedence(records, |SCOPES|, g);
      }
    }
  }

  lemma AllowedStart(policy: Policy)
    requires policy.Keys == CLEAR.Keys
    ensures AllowedAfter(policy, 0) == DEFAULTS
  {
  }

  lemma AllowedNext(policy: Policy, i: nat)
    requires i < |SCOPES| && policy.Keys == CLEAR.Keys
    ensures AllowedAfter(policy, i + 1) == Layer(AllowedAfter(policy, i), policy[SCOPES[i]])
  {
  }

  lemma DistinctScopes()
    ensures NoRepeats(SCOPES)
  {
  }

  /** The strongest edited scope records the list in force. */
  lemma {:induction false} StrongestLayerDecides(policy: Policy, k: nat, n: nat)
    requires policy.Keys == CLEAR.Keys && k <= n <= |SCOPES|
    requires forall i :: k <= i < n ==> !Edited(policy[SCOPES[i]])
    ensures AllowedAfter(policy, n) == AllowedAfter(policy, k)
  {
    if k < n {
      hide AllowedAfter, Layer;
      StrongestLayerDecides(policy, k, n - 1);
      AllowedNext(policy, n - 1);
      UneditedLayer(AllowedAfter(policy, n - 1));
      assert policy[SCOPES[n - 1]] == NO_EDITS;
    }
  }

  lemma UneditedLayer(below: seq<string>)
    ensures Layer(below, NO_EDITS) == below
  {
    WithoutNone(below, {});
  }
}
