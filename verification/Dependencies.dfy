/**
  The workspace dependency tool: a Kahn ordering of the crates and the set of
  crates that depend on one. Crate names are numbered in their sorted order.
 */
module Dependencies {
  import opened Basics

  type Name = nat

  // ---- ordering -----------------------------------------------------------

  /** Normal dependencies of each member, all of them members. */
  type Edges = map<Name, set<Name>>

  ghost predicate Workspace(members: seq<Name>, edges: Edges) {
    Distinct(members) && edges.Keys == Elements(members) && forall m :: m in edges ==> edges[m] <= Elements(members)
  }

  /** Every non-empty set of members has one that depends on nothing in it. */
  ghost predicate Acyclic(members: seq<Name>, edges: Edges)
    requires Workspace(members, edges)
  {
    forall s: set<Name> :: s != {} && s <= Elements(members) ==> HasSource(edges, s)
  }

  ghost predicate HasSource(edges: Edges, s: set<Name>) {
    exists m :: m in s && m in edges && edges[m] * s == {}
  }

  /** Dependencies come before dependents. */
  ghost predicate DependenciesFirst(order: seq<Name>, edges: Edges) {
    forall i :: 0 <= i < |order| && order[i] in edges ==> edges[order[i]] <= Elements(order[..i])
  }

  /** Nobody who could have come at position `k` has a smaller name. */
  ghost predicate LeastAt(order: seq<Name>, edges: Edges, k: nat)
    requires k < |order|
  {
    forall m :: m in edges && m !in order[..k] && edges[m] <= Elements(order[..k]) ==> order[k] <= m
  }

  ghost predicate SmallestFirst(order: seq<Name>, edges: Edges) {
    forall k :: 0 <= k < |order| ==> LeastAt(order, edges, k)
  }

  ghost predicate Permutes(order: seq<Name>, members: seq<Name>) {
    Distinct(order) && Elements(order) == Elements(members)
  }

  method Smallest(s: set<Name>) returns (n: Name)
    requires s != {}
    ensures n in s && forall m :: m in s ==> n <= m
  {
    n :| n in s;
    var rest := s;
    while rest != {}
      invariant n in s && rest <= s && forall m :: m in s && m !in rest ==> n <= m
      decreases rest
    {
      var m :| m in rest;
      rest := rest - {m};
      if m < n { n := m; }
    }
  }

  /** What holds between two rounds: the order so far is sound, `remaining` is what each
      member still waits for, and `ready` is exactly who waits for nothing. */
  ghost predicate Ordering(members: seq<Name>, edges: Edges, order: seq<Name>, remaining: Edges, ready: set<Name>) {
    && Distinct(order) && Elements(order) <= Elements(members)
    && DependenciesFirst(order, edges)
    && remaining.Keys == edges.Keys
    && (forall m :: m in edges ==> remaining[m] == edges[m] - Elements(order))
    && (forall m :: m in ready <==> m in edges && m !in order && remaining[m] == {})
  }

  /** `n` struck from what the members in `told` wait for. */
  function Told(was: Edges, told: set<Name>, n: Name): Edges {
    map m | m in was :: if m in told then was[m] - {n} else was[m]
  }

  /** The told members that `n` was the last thing to wait for. */
  function Freed(was: Edges, told: set<Name>, n: Name, order: seq<Name>, ready: set<Name>): set<Name> {
    set m | m in told && m in was && n in was[m] && was[m] - {n} == {} && m !in order && m !in ready
  }

  lemma {:induction false} RoundDone(members: seq<Name>, edges: Edges, order: seq<Name>, was: Edges, ready: set<Name>, n: Name)
    requires Workspace(members, edges) && Ordering(members, edges, order, was, ready) && n in ready
    ensures Ordering(members, edges, order + [n], Told(was, edges.Keys, n), ready - {n} + Freed(was, edges.Keys, n, order + [n], ready - {n}))
  {
    var longer := order + [n];
    assert Elements(longer) == Elements(order) + {n};
    FirstPush(order, edges, n);
  }

  lemma {:induction false} FirstPush(order: seq<Name>, edges: Edges, n: Name)
    requires DependenciesFirst(order, edges) && n in edges && edges[n] <= Elements(order)
    ensures DependenciesFirst(order + [n], edges)
  {
    var longer := order + [n];
    forall i | 0 <= i < |longer| && longer[i] in edges ensures edges[longer[i]] <= Elements(longer[..i]) {
      assert longer[..i] == order[..i];
      if i == |order| { assert order[..i] == order; }
    }
  }

  lemma {:induction false} DistinctSize(a: seq<Name>, b: seq<Name>)
    requires Distinct(a) && Distinct(b) && Elements(a) <= Elements(b)
    ensures |a| <= |b|
  {
    SizeOf(a);
    SizeOf(b);
    SubsetSize(Elements(a), Elements(b));
  }

  lemma {:induction false} SizeOf(a: seq<Name>)
    requires Distinct(a)
    ensures |Elements(a)| == |a|
  {
    if a != [] {
      var n := |a| - 1;
      SizeOf(a[..n]);
      assert Elements(a) == Elements(a[..n]) + {a[n]};
    }
  }

  lemma {:induction false} ElementsStep(s: seq<Name>, k: nat)
    requires k < |s|
    ensures Elements(s[..k + 1]) == Elements(s[..k]) + {s[k]}
    ensures Distinct(s) ==> s[k] !in Elements(s[..k])
    ensures s[k] in Elements(s)
  {
    assert s[..k + 1] == s[..k] + [s[k]];
  }

  lemma {:induction false} ReadyIsNew(members: seq<Name>, edges: Edges, order: seq<Name>, was: Edges, ready: set<Name>, n: Name)
    requires Workspace(members, edges) && Ordering(members, edges, order, was, ready) && n in ready
    ensures |order| < |members| && was.Keys == edges.Keys
  {
    var longer := order + [n];
    assert Elements(longer) == Elements(order) + {n};
    DistinctSize(longer, members);
  }

  /** If nobody is ready and the edges are acyclic, everybody has been ordered. */
  lemma {:induction false} NobodyLeft(members: seq<Name>, edges: Edges, order: seq<Name>, remaining: Edges)
    requires Workspace(members, edges) && Ordering(members, edges, order, remaining, {}) && Acyclic(members, edges)
    ensures Elements(order) == Elements(members)
  {
    OrderedAreMembers(members, edges, order, remaining);
    hide Ordering, Workspace, Acyclic, Elements;
    var left := Elements(members) - Elements(order);
    if left != {} {
      var m := SourceOf(members, edges, left);
      WouldBeReady(members, edges, order, remaining, m);
    }
  }

  lemma {:induction false} SourceOf(members: seq<Name>, edges: Edges, s: set<Name>) returns (m: Name)
    requires Workspace(members, edges) && Acyclic(members, edges) && s != {} && s <= Elements(members)
    ensures m in s && m in edges && edges[m] * s == {} && edges[m] <= Elements(members)
  {
    assert HasSource(edges, s);
    m :| m in s && m in edges && edges[m] * s == {};
  }

  lemma {:induction false} OrderedAreMembers(members: seq<Name>, edges: Edges, order: seq<Name>, remaining: Edges)
    requires Ordering(members, edges, order, remaining, {})
    ensures Elements(order) <= Elements(members)
  {
  }

  lemma {:induction false} WouldBeReady(members: seq<Name>, edges: Edges, order: seq<Name>, remaining: Edges, m: Name)
    requires Ordering(members, edges, order, remaining, {}) && m in edges && m !in Elements(order)
    ensures !(edges[m] <= Elements(order))
  {
    hide Distinct, DependenciesFirst;
  }

  /** An order with dependencies first rules out cycles. */
  lemma {:induction false} OrderedIsAcyclic(members: seq<Name>, edges: Edges, order: seq<Name>)
    requires Workspace(members, edges) && Permutes(order, members) && DependenciesFirst(order, edges)
    ensures Acyclic(members, edges)
  {
    forall s: set<Name> | s != {} && s <= Elements(members) ensures HasSource(edges, s) {
      var x :| x in s;
      var k :| 0 <= k < |order| && order[k] == x;
      var i := EarliestIn(order, s, k);
      assert edges[order[i]] * s == {};
    }
  }

  lemma {:induction false} EarliestIn(order: seq<Name>, s: set<Name>, k: nat) returns (i: nat)
    requires k < |order| && order[k] in s
    ensures i <= k && order[i] in s && Elements(order[..i]) * s == {}
  {
    i := 0;
    while order[i] !in s
      invariant i <= k && Elements(order[..i]) * s == {}
      decreases k - i
    {
      ElementsStep(order, i);
      i := i + 1;
    }
  }

  /** The members that are not in `done`, as they are listed. */
  function Missing(members: seq<Name>, done: seq<Name>): seq<Name> {
    if members == [] then []
    else
      var n := |members| - 1;
      Missing(members[..n], done) + if members[n] in done then [] else [members[n]]
  }

  /** The first `n` are ordered, each the smallest that could come, until nobody could; the
      rest is who is left, as listed. */
  ghost predicate OrderedUpTo(members: seq<Name>, edges: Edges, order: seq<Name>, n: nat) {
    && n <= |order| && DependenciesFirst(order[..n], edges) && SmallestFirst(order[..n], edges)
    && (forall m :: m in edges && m !in order[..n] ==> !(edges[m] <= Elements(order[..n])))
    && order[n..] == Missing(members, order[..n])
  }

  lemma {:induction false} SoundPart(members: seq<Name>, edges: Edges, sound: seq<Name>, remaining: Edges)
    requires Workspace(members, edges) && Ordering(members, edges, sound, remaining, {}) && SmallestFirst(sound, edges)
    ensures OrderedUpTo(members, edges, sound + Missing(members, sound), |sound|)
  {
    var order := sound + Missing(members, sound);
    assert order[..|sound|] == sound && order[|sound|..] == Missing(members, sound);
    forall m | m in edges && m !in sound ensures !(edges[m] <= Elements(sound)) {
      assert m !in Elements(sound);
      WouldBeReady(members, edges, sound, remaining, m);
    }
  }

  method TopoOrder(members: seq<Name>, edges: Edges) returns (order: seq<Name>)
    requires Workspace(members, edges)
    ensures Permutes(order, members) && exists n :: OrderedUpTo(members, edges, order, n)
    ensures DependenciesFirst(order, edges) <==> Acyclic(members, edges)
    ensures Acyclic(members, edges) ==> SmallestFirst(order, edges)
  {
    hide Ordering, DependenciesFirst, Acyclic, LeastAt;
    order := [];
    var ready := set m | m in edges && edges[m] == {};
    var remaining := edges;
    Begins(members, edges);
    while ready != {}
      invariant Ordering(members, edges, order, remaining, ready) && SmallestFirst(order, edges)
      decreases |members| - |order|
    {
      var n := Smallest(ready);
      ghost var was := remaining;
      ReadyIsNew(members, edges, order, was, ready, n);
      RoundDone(members, edges, order, was, ready, n);
      SmallestPush(members, edges, order, was, ready, n);
      order := order + [n];
      ready := ready - {n};
      remaining, ready := Tell(members, edges, remaining, n, order, ready);
    }
    ghost var sound := order;
    order := AppendRest(members, order, edges, remaining);
    SoundPart(members, edges, sound, remaining);
    if Acyclic(members, edges) { NobodyLeft(members, edges, sound, remaining); OrderingFirst(members, edges, sound, remaining); }
    else if DependenciesFirst(order, edges) { OrderedIsAcyclic(members, edges, order); }
  }

  lemma {:induction false} SmallestPush(members: seq<Name>, edges: Edges, order: seq<Name>, was: Edges, ready: set<Name>, n: Name)
    requires Ordering(members, edges, order, was, ready) && SmallestFirst(order, edges) && forall m :: m in ready ==> n <= m
    ensures SmallestFirst(order + [n], edges)
  {
    var longer := order + [n];
    forall k | 0 <= k < |longer| ensures LeastAt(longer, edges, k) {
      assert longer[..k] == order[..k];
      if k < |order| { assert LeastAt(order, edges, k); } else { assert order[..k] == order; }
    }
  }

  /** The order is the least one, by name, of all that put dependencies first: at the
      first place where another such order differs, it has the smaller name. */
  lemma {:induction false} LeastOrder(members: seq<Name>, edges: Edges, order: seq<Name>, other: seq<Name>, i: nat)
    requires Workspace(members, edges) && SmallestFirst(order, edges) && Permutes(other, members) && DependenciesFirst(other, edges)
    requires i < |order| && i < |other| && order[..i] == other[..i]
    ensures order[i] <= other[i]
  {
    hide DependenciesFirst, Permutes;
    var m := other[i];
    NextCouldCome(members, edges, other, i);
    assert LeastAt(order, edges, i);
  }

  lemma {:induction false} NextCouldCome(members: seq<Name>, edges: Edges, other: seq<Name>, i: nat)
    requires Workspace(members, edges) && Permutes(other, members) && DependenciesFirst(other, edges) && i < |other|
    ensures other[i] in edges && other[i] !in other[..i] && edges[other[i]] <= Elements(other[..i])
  {
    assert other[i] in Elements(other);
  }

  /** So the members may be listed in any order: the result is the same. */
  lemma {:induction false} OrderIsUnique(members: seq<Name>, edges: Edges, a: seq<Name>, b: seq<Name>)
    requires Workspace(members, edges) && Permutes(a, members) && Permutes(b, members)
    requires DependenciesFirst(a, edges) && DependenciesFirst(b, edges) && SmallestFirst(a, edges) && SmallestFirst(b, edges)
    ensures a == b
  {
    SizeOf(a);
    SizeOf(b);
    var i := 0;
    while i < |a|
      invariant 0 <= i <= |a| == |b| && a[..i] == b[..i]
    {
      LeastOrder(members, edges, a, b, i);
      LeastOrder(members, edges, b, a, i);
      assert a[..i + 1] == a[..i] + [a[i]] && b[..i + 1] == b[..i] + [b[i]];
      i := i + 1;
    }
    assert a[..|a|] == a && b[..|b|] == b;
  }

  lemma {:induction false} Begins(members: seq<Name>, edges: Edges)
    requires Workspace(members, edges)
    ensures Ordering(members, edges, [], edges, set m | m in edges && edges[m] == {})
  {
    assert Elements<Name>([]) == {};
  }

  lemma {:induction false} OrderingFirst(members: seq<Name>, edges: Edges, order: seq<Name>, remaining: Edges)
    requires Ordering(members, edges, order, remaining, {})
    ensures DependenciesFirst(order, edges)
  {
  }

  /** Strike `n` from what every member waits for, and add who is freed by it. */
  method Tell(members: seq<Name>, edges: Edges, was: Edges, n: Name, order: seq<Name>, ready: set<Name>) returns (remaining: Edges, next: set<Name>)
    requires Workspace(members, edges) && was.Keys == edges.Keys
    ensures remaining == Told(was, edges.Keys, n) && next == ready + Freed(was, edges.Keys, n, order, ready)
  {
    remaining := was;
    var newly := {};
    assert Elements(members[..0]) == {};
    assert Told(was, {}, n) == was && Freed(was, {}, n, order, ready) == {};
    hide Told, Freed, Elements, Distinct;
    for k := 0 to |members|
      invariant remaining == Told(was, Elements(members[..k]), n)
      invariant newly == Freed(was, Elements(members[..k]), n, order, ready)
    {
      var m := members[k];
      ElementsStep(members, k);
      TellOne(was, Elements(members[..k]), n, order, ready, m);
      if n in remaining[m] {
        remaining := remaining[m := remaining[m] - {n}];
        if remaining[m] == {} && m !in order && m !in ready { newly := newly + {m}; }
      }
    }
    assert members[..|members|] == members;
    next := ready + newly;
  }

  lemma {:induction false} TellOne(was: Edges, told: set<Name>, n: Name, order: seq<Name>, ready: set<Name>, m: Name)
    requires m in was && m !in told
    ensures Told(was, told, n)[m] == was[m]
    ensures Told(was, told + {m}, n) == if n in was[m] then Told(was, told, n)[m := was[m] - {n}] else Told(was, told, n)
    ensures Freed(was, told + {m}, n, order, ready) == Freed(was, told, n, order, ready) + if n in was[m] && was[m] - {n} == {} && m !in order && m !in ready then {m} else {}
  {
    if n !in was[m] { assert was[m] - {n} == was[m]; }
  }

  /** The order so far holds the sound part and the first `k` members, nobody twice. */
  ghost predicate Appended(members: seq<Name>, sound: seq<Name>, order: seq<Name>, k: nat)
    requires k <= |members|
  {
    && Distinct(order) && Elements(members[..k]) <= Elements(order) <= Elements(members)
    && (Elements(sound) == Elements(members) ==> order == sound)
    && order == sound + Missing(members[..k], sound)
  }

  lemma {:induction false} MissingAreMembers(members: seq<Name>, done: seq<Name>)
    ensures Elements(Missing(members, done)) <= Elements(members)
  {
    if members != [] {
      var n := |members| - 1;
      MissingAreMembers(members[..n], done);
      forall m | m in Missing(members, done) ensures m in members {
        if m in Missing(members[..n], done) { assert m in Elements(members[..n]); }
      }
    }
  }

  lemma {:induction false} AppendOne(members: seq<Name>, sound: seq<Name>, order: seq<Name>, k: nat)
    requires Distinct(members) && k < |members| && Appended(members, sound, order, k)
    ensures Appended(members, sound, if members[k] in order then order else order + [members[k]], k + 1)
  {
    var m := members[k];
    ElementsStep(members, k);
    MissingAreMembers(members[..k], sound);
    assert members[..k + 1][..k] == members[..k] && m !in Missing(members[..k], sound) by { assert m !in Elements(members[..k]); }
    assert m in order <==> m in sound;
    assert m in order <==> m in Elements(order);
    if m !in order { assert Elements(order + [m]) == Elements(order) + {m}; }
  }

  method AppendRest(members: seq<Name>, sound: seq<Name>, ghost edges: Edges, ghost remaining: Edges) returns (order: seq<Name>)
    requires Workspace(members, edges) && Ordering(members, edges, sound, remaining, {})
    ensures Permutes(order, members) && (Elements(sound) == Elements(members) ==> order == sound)
    ensures order == sound + Missing(members, sound)
  {
    order := sound;
    assert members[..0] == [] && Elements(members[..0]) == {} && sound + [] == sound && Appended(members, sound, order, 0);
    hide Appended, Workspace, Ordering, Distinct, Elements;
    for k := 0 to |members|
      invariant Appended(members, sound, order, k)
    {
      AppendOne(members, sound, order, k);
      if members[k] !in order { order := order + [members[k]]; }
    }
    AllAppended(members, sound, order);
  }

  lemma {:induction false} AllAppended(members: seq<Name>, sound: seq<Name>, order: seq<Name>)
    requires Appended(members, sound, order, |members|)
    ensures Permutes(order, members) && (Elements(sound) == Elements(members) ==> order == sound)
    ensures order == sound + Missing(members, sound)
  {
    assert members[..|members|] == members;
  }

  // ---- reverse dependents -------------------------------------------------

  datatype Kind = NormalDep | DevDep | BuildDep

  type Deps = map<Name, seq<(Name, Kind)>>

  /** `m` depends on `d` by an edge of kind `k` that is being followed. */
  predicate Follows(deps: Deps, includeDev: bool, m: Name, k: Kind, d: Name) {
    m in deps && (d, k) in deps[m] && (includeDev || k == NormalDep)
  }

  ghost predicate DependsOn(deps: Deps, includeDev: bool, m: Name, into: set<Name>) {
    exists k, d :: d in into && Follows(deps, includeDev, m, k, d)
  }

  /** Crates that reach the target in at most `n + 1` edges. */
  ghost function Within(deps: Deps, includeDev: bool, target: Name, n: nat): set<Name> {
    var into := {target} + if n == 0 then {} else Within(deps, includeDev, target, n - 1);
    set m | m in deps && DependsOn(deps, includeDev, m, into)
  }

  ghost predicate Reaches(deps: Deps, includeDev: bool, target: Name, m: Name) {
    exists n: nat :: m in Within(deps, includeDev, target, n)
  }

  /** What a crate found so far is labelled, and why it belongs. */
  ghost predicate Sound(deps: Deps, includeDev: bool, target: Name, seen: map<Name, Kind>) {
    forall m :: m in seen ==>
      && Reaches(deps, includeDev, target, m)
      && exists d :: d in {target} + seen.Keys && Follows(deps, includeDev, m, seen[m], d)
  }

  /** Everything that follows an edge into `d` has been found, and as normal if the edge is. */
  ghost predicate Searched(deps: Deps, includeDev: bool, seen: map<Name, Kind>, d: Name) {
    forall m, k :: Follows(deps, includeDev, m, k, d) ==> m in seen && (k == NormalDep ==> seen[m] == NormalDep)
  }

  /** The edges followed into `d`. */
  function Incoming(deps: Deps, includeDev: bool, d: Name): set<(Name, Kind)> {
    set m, i | m in deps && 0 <= i < |deps[m]| && deps[m][i].0 == d && (includeDev || deps[m][i].1 == NormalDep) :: (m, deps[m][i].1)
  }

  lemma {:induction false} IncomingFollows(deps: Deps, includeDev: bool, d: Name, m: Name, k: Kind)
    ensures (m, k) in Incoming(deps, includeDev, d) <==> Follows(deps, includeDev, m, k, d)
  {
    if Follows(deps, includeDev, m, k, d) {
      var i :| 0 <= i < |deps[m]| && deps[m][i] == (d, k);
    }
  }

  lemma {:induction false} ReachesFrom(deps: Deps, includeDev: bool, target: Name, m: Name, k: Kind, d: Name)
    requires Follows(deps, includeDev, m, k, d) && (d == target || Reaches(deps, includeDev, target, d))
    ensures Reaches(deps, includeDev, target, m)
  {
    var n: nat := 0;
    if d != target {
      n :| d in Within(deps, includeDev, target, n);
      n := n + 1;
    }
    assert DependsOn(deps, includeDev, m, {target} + if n == 0 then {} else Within(deps, includeDev, target, n - 1));
    assert m in Within(deps, includeDev, target, n);
  }

  /** If everything found has been searched, everything that reaches the target is found. */
  lemma {:induction false} AllFound(deps: Deps, includeDev: bool, target: Name, seen: map<Name, Kind>, n: nat)
    requires forall d :: d in {target} + seen.Keys ==> Searched(deps, includeDev, seen, d)
    ensures Within(deps, includeDev, target, n) <= seen.Keys
  {
    if n > 0 { AllFound(deps, includeDev, target, seen, n - 1); }
    forall m | m in Within(deps, includeDev, target, n) ensures m in seen {
      var into := {target} + if n == 0 then {} else Within(deps, includeDev, target, n - 1);
      var k, d :| d in into && Follows(deps, includeDev, m, k, d);
      assert Searched(deps, includeDev, seen, d);
    }
  }

  /** The label is normal if and only if some normal edge goes from `m` into `closure`; any
      label is the kind of some edge from `m` into it. */
  ghost predicate Labelled(deps: Deps, includeDev: bool, closure: set<Name>, m: Name, kind: Kind) {
    && (kind == NormalDep <==> exists d :: d in closure && Follows(deps, includeDev, m, NormalDep, d))
    && exists d :: d in closure && Follows(deps, includeDev, m, kind, d)
  }

  /** Exactly the crates that reach the target are returned, labelled by how they reach it. */
  method ReverseDependents(target: Name, deps: Deps, includeDev: bool) returns (seen: map<Name, Kind>)
    ensures forall m :: m in seen <==> Reaches(deps, includeDev, target, m)
    ensures forall m :: m in seen ==> Labelled(deps, includeDev, {target} + seen.Keys, m, seen[m])
  {
    hide Sound, Searched, Reaches, Labelled, Pending, Extends, PushedNew, Unfound;
    seen := map[];
    var stack := [target];
    NothingFound(deps, includeDev, target);
    while stack != []
      invariant Sound(deps, includeDev, target, seen)
      invariant Pending(target, deps, includeDev, seen, stack)
      decreases Unfound(deps, seen), |stack|
    {
      var cur := stack[|stack| - 1];
      ghost var was, before, rest := seen, stack, stack[..|stack| - 1];
      assert before == rest + [cur];
      CurrentFound(target, deps, includeDev, seen, stack);
      seen, stack := Search(target, deps, includeDev, seen, stack[..|stack| - 1], cur);
      StillPending(target, deps, includeDev, was, before, seen, rest, stack, cur);
      Progress(deps, was, before, seen, rest, stack);
    }
    Concluded(target, deps, includeDev, seen);
  }

  /** How many crates have not been found. */
  ghost function Unfound(deps: Deps, seen: map<Name, Kind>): nat {
    |deps.Keys - seen.Keys|
  }

  /** Whoever has been found is on the stack or has been searched. */
  ghost predicate Pending(target: Name, deps: Deps, includeDev: bool, seen: map<Name, Kind>, stack: seq<Name>) {
    && (forall i :: 0 <= i < |stack| ==> stack[i] in {target} + seen.Keys)
    && (forall d :: d in {target} + seen.Keys ==> d in stack || Searched(deps, includeDev, seen, d))
  }

  lemma {:induction false} NothingFound(deps: Deps, includeDev: bool, target: Name)
    ensures Sound(deps, includeDev, target, map[]) && Pending(target, deps, includeDev, map[], [target])
  {
  }

  lemma {:induction false} CurrentFound(target: Name, deps: Deps, includeDev: bool, seen: map<Name, Kind>, stack: seq<Name>)
    requires Pending(target, deps, includeDev, seen, stack) && stack != []
    ensures stack[|stack| - 1] in {target} + seen.Keys
  {
    hide Searched;
  }

  lemma {:induction false} StillPending(
      target: Name, deps: Deps, includeDev: bool, was: map<Name, Kind>, before: seq<Name>,
      seen: map<Name, Kind>, rest: seq<Name>, stack: seq<Name>, cur: Name)
    requires Pending(target, deps, includeDev, was, before) && before == rest + [cur]
    requires Extends(deps, was, seen) && PushedNew(was, rest, seen, stack) && Searched(deps, includeDev, seen, cur)
    ensures Pending(target, deps, includeDev, seen, stack)
  {
    SearchedGrows(deps, includeDev, was, seen);
    hide Searched, Extends;
    forall i | 0 <= i < |stack| ensures stack[i] in {target} + seen.Keys {
      if i < |rest| { assert stack[i] == rest[i] == before[i]; }
    }
    forall d | d in {target} + seen.Keys ensures d in stack || Searched(deps, includeDev, seen, d) {
      if d in before && d != cur {
        var i :| 0 <= i < |before| && before[i] == d;
        assert stack[i] == d;
      }
    }
  }

  lemma {:induction false} Progress(
      deps: Deps, was: map<Name, Kind>, before: seq<Name>, seen: map<Name, Kind>, rest: seq<Name>, stack: seq<Name>)
    requires Extends(deps, was, seen) && PushedNew(was, rest, seen, stack) && |rest| < |before|
    ensures Unfound(deps, seen) < Unfound(deps, was) || (Unfound(deps, seen) == Unfound(deps, was) && |stack| < |before|)
  {
    FewerLeft(deps, was, seen);
    hide Extends, Unfound;
    assert |stack| > |rest| ==> stack[|rest|] in seen.Keys && stack[|rest|] !in was.Keys;
  }

  lemma {:induction false} SearchedGrows(deps: Deps, includeDev: bool, was: map<Name, Kind>, seen: map<Name, Kind>)
    requires Extends(deps, was, seen)
    ensures was.Keys <= seen.Keys && forall d :: Searched(deps, includeDev, was, d) ==> Searched(deps, includeDev, seen, d)
  {
    hide Follows;
  }

  lemma {:induction false} Concluded(target: Name, deps: Deps, includeDev: bool, seen: map<Name, Kind>)
    requires Sound(deps, includeDev, target, seen) && Pending(target, deps, includeDev, seen, [])
    ensures forall m :: m in seen <==> Reaches(deps, includeDev, target, m)
    ensures forall m :: m in seen ==> Labelled(deps, includeDev, {target} + seen.Keys, m, seen[m])
  {
    hide Follows, Within;
    forall m ensures m in seen <==> Reaches(deps, includeDev, target, m) {
      if n: nat :| m in Within(deps, includeDev, target, n) { AllFound(deps, includeDev, target, seen, n); }
    }
    forall m | m in seen ensures Labelled(deps, includeDev, {target} + seen.Keys, m, seen[m]) {
      if d :| d in {target} + seen.Keys && Follows(deps, includeDev, m, NormalDep, d) { assert Searched(deps, includeDev, seen, d); }
    }
  }

  /** `seen` extends `was` with members only, and forgets no normal label. */
  ghost predicate Extends(deps: Deps, was: map<Name, Kind>, seen: map<Name, Kind>) {
    && was.Keys <= seen.Keys <= was.Keys + deps.Keys
    && forall m :: m in was && was[m] == NormalDep ==> seen[m] == NormalDep
  }

  /** Exactly the crates found since `was` have been pushed on `stack`. */
  ghost predicate PushedNew(was: map<Name, Kind>, stack: seq<Name>, seen: map<Name, Kind>, pushed: seq<Name>) {
    && stack <= pushed
    && (forall i :: |stack| <= i < |pushed| ==> pushed[i] in seen && pushed[i] !in was)
    && (forall m :: m in seen && m !in was ==> m in pushed)
  }

  /** The edge from `m` of kind `k` is accounted for in `seen`. */
  predicate Noted(seen: map<Name, Kind>, m: Name, k: Kind) {
    m in seen && (k == NormalDep ==> seen[m] == NormalDep)
  }

  /** Search one crate's incoming edges, in any order. */
  method Search(target: Name, deps: Deps, includeDev: bool, was: map<Name, Kind>, stack: seq<Name>, cur: Name)
    returns (seen: map<Name, Kind>, pushed: seq<Name>)
    requires Sound(deps, includeDev, target, was) && cur in {target} + was.Keys
    ensures Sound(deps, includeDev, target, seen) && Extends(deps, was, seen) && PushedNew(was, stack, seen, pushed)
    ensures Searched(deps, includeDev, seen, cur)
  {
    hide Sound, Follows, Incoming, Searched, PushedNew, Extends, Noted;
    seen, pushed := was, stack;
    var todo := Incoming(deps, includeDev, cur);
    NothingPushed(deps, was, stack);
    while todo != {}
      invariant Sound(deps, includeDev, target, seen) && Extends(deps, was, seen) && PushedNew(was, stack, seen, pushed)
      invariant todo <= Incoming(deps, includeDev, cur)
      invariant forall e :: e in Incoming(deps, includeDev, cur) && e !in todo ==> Noted(seen, e.0, e.1)
      decreases |todo|
    {
      var e :| e in todo;
      todo := todo - {e};
      Edge(deps, includeDev, target, was, seen, cur, e);
      ghost var before, stacked := seen, pushed;
      if e.0 !in seen {
        FoundNew(deps, includeDev, target, seen, e.0, e.1, cur);
        seen := seen[e.0 := e.1];
        pushed := pushed + [e.0];
      } else if e.1 == NormalDep {
        Promoted(deps, includeDev, target, seen, e.0, cur);
        seen := seen[e.0 := NormalDep];
      }
      Advance(deps, was, stack, before, stacked, seen, pushed, e);
    }
    NowSearched(deps, includeDev, seen, cur);
  }

  lemma {:induction false} NothingPushed(deps: Deps, was: map<Name, Kind>, stack: seq<Name>)
    ensures Extends(deps, was, was) && PushedNew(was, stack, was, stack)
  {
  }

  lemma {:induction false} Edge(deps: Deps, includeDev: bool, target: Name, was: map<Name, Kind>, seen: map<Name, Kind>, cur: Name, e: (Name, Kind))
    requires e in Incoming(deps, includeDev, cur) && Extends(deps, was, seen) && cur in {target} + was.Keys
    ensures Follows(deps, includeDev, e.0, e.1, cur) && e.0 in deps && cur in {target} + seen.Keys
  {
    hide Incoming;
    IncomingFollows(deps, includeDev, cur, e.0, e.1);
  }

  /** One edge noted keeps what has been pushed and what has been noted. */
  lemma {:induction false} Advance(
      deps: Deps, was: map<Name, Kind>, stack: seq<Name>, before: map<Name, Kind>, stacked: seq<Name>,
      seen: map<Name, Kind>, pushed: seq<Name>, e: (Name, Kind))
    requires Extends(deps, was, before) && PushedNew(was, stack, before, stacked) && e.0 in deps
    requires if e.0 !in before then seen == before[e.0 := e.1] && pushed == stacked + [e.0]
             else pushed == stacked && seen == if e.1 == NormalDep then before[e.0 := NormalDep] else before
    ensures Extends(deps, was, seen) && PushedNew(was, stack, seen, pushed) && Noted(seen, e.0, e.1)
    ensures forall m, k :: Noted(before, m, k) ==> Noted(seen, m, k)
  {
    assert seen.Keys == before.Keys + {e.0};
    assert stacked <= pushed;
    forall m | m in seen && m !in was ensures m in pushed {
      if m in before {
        var i :| 0 <= i < |stacked| && stacked[i] == m;
        assert pushed[i] == m;
      } else {
        assert pushed[|stacked|] == m;
      }
    }
  }

  lemma {:induction false} NowSearched(deps: Deps, includeDev: bool, seen: map<Name, Kind>, cur: Name)
    requires forall e :: e in Incoming(deps, includeDev, cur) ==> Noted(seen, e.0, e.1)
    ensures Searched(deps, includeDev, seen, cur)
  {
    hide Incoming, Follows;
    forall m, k | Follows(deps, includeDev, m, k, cur) ensures m in seen && (k == NormalDep ==> seen[m] == NormalDep) {
      IncomingFollows(deps, includeDev, cur, m, k);
      assert Noted(seen, (m, k).0, (m, k).1);
    }
  }

  lemma {:induction false} FoundNew(deps: Deps, includeDev: bool, target: Name, seen: map<Name, Kind>, m: Name, k: Kind, cur: Name)
    requires Sound(deps, includeDev, target, seen) && m !in seen && Follows(deps, includeDev, m, k, cur) && cur in {target} + seen.Keys
    ensures Sound(deps, includeDev, target, seen[m := k])
  {
    ReachesFrom(deps, includeDev, target, m, k, cur);
    hide Reaches, Follows;
  }

  lemma {:induction false} Promoted(deps: Deps, includeDev: bool, target: Name, seen: map<Name, Kind>, m: Name, cur: Name)
    requires Sound(deps, includeDev, target, seen) && m in seen && Follows(deps, includeDev, m, NormalDep, cur) && cur in {target} + seen.Keys
    ensures Sound(deps, includeDev, target, seen[m := NormalDep])
  {
    hide Reaches, Follows;
    assert seen[m := NormalDep].Keys == seen.Keys;
  }

  lemma {:induction false} FewerLeft(deps: Deps, was: map<Name, Kind>, seen: map<Name, Kind>)
    requires Extends(deps, was, seen)
    ensures Unfound(deps, seen) < Unfound(deps, was) || (seen.Keys == was.Keys && Unfound(deps, seen) == Unfound(deps, was))
  {
    if m :| m in seen && m !in was {
      SubsetSize(deps.Keys - seen.Keys, deps.Keys - was.Keys - {m});
    } else {
      assert seen.Keys == was.Keys;
    }
  }
}
