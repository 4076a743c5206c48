/**
 * The reconciliation engine (Diff): from the desired and the actual containers of a
 * namespace, the ordered plan of Create, Remove and Ensure actions that converges the
 * actual state to the desired one, or a cycle error.
 */
module Reconcile {
  import opened Types
  import opened Graph
  import Config

  /** The containers whose volumes-from dependencies cannot be ordered. */
  datatype CycleError = CycleError(involved: seq<Container>)

  // ---------------------------------------------------------------------------
  // Building blocks
  // ---------------------------------------------------------------------------

  /** The containers of cs that belong to namespace ns, in order. */
  function InNamespace(cs: seq<Container>, ns: string): (r: seq<Container>)
    ensures forall c :: c in r <==> c in cs && c.name.namespace == ns
  {
    if cs == [] then []
    else
      var rest := InNamespace(cs[1..], ns);
      assert forall c :: c in cs <==> c == cs[0] || c in cs[1..];
      if cs[0].name.namespace == ns then [cs[0]] + rest else rest
  }

  /** The desired containers this pass manages: those of the namespace, one per name. */
  function Managed(ns: string, desired: seq<Container>): (r: seq<Container>)
    ensures UniqueNames(r)
    ensures forall c :: c in r ==> c in desired && c.name.namespace == ns
    ensures Names(r) == Names(InNamespace(desired, ns))
    ensures forall c :: c in r <==> c in InNamespace(desired, ns) && Index(InNamespace(desired, ns))[c.name] == c
  {
    DedupNames(InNamespace(desired, ns));
    Dedup(InNamespace(desired, ns))
  }

  /** With unique names, the managed containers are exactly the desired ones of the namespace. */
  lemma ManagedOfUnique(ns: string, desired: seq<Container>)
    requires UniqueNames(desired)
    ensures forall c :: c in Managed(ns, desired) <==> c in desired && c.name.namespace == ns
  {
    var cs := InNamespace(desired, ns);
    forall c | c in cs ensures c.name in Index(cs) && Index(cs)[c.name] == c {
      var m := Index(cs)[c.name];
      var i :| 0 <= i < |desired| && desired[i] == c;
      var k :| 0 <= k < |desired| && desired[k] == m;
      assert i == k;
    }
  }

  /** The desired container needs a Create: it is new, or it drifted from the actual one. */
  predicate NeedsCreate(c: Container, current: map<ContainerName, Container>) {
    c.name !in current || !Config.IsEqualTo(current[c.name].config, c.config)
  }

  /** The actual container x has to go: it is in the namespace and is no longer desired, or it drifted. */
  predicate NeedsRemove(x: Container, ns: string, managed: seq<Container>) {
    && x.name.namespace == ns
    && (x.name !in Names(managed)
        || exists c :: c in managed && c.name == x.name && !Config.IsEqualTo(x.config, c.config))
  }

  /** n is a volumes-from dependency of some container of cs outside that container's namespace. */
  ghost predicate IsExternalDependency(cs: seq<Container>, n: ContainerName) {
    exists c :: c in cs && n in c.config.volumesFrom && n.namespace != c.name.namespace
  }

  /** Every container of the map is filed under its own name. */
  predicate KeyedByName(current: map<ContainerName, Container>) {
    forall n :: n in current ==> current[n].name == n
  }

  /** The best-known representation of a name: the actual container, or the bare name. */
  function Best(current: map<ContainerName, Container>, n: ContainerName): (c: Container)
    requires KeyedByName(current)
    ensures c.name == n
  {
    if n in current then current[n] else Container(n, ContainerState(false), EMPTY_CONFIG)
  }

  /** Removes for the actual containers (one per name) of the namespace that are not managed. */
  function Obsolete(ns: string, managed: seq<Container>, actual: seq<Container>): (r: seq<Action>)
    ensures forall a :: a in r <==> a.Remove? && a.container in actual && a.Target().namespace == ns
                                     && a.Target() !in Names(managed)
  {
    if actual == [] then []
    else
      var x := actual[0];
      var rest := Obsolete(ns, managed, actual[1..]);
      assert forall c :: c in actual <==> c == x || c in actual[1..];
      if x.name.namespace == ns && x.name !in Names(managed) then [Remove(x)] + rest else rest
  }

  /** The names a container takes volumes from outside its own namespace. */
  function ExternalOf(c: Container): (r: seq<ContainerName>)
    ensures forall n :: n in r <==> n in c.config.volumesFrom && n.namespace != c.name.namespace
  {
    Outside(c.config.volumesFrom, c.name.namespace)
  }

  function Outside(ns: seq<ContainerName>, namespace: string): (r: seq<ContainerName>)
    ensures forall n :: n in r <==> n in ns && n.namespace != namespace
  {
    if ns == [] then []
    else
      var rest := Outside(ns[1..], namespace);
      assert forall n :: n in ns <==> n == ns[0] || n in ns[1..];
      if ns[0].namespace != namespace then [ns[0]] + rest else rest
  }

  /** Every external dependency of cs, possibly repeated. */
  function AllExternal(cs: seq<Container>): (r: seq<ContainerName>)
    ensures forall n :: n in r <==> IsExternalDependency(cs, n)
  {
    if cs == [] then []
    else
      var rest := AllExternal(cs[1..]);
      assert forall c :: c in cs <==> c == cs[0] || c in cs[1..];
      ExternalOf(cs[0]) + rest
  }

  /** The names of s, each once. */
  function Distinct(s: seq<ContainerName>): (r: seq<ContainerName>)
    ensures forall n :: n in r <==> n in s
    ensures forall i, j :: 0 <= i < j < |r| ==> r[i] != r[j]
  {
    if s == [] then []
    else
      var rest := Distinct(s[1..]);
      assert forall n :: n in s <==> n == s[0] || n in s[1..];
      if s[0] in s[1..] then rest else [s[0]] + rest
  }

  /** Ensure actions for the names, each on the best-known representation. */
  function EnsureAll(names: seq<ContainerName>, current: map<ContainerName, Container>): (r: seq<Action>)
    requires KeyedByName(current)
    ensures |r| == |names|
    ensures forall k :: 0 <= k < |r| ==> r[k] == Ensure(Best(current, names[k]))
  {
    if names == [] then [] else [Ensure(Best(current, names[0]))] + EnsureAll(names[1..], current)
  }

  /** The actions for one desired container: nothing, a Create, or a Remove of the actual one then a Create. */
  function Step(c: Container, current: map<ContainerName, Container>): seq<Action> {
    if c.name !in current then [Create(c)]
    else if Config.IsEqualTo(current[c.name].config, c.config) then []
    else [Remove(current[c.name]), Create(c)]
  }

  /** The actions for the desired containers, in the given order. */
  function Converge(order: seq<Container>, current: map<ContainerName, Container>): seq<Action> {
    if order == [] then [] else Step(order[0], current) + Converge(order[1..], current)
  }

  // ---------------------------------------------------------------------------
  // Diff
  // ---------------------------------------------------------------------------

  /**
   * The plan for namespace ns: Removes of the actual containers no longer desired, Ensures
   * of the external dependencies, then the Creates (each preceded by the Remove of a drifted
   * actual container) in dependencies-first order. A volumes-from cycle among the managed
   * containers is an error.
   */
  function Diff(ns: string, desired: seq<Container>, actual: seq<Container>): Result<seq<Action>, CycleError> {
    var managed := Managed(ns, desired);
    match TopoOrder(managed)
    case Err(stuck) => Err(CycleError(stuck))
    case Ok(order) =>
      var current := Index(actual);
      Ok(Obsolete(ns, managed, Dedup(actual))
         + EnsureAll(Distinct(AllExternal(managed)), current)
         + Converge(order, current))
  }

  // ---------------------------------------------------------------------------
  // Properties of plans
  // ---------------------------------------------------------------------------

  /** No two actions of p act on the same name. */
  predicate UniqueTargets(p: seq<Action>) {
    forall i, j :: 0 <= i < j < |p| ==> p[i].Target() != p[j].Target()
  }

  /** Two actions act on one name only as a Remove immediately followed by a Create (a recreate). */
  predicate OneActionPerName(p: seq<Action>) {
    forall i, j :: 0 <= i < j < |p| && p[i].Target() == p[j].Target() ==>
      p[i].Remove? && p[j].Create? && j == i + 1
  }

  /** Every action a Create waits for comes before it. */
  predicate Ordered(p: seq<Action>) {
    forall i, j :: 0 <= i < |p| && 0 <= j < |p| && i != j && p[j].Create? && p[i].Target() in p[j].Prereqs() ==> i < j
  }

  predicate AllInNamespace(cs: seq<Container>, ns: string) {
    forall c :: c in cs ==> c.name.namespace == ns
  }

  // ---------------------------------------------------------------------------
  // Lemmas about the building blocks
  // ---------------------------------------------------------------------------

  lemma ObsoleteUnique(ns: string, managed: seq<Container>, actual: seq<Container>)
    requires UniqueNames(actual)
    ensures UniqueTargets(Obsolete(ns, managed, actual))
  {
    if actual != [] {
      ObsoleteUnique(ns, managed, actual[1..]);
      var rest := Obsolete(ns, managed, actual[1..]);
      forall a | a in rest ensures a.Target() != actual[0].name {
        assert a.container in actual[1..];
      }
    }
  }

  lemma EnsureAllUnique(names: seq<ContainerName>, current: map<ContainerName, Container>)
    requires KeyedByName(current)
    requires forall i, j :: 0 <= i < j < |names| ==> names[i] != names[j]
    ensures UniqueTargets(EnsureAll(names, current))
  {
  }

  /** Converge only creates and removes, and only under the names of the ordered containers. */
  lemma {:induction false} ConvergeTargets(order: seq<Container>, current: map<ContainerName, Container>)
    requires KeyedByName(current)
    ensures forall a :: a in Converge(order, current) ==> a.Target() in Names(order)
    ensures forall a :: a in Converge(order, current) ==> a.Create? || a.Remove?
  {
    if order != [] {
      ConvergeTargets(order[1..], current);
      assert Names(order) == {order[0].name} + Names(order[1..]);
    }
  }

  /** Converge creates exactly the ordered containers that are new or drifted. */
  lemma {:induction false} ConvergeCreates(order: seq<Container>, current: map<ContainerName, Container>)
    ensures forall c :: Create(c) in Converge(order, current) <==> c in order && NeedsCreate(c, current)
  {
    if order != [] {
      ConvergeCreates(order[1..], current);
      assert forall c :: c in order <==> c == order[0] || c in order[1..];
    }
  }

  /** Converge removes exactly the actual containers an ordered container drifted from. */
  lemma {:induction false} ConvergeRemoveSources(order: seq<Container>, current: map<ContainerName, Container>)
    ensures forall x :: Remove(x) in Converge(order, current) <==>
      exists c :: c in order && c.name in current && current[c.name] == x && !Config.IsEqualTo(x.config, c.config)
  {
    if order != [] {
      ConvergeRemoveSources(order[1..], current);
      assert forall c :: c in order <==> c == order[0] || c in order[1..];
    }
  }

  /** The actions of one container's step all act on its name. */
  lemma StepTargets(c: Container, current: map<ContainerName, Container>)
    requires KeyedByName(current)
    ensures forall a :: a in Step(c, current) ==> a.Target() == c.name
  {
  }

  lemma {:induction false} ConvergeOnePerName(order: seq<Container>, current: map<ContainerName, Container>)
    requires KeyedByName(current) && UniqueNames(order)
    ensures OneActionPerName(Converge(order, current))
  {
    if order != [] {
      var h, rest := order[0], order[1..];
      var s, p := Step(h, current), Converge(rest, current);
      ConvergeOnePerName(rest, current);
      ConvergeTargets(rest, current);
      StepTargets(h, current);
      var all := s + p;
      forall i, j | 0 <= i < j < |all| && all[i].Target() == all[j].Target()
        ensures all[i].Remove? && all[j].Create? && j == i + 1
      {
        if j < |s| {
          // both in the step of h
        } else if i < |s| {
          assert false;
        } else {
          assert all[i] == p[i - |s|] && all[j] == p[j - |s|];
        }
      }
    }
  }

  lemma {:induction false} ConvergeOrdered(order: seq<Container>, current: map<ContainerName, Container>, ns: string)
    requires KeyedByName(current)
    requires UniqueNames(order) && Topological(order) && AllInNamespace(order, ns)
    ensures Ordered(Converge(order, current))
  {
    if order != [] {
      var h, rest := order[0], order[1..];
      var s, p := Step(h, current), Converge(rest, current);
      assert Topological(rest) by {
        forall i, j | 0 <= i < |rest| && 0 <= j < |rest| && DependsOn(rest[j], rest[i]) ensures i < j {
          assert DependsOn(order[j + 1], order[i + 1]);
        }
      }
      ConvergeOrdered(rest, current, ns);
      ConvergeTargets(rest, current);
      StepTargets(h, current);
      var all := s + p;
      forall i, j | 0 <= i < |all| && 0 <= j < |all| && i != j && all[j].Create? && all[i].Target() in all[j].Prereqs()
        ensures i < j
      {
        if j < |s| {
          if i >= |s| {
            assert false;
          }
        } else if i >= |s| {
          assert all[i] == p[i - |s|] && all[j] == p[j - |s|];
        }
      }
    }
  }

  lemma OrderedAfterNoCreates(a: seq<Action>, b: seq<Action>)
    requires forall x :: x in a ==> !x.Create?
    requires Ordered(b)
    ensures Ordered(a + b)
  {
    var all := a + b;
    forall i, j | 0 <= i < |all| && 0 <= j < |all| && i != j && all[j].Create? && all[i].Target() in all[j].Prereqs()
      ensures i < j
    {
      if j >= |a| && i >= |a| {
        assert all[i] == b[i - |a|] && all[j] == b[j - |a|];
      }
    }
  }

  lemma OnePerNameAppend(a: seq<Action>, b: seq<Action>)
    requires OneActionPerName(a) && OneActionPerName(b)
    requires forall x, y :: x in a && y in b ==> x.Target() != y.Target()
    ensures OneActionPerName(a + b)
  {
    var all := a + b;
    forall i, j | 0 <= i < j < |all| && all[i].Target() == all[j].Target()
      ensures all[i].Remove? && all[j].Create? && j == i + 1
    {
      if j < |a| {
        assert all[i] == a[i] && all[j] == a[j];
      } else if i >= |a| {
        assert all[i] == b[i - |a|] && all[j] == b[j - |a|];
      }
    }
  }

  /** Reordering a sequence keeps its names unique. */
  lemma PermutationKeepsUnique(managed: seq<Container>, order: seq<Container>)
    requires UniqueNames(managed) && multiset(order) == multiset(managed)
    ensures UniqueNames(order)
  {
    forall i, j | 0 <= i < j < |order| ensures order[i].name != order[j].name {
      if order[i].name == order[j].name {
        var x, y := order[i], order[j];
        assert x in multiset(managed) && y in multiset(managed);
        var a :| 0 <= a < |managed| && managed[a] == x;
        var b :| 0 <= b < |managed| && managed[b] == y;
        if a == b {
          TwiceInOrder(order, i, j);
          UniqueCount(managed, a);
        }
        assert false;
      }
    }
  }

  /** Two positions holding the same container count it twice. */
  lemma TwiceInOrder(order: seq<Container>, i: nat, j: nat)
    requires i < j < |order| && order[i] == order[j]
    ensures multiset(order)[order[i]] >= 2
  {
    assert order == order[..i] + [order[i]] + order[i + 1..j] + [order[j]] + order[j + 1..];
  }

  lemma UniqueCount(s: seq<Container>, a: nat)
    requires UniqueNames(s) && a < |s|
    ensures multiset(s)[s[a]] == 1
  {
    assert s == s[..a] + [s[a]] + s[a + 1..];
    assert s[a] !in s[..a] && s[a] !in s[a + 1..];
  }

  /** The dependencies-first order of the managed containers holds exactly the managed containers. */
  lemma OrderFacts(ns: string, desired: seq<Container>)
    requires TopoOrder(Managed(ns, desired)).Ok?
    ensures var managed, order := Managed(ns, desired), TopoOrder(Managed(ns, desired)).value;
      && (forall x :: x in order <==> x in managed)
      && Names(order) == Names(managed)
      && UniqueNames(order)
      && Topological(order)
      && AllInNamespace(order, ns)
  {
    var managed := Managed(ns, desired);
    var order := TopoOrder(managed).value;
    SameMembers(managed, order);
    PermutationKeepsUnique(managed, order);
  }

  /** Two sequences with the same multiset have the same members and the same names. */
  lemma SameMembers(a: seq<Container>, b: seq<Container>)
    requires multiset(a) == multiset(b)
    ensures forall x :: x in a <==> x in b
    ensures Names(a) == Names(b)
  {
    forall x ensures x in a <==> x in b {
      assert x in a <==> x in multiset(a);
      assert x in b <==> x in multiset(b);
    }
  }

  /** The three parts of a successful plan. */
  lemma DiffParts(ns: string, desired: seq<Container>, actual: seq<Container>)
    requires Diff(ns, desired, actual).Ok?
    ensures TopoOrder(Managed(ns, desired)).Ok?
    ensures var managed, current := Managed(ns, desired), Index(actual);
      Diff(ns, desired, actual).value
        == Obsolete(ns, managed, Dedup(actual))
           + EnsureAll(Distinct(AllExternal(managed)), current)
           + Converge(TopoOrder(managed).value, current)
  {
  }

  // ---------------------------------------------------------------------------
  // Theorems about Diff
  // ---------------------------------------------------------------------------

  /** Nothing desired and nothing running: an empty plan and no error. */
  lemma DiffEmpty(ns: string)
    ensures Diff(ns, [], []) == Ok([])
  {
    assert TopoOrder([]) == Ok([]);
    var d := Diff(ns, [], []);
    assert d.Ok? && d.value == [];
  }

  /** Diff fails exactly when the managed containers' volumes-from edges contain a cycle. */
  lemma DiffFailsIffCycle(ns: string, desired: seq<Container>, actual: seq<Container>)
    ensures Diff(ns, desired, actual).Err? <==> exists p :: IsCycle(Managed(ns, desired), p)
    ensures Diff(ns, desired, actual).Err? ==>
      var e := Diff(ns, desired, actual).error;
      |e.involved| > 0 && forall c :: c in e.involved ==> c in desired && c.name.namespace == ns
    ensures Diff(ns, desired, actual).Err? ==> exists p :: IsCycle(Diff(ns, desired, actual).error.involved, p)
  {
    var managed := Managed(ns, desired);
    TopoOrderFailsIffCycle(managed);
    var r := TopoOrder(managed);
    if r.Err? {
      var p := StuckHasCycle(r.error);
      forall c | c in r.error ensures c in managed {
        assert c in multiset(r.error);
      }
    }
  }

  /** The plan creates exactly the managed containers that are new or drifted. */
  lemma DiffCreates(ns: string, desired: seq<Container>, actual: seq<Container>)
    requires Diff(ns, desired, actual).Ok?
    ensures var plan, managed, current := Diff(ns, desired, actual).value, Managed(ns, desired), Index(actual);
      forall c :: Create(c) in plan <==> c in managed && NeedsCreate(c, current)
  {
    var managed, current := Managed(ns, desired), Index(actual);
    DiffParts(ns, desired, actual);
    OrderFacts(ns, desired);
    ConvergeCreates(TopoOrder(managed).value, current);
  }

  /** The Removes of Converge are those of the actual containers that drifted from a desired one. */
  lemma ConvergeRemoves(order: seq<Container>, current: map<ContainerName, Container>)
    requires KeyedByName(current)
    ensures forall x :: Remove(x) in Converge(order, current) <==>
      x.name in current && current[x.name] == x
      && exists d :: d in order && d.name == x.name && !Config.IsEqualTo(x.config, d.config)
  {
    ConvergeRemoveSources(order, current);
    forall x | Remove(x) in Converge(order, current)
      ensures exists d :: d in order && d.name == x.name && !Config.IsEqualTo(x.config, d.config)
    {
      var d :| d in order && d.name in current && current[d.name] == x && !Config.IsEqualTo(x.config, d.config);
      assert d.name == x.name;
    }
  }

  /** The Removes of Obsolete are those of the actual containers of the namespace under unmanaged names. */
  lemma ObsoleteRemoves(ns: string, managed: seq<Container>, actual: seq<Container>)
    ensures forall x :: Remove(x) in Obsolete(ns, managed, Dedup(actual)) <==>
      x.name in Index(actual) && Index(actual)[x.name] == x && x.name.namespace == ns && x.name !in Names(managed)
  {
  }

  /**
   * The plan removes exactly the actual containers (the last one reported under each name)
   * of the namespace that are no longer desired or have drifted.
   */
  lemma DiffRemoves(ns: string, desired: seq<Container>, actual: seq<Container>)
    requires Diff(ns, desired, actual).Ok?
    ensures var plan, managed, current := Diff(ns, desired, actual).value, Managed(ns, desired), Index(actual);
      forall x :: Remove(x) in plan <==> x.name in current && current[x.name] == x && NeedsRemove(x, ns, managed)
  {
    var managed, current := Managed(ns, desired), Index(actual);
    var order := TopoOrder(managed).value;
    DiffParts(ns, desired, actual);
    OrderFacts(ns, desired);
    ConvergeRemoves(order, current);
    ObsoleteRemoves(ns, managed, actual);
    EnsureAllMembers(Distinct(AllExternal(managed)), current);
  }

  /** The Ensures of EnsureAll are those of the best-known representations of the names. */
  lemma EnsureAllMembers(names: seq<ContainerName>, current: map<ContainerName, Container>)
    requires KeyedByName(current)
    ensures forall a :: a in EnsureAll(names, current) ==> a.Ensure?
    ensures forall x :: Ensure(x) in EnsureAll(names, current) <==> x.name in names && x == Best(current, x.name)
  {
    var e := EnsureAll(names, current);
    forall x: Container | x.name in names && x == Best(current, x.name) ensures Ensure(x) in e {
      var k :| 0 <= k < |names| && names[k] == x.name;
      assert e[k] == Ensure(x);
    }
  }

  /** The plan ensures exactly the external dependencies, each on its best-known representation. */
  lemma DiffEnsures(ns: string, desired: seq<Container>, actual: seq<Container>)
    requires Diff(ns, desired, actual).Ok?
    ensures var plan, managed, current := Diff(ns, desired, actual).value, Managed(ns, desired), Index(actual);
      forall x :: Ensure(x) in plan <==> IsExternalDependency(managed, x.name) && x == Best(current, x.name)
  {
    var managed, current := Managed(ns, desired), Index(actual);
    var names := Distinct(AllExternal(managed));
    DiffParts(ns, desired, actual);
    ConvergeTargets(TopoOrder(managed).value, current);
    EnsureAllMembers(names, current);
    assert forall n :: n in names <==> IsExternalDependency(managed, n);
  }

  /** Create and Remove act inside the namespace; Ensure only outside it. */
  lemma DiffScope(ns: string, desired: seq<Container>, actual: seq<Container>)
    requires Diff(ns, desired, actual).Ok?
    ensures var plan := Diff(ns, desired, actual).value;
      forall a :: a in plan ==> ((a.Create? || a.Remove?) <==> a.Target().namespace == ns)
  {
    var plan, managed := Diff(ns, desired, actual).value, Managed(ns, desired);
    DiffCreates(ns, desired, actual);
    DiffRemoves(ns, desired, actual);
    DiffEnsures(ns, desired, actual);
    forall a | a in plan ensures (a.Create? || a.Remove?) <==> a.Target().namespace == ns {
      match a
      case Create(c) => assert c in managed;
      case Remove(x) => assert NeedsRemove(x, ns, managed);
      case Ensure(x) =>
        var c :| c in managed && x.name in c.config.volumesFrom && x.name.namespace != c.name.namespace;
    }
  }

  /**
   * Each name is acted on once, except that a drifted container's Remove is immediately
   * followed by its Create.
   */
  lemma DiffOneActionPerName(ns: string, desired: seq<Container>, actual: seq<Container>)
    requires Diff(ns, desired, actual).Ok?
    ensures OneActionPerName(Diff(ns, desired, actual).value)
  {
    var managed, current := Managed(ns, desired), Index(actual);
    DiffParts(ns, desired, actual);
    OrderFacts(ns, desired);
    var order := TopoOrder(managed).value;
    var names := Distinct(AllExternal(managed));
    var r, e, c := Obsolete(ns, managed, Dedup(actual)), EnsureAll(names, current), Converge(order, current);
    ObsoleteUnique(ns, managed, Dedup(actual));
    EnsureAllUnique(names, current);
    ConvergeTargets(order, current);
    ConvergeOnePerName(order, current);
    ExternalTargetsOutside(ns, managed, names, current);
    OnePerNameAppend(r, e);
    OnePerNameAppend(r + e, c);
  }

  /** The Ensures act outside the namespace, so on names no Remove or Create of the plan touches. */
  lemma ExternalTargetsOutside(ns: string, managed: seq<Container>, names: seq<ContainerName>, current: map<ContainerName, Container>)
    requires KeyedByName(current) && AllInNamespace(managed, ns)
    requires forall n :: n in names ==> IsExternalDependency(managed, n)
    ensures forall a :: a in EnsureAll(names, current) ==> a.Target().namespace != ns
  {
    var e := EnsureAll(names, current);
    forall a | a in e ensures a.Target().namespace != ns {
      var k :| 0 <= k < |e| && e[k] == a;
      assert names[k] in names;
      var d :| d in managed && names[k] in d.config.volumesFrom && names[k].namespace != d.name.namespace;
    }
  }

  /** Every action a Create waits for (its own Remove, the actions on its volumes-from sources) comes first. */
  lemma DiffOrdered(ns: string, desired: seq<Container>, actual: seq<Container>)
    requires Diff(ns, desired, actual).Ok?
    ensures Ordered(Diff(ns, desired, actual).value)
  {
    var managed, current := Managed(ns, desired), Index(actual);
    DiffParts(ns, desired, actual);
    OrderFacts(ns, desired);
    var order := TopoOrder(managed).value;
    var r, e, c := Obsolete(ns, managed, Dedup(actual)), EnsureAll(Distinct(AllExternal(managed)), current), Converge(order, current);
    ConvergeOrdered(order, current, ns);
    OrderedAfterNoCreates(r + e, c);
  }
}
