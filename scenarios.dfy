/**
 * End-to-end behaviour of one convergence pass: the plan Diff computes, replayed by the
 * runner against a client that fails a chosen set of calls. Each lemma states, for all
 * inputs of its shape, what the corresponding behavioural test of the engine observes.
 */
module Scenarios {
  import opened Types
  import opened Graph
  import opened Reconcile
  import opened Runner
  import Config

  /** A running container of the namespace whose only configured attribute is volumes-from. */
  function NewContainer(namespace: string, name: string, dependencies: seq<ContainerName>): Container {
    Container(ContainerName(namespace, name), ContainerState(true),
              ConfigContainer("", "", None, None, None, dependencies))
  }

  /** Every volumes-from dependency of every container stays inside that container's namespace. */
  predicate InternalOnly(cs: seq<Container>) {
    forall c, n :: c in cs && n in c.config.volumesFrom ==> n.namespace == c.name.namespace
  }

  /** No action occurs twice in a plan with at most a recreate per name. */
  lemma NoRepeatedAction(plan: seq<Action>)
    requires OneActionPerName(plan)
    ensures forall i, j :: 0 <= i < j < |plan| ==> plan[i] != plan[j]
  {
  }

  /** Against an empty runtime the plan holds no Remove and creates every managed container. */
  lemma FreshPlan(ns: string, desired: seq<Container>)
    requires Diff(ns, desired, []).Ok?
    ensures var plan := Diff(ns, desired, []).value;
      && (forall a :: a in plan ==> !a.Remove?)
      && (forall c :: Create(c) in plan <==> c in Managed(ns, desired))
  {
    assert Index([]) == map[];
    DiffCreates(ns, desired, []);
    DiffRemoves(ns, desired, []);
  }

  /**
   * Creating everything: with nothing running and no call failing, the client receives one
   * CreateContainer per desired container, no other call, each after the creates of the
   * containers it takes volumes from, and the run succeeds.
   */
  lemma CreateAllOnEmptyRuntime(ns: string, desired: seq<Container>)
    requires UniqueNames(desired) && AllInNamespace(desired, ns) && InternalOnly(desired)
    requires Diff(ns, desired, []).Ok?
    ensures var st := Replay(Diff(ns, desired, []).value, {});
      && (forall a :: a in st.calls ==> a.Create?)
      && (forall c :: Create(c) in st.calls <==> c in desired)
      && (forall i, j :: 0 <= i < j < |st.calls| ==> st.calls[i] != st.calls[j])
      && Ordered(st.calls)
      && st.errors == []
  {
    var plan := Diff(ns, desired, []).value;
    RunWithoutFailures(plan, {});
    FreshCreatesOnly(ns, desired);
    DiffOneActionPerName(ns, desired, []);
    NoRepeatedAction(plan);
    DiffOrdered(ns, desired, []);
  }

  /** Without volumes-from edges there is no cycle, so Diff always yields a plan. */
  lemma NoDependenciesNoCycle(ns: string, desired: seq<Container>, actual: seq<Container>)
    requires forall c :: c in desired ==> c.config.volumesFrom == []
    ensures Diff(ns, desired, actual).Ok?
  {
    var managed := Managed(ns, desired);
    DiffFailsIffCycle(ns, desired, actual);
    assert forall p :: !IsCycle(managed, p);
  }

  /** Against an empty runtime, a plan for containers without volumes-from edges is exactly one Create per container. */
  lemma IndependentPlan(ns: string, desired: seq<Container>)
    requires UniqueNames(desired) && AllInNamespace(desired, ns)
    requires forall c :: c in desired ==> c.config.volumesFrom == []
    requires Diff(ns, desired, []).Ok?
    ensures var plan := Diff(ns, desired, []).value;
      && (forall a :: a in plan ==> a.Create?)
      && (forall c :: Create(c) in plan <==> c in desired)
      && (forall i, j :: 0 <= i < j < |plan| ==> plan[i].Target() !in plan[j].Prereqs())
  {
    var plan := Diff(ns, desired, []).value;
    FreshCreatesOnly(ns, desired);
    DiffOneActionPerName(ns, desired, []);
    forall i, j | 0 <= i < j < |plan| ensures plan[i].Target() !in plan[j].Prereqs() {
      assert plan[i] in plan && plan[j] in plan;
      assert plan[j].container in desired;
    }
  }

  /** Against an empty runtime, containers with internal dependencies only are all created and nothing else happens. */
  lemma FreshCreatesOnly(ns: string, desired: seq<Container>)
    requires UniqueNames(desired) && AllInNamespace(desired, ns) && InternalOnly(desired)
    requires Diff(ns, desired, []).Ok?
    ensures var plan := Diff(ns, desired, []).value;
      && (forall a :: a in plan ==> a.Create?)
      && (forall c :: Create(c) in plan <==> c in desired)
  {
    var plan := Diff(ns, desired, []).value;
    FreshPlan(ns, desired);
    ManagedOfUnique(ns, desired);
    DiffEnsures(ns, desired, []);
    forall a | a in plan ensures a.Create? {
      if a.Ensure? {
        assert false;
      }
    }
  }

  /**
   * A failure in the middle: with independent containers and nothing running, every
   * CreateContainer is still made whichever calls fail, and the run reports an error exactly
   * when one of them fails.
   */
  lemma IndependentCreatesAllRun(ns: string, desired: seq<Container>, failures: set<Action>)
    requires UniqueNames(desired) && AllInNamespace(desired, ns)
    requires forall c :: c in desired ==> c.config.volumesFrom == []
    ensures Diff(ns, desired, []).Ok?
    ensures var plan := Diff(ns, desired, []).value;
      var st := Replay(plan, failures);
      && st.calls == plan
      && (forall c :: Create(c) in st.calls <==> c in desired)
      && (st.errors != [] <==> exists c :: c in desired && Create(c) in failures)
  {
    NoDependenciesNoCycle(ns, desired, []);
    IndependentPlan(ns, desired);
    IndependentCreatesRun(Diff(ns, desired, []).value, desired, failures);
  }

  /** Replaying a plan of independent Creates calls every one of them and fails exactly when one fails. */
  lemma IndependentCreatesRun(plan: seq<Action>, desired: seq<Container>, failures: set<Action>)
    requires forall a :: a in plan ==> a.Create?
    requires forall c :: Create(c) in plan <==> c in desired
    requires forall i, j :: 0 <= i < j < |plan| ==> plan[i].Target() !in plan[j].Prereqs()
    ensures var st := Replay(plan, failures);
      && st.calls == plan
      && (st.errors != [] <==> exists c :: c in desired && Create(c) in failures)
  {
    IndependentAllCalled(plan, failures);
    RunErrsIffSomeActionFails(plan, failures);
    if j :| 0 <= j < |plan| && plan[j] in failures {
      assert plan[j] in plan;
      assert Create(plan[j].container) in plan;
    }
    if c :| c in desired && Create(c) in failures {
      var j :| 0 <= j < |plan| && plan[j] == Create(c);
    }
  }

  /**
   * A failed dependency: when the client fails an action that a later Create waits for, that
   * Create comes after it in the plan, is never sent to the client, and the run fails.
   */
  lemma FailedDependencyBlocksDependant(ns: string, desired: seq<Container>, actual: seq<Container>,
                                        failures: set<Action>, i: nat, j: nat)
    requires Diff(ns, desired, actual).Ok?
    requires var plan := Diff(ns, desired, actual).value;
      i < |plan| && j < |plan| && i != j && plan[i] in failures && plan[i].Target() in plan[j].Prereqs()
    ensures var plan := Diff(ns, desired, actual).value;
      var st := Replay(plan, failures);
      && i < j
      && plan[j] !in st.calls
      && st.errors != []
  {
    var plan := Diff(ns, desired, actual).value;
    DiffOrdered(ns, desired, actual);
    DiffOneActionPerName(ns, desired, actual);
    NoRepeatedAction(plan);
    OutcomeAt(plan, failures, i);
    OutcomeAt(plan, failures, j);
    SkippedNotCalled(plan, failures, j);
    RunErrsIffSomeActionFails(plan, failures);
  }

  /**
   * The cascade over a whole plan: an action is sent to the client exactly when it is not
   * tainted by an earlier failure it depends on, directly or transitively.
   */
  lemma PlanCalledIffUntainted(ns: string, desired: seq<Container>, actual: seq<Container>,
                               failures: set<Action>, j: nat)
    requires Diff(ns, desired, actual).Ok?
    requires j < |Diff(ns, desired, actual).value|
    ensures var plan := Diff(ns, desired, actual).value;
      plan[j] in Replay(plan, failures).calls <==> !Tainted(plan, failures, j)
  {
    var plan := Diff(ns, desired, actual).value;
    DiffOneActionPerName(ns, desired, actual);
    NoRepeatedAction(plan);
    CalledIffUntainted(plan, failures, j);
  }

  /** Drift: a managed container whose actual counterpart differs is removed then immediately recreated. */
  lemma DriftRecreates(ns: string, desired: seq<Container>, actual: seq<Container>, c: Container)
    requires Diff(ns, desired, actual).Ok?
    requires c in Managed(ns, desired) && c.name in Index(actual)
    requires !Config.IsEqualTo(Index(actual)[c.name].config, c.config)
    ensures var plan := Diff(ns, desired, actual).value;
      exists i :: 0 <= i < |plan| - 1 && plan[i] == Remove(Index(actual)[c.name]) && plan[i + 1] == Create(c)
  {
    var x := Index(actual)[c.name];
    DiffCreates(ns, desired, actual);
    DiffRemoves(ns, desired, actual);
    DiffOneActionPerName(ns, desired, actual);
    assert NeedsRemove(x, ns, Managed(ns, desired));
    RecreateAdjacent(Diff(ns, desired, actual).value, x, c);
  }

  /** A managed container already running with an equal configuration gets no action, whatever happens to the others. */
  lemma UnchangedGetsNoAction(ns: string, desired: seq<Container>, actual: seq<Container>, c: Container)
    requires Diff(ns, desired, actual).Ok?
    requires c in Managed(ns, desired) && c.name in Index(actual)
    requires Config.IsEqualTo(Index(actual)[c.name].config, c.config)
    ensures forall a :: a in Diff(ns, desired, actual).value ==> a.Target() != c.name
  {
    DiffCreates(ns, desired, actual);
    DiffRemoves(ns, desired, actual);
    DiffScope(ns, desired, actual);
    UnchangedUntouched(Diff(ns, desired, actual).value, ns, Managed(ns, desired), Index(actual), c);
  }

  /** The plan-level argument: neither a Create nor a Remove can be for c, and an Ensure is outside the namespace. */
  lemma UnchangedUntouched(plan: seq<Action>, ns: string, managed: seq<Container>,
                           current: map<ContainerName, Container>, c: Container)
    requires c in managed && c.name.namespace == ns && c.name in current
    requires Config.IsEqualTo(current[c.name].config, c.config)
    requires forall d, e :: d in managed && e in managed && d.name == e.name ==> d == e
    requires forall d :: Create(d) in plan ==> d in managed && NeedsCreate(d, current)
    requires forall x :: Remove(x) in plan ==> x.name in current && current[x.name] == x && NeedsRemove(x, ns, managed)
    requires forall a :: a in plan ==> ((a.Create? || a.Remove?) <==> a.Target().namespace == ns)
    ensures forall a :: a in plan ==> a.Target() != c.name
  {
    forall a | a in plan ensures a.Target() != c.name {
      match a {
        case Create(d) =>
          if d.name == c.name {
            assert false;
          }
        case Remove(x) =>
          if x.name == c.name {
            assert false;
          }
        case Ensure(_) =>
      }
    }
  }

  /** When a plan with at most a recreate per name both removes and creates a name, the Create directly follows the Remove. */
  lemma RecreateAdjacent(plan: seq<Action>, x: Container, c: Container)
    requires OneActionPerName(plan) && Remove(x) in plan && Create(c) in plan && x.name == c.name
    ensures exists i :: 0 <= i < |plan| - 1 && plan[i] == Remove(x) && plan[i + 1] == Create(c)
  {
    var i :| 0 <= i < |plan| && plan[i] == Remove(x);
    var k :| 0 <= k < |plan| && plan[k] == Create(c);
    assert plan[i].Target() == plan[k].Target();
    if k < i {
      assert plan[k].Remove?;
    }
  }

  /** An actual container of another namespace that no managed container depends on gets no action. */
  lemma ForeignUntouched(ns: string, desired: seq<Container>, actual: seq<Container>, n: ContainerName)
    requires Diff(ns, desired, actual).Ok?
    requires n.namespace != ns && !IsExternalDependency(Managed(ns, desired), n)
    ensures forall a :: a in Diff(ns, desired, actual).value ==> a.Target() != n
  {
    DiffScope(ns, desired, actual);
    DiffEnsures(ns, desired, actual);
  }

  /** Reconciling against a runtime that already holds exactly the desired containers only ensures external dependencies. */
  lemma UnchangedRuntimeOnlyEnsures(ns: string, cs: seq<Container>)
    requires UniqueNames(cs) && Diff(ns, cs, cs).Ok?
    ensures forall a :: a in Diff(ns, cs, cs).value ==> a.Ensure?
  {
    var plan, managed, current := Diff(ns, cs, cs).value, Managed(ns, cs), Index(cs);
    DiffCreates(ns, cs, cs);
    DiffRemoves(ns, cs, cs);
    ManagedOfUnique(ns, cs);
    IndexOfUnique(cs);
    forall a | a in plan ensures a.Ensure? {
      match a
      case Create(c) =>
        Config.IsEqualToReflexive(c.config);
        assert false;
      case Remove(x) =>
        Config.IsEqualToReflexive(x.config);
        assert false;
      case Ensure(_) =>
    }
  }

  /** Three containers of the namespace taking volumes from each other in a ring cannot be ordered, whatever already runs. */
  lemma RingOfThreeFails(ns: string, ring: seq<Container>, actual: seq<Container>)
    requires |ring| == 3 && AllInNamespace(ring, ns) && UniqueNames(ring)
    requires ring[1].name in ring[0].config.volumesFrom
    requires ring[2].name in ring[1].config.volumesFrom
    requires ring[0].name in ring[2].config.volumesFrom
    ensures Diff(ns, ring, actual).Err?
  {
    RingIsCycle(ns, ring);
    DiffFailsIffCycle(ns, ring, actual);
  }

  /** Three containers of the namespace, each taking volumes from the next, form a cycle. */
  lemma RingIsCycle(ns: string, ring: seq<Container>)
    requires |ring| == 3 && AllInNamespace(ring, ns) && UniqueNames(ring)
    requires ring[1].name in ring[0].config.volumesFrom
    requires ring[2].name in ring[1].config.volumesFrom
    requires ring[0].name in ring[2].config.volumesFrom
    ensures IsCycle(Managed(ns, ring), ring)
  {
    ManagedOfUnique(ns, ring);
    assert forall k :: 0 <= k < |ring| ==> ring[k] in ring;
  }

  /** The ring 1 -> 2 -> 3 -> 1 of namespace "test" is an error even though 1 and 3 already run unchanged. */
  lemma RingOfThreeExample()
    ensures var c1 := NewContainer("test", "1", [ContainerName("test", "2")]);
      var c2 := NewContainer("test", "2", [ContainerName("test", "3")]);
      var c3 := NewContainer("test", "3", [ContainerName("test", "1")]);
      Diff("test", [c1, c2, c3], [c1, c3]).Err?
  {
    var c1 := NewContainer("test", "1", [ContainerName("test", "2")]);
    var c2 := NewContainer("test", "2", [ContainerName("test", "3")]);
    var c3 := NewContainer("test", "3", [ContainerName("test", "1")]);
    RingOfThreeFails("test", [c1, c2, c3], [c1, c3]);
  }
}
