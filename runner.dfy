/**
 * The action runner: replays a plan against a client, one action at a time in plan order.
 * An action whose prerequisites (see Action.Prereqs) include a name whose action failed or
 * was skipped is itself skipped, and its own name is then marked failed, so a failure
 * forfeits everything that transitively depends on it while unrelated actions still run.
 * The run reports an error when any client call failed.
 */
module Runner {
  import opened Types

  /** What became of one action of a plan. */
  datatype Outcome = Succeeded | Failed | Skipped

  /** The error a run returns: the actions whose client call failed, in plan order. */
  datatype RunError = RunError(failures: seq<Action>)

  /**
   * The runner's bookkeeping after a prefix of the plan: the outcome of every action so far,
   * the names whose action did not succeed, the client calls made and the calls that failed.
   */
  datatype RunState = RunState(outcomes: seq<Outcome>, failed: set<ContainerName>, calls: seq<Action>, errors: seq<Action>)

  // ---------------------------------------------------------------------------
  // Specification of a run
  // ---------------------------------------------------------------------------

  /** The outcome of action a given the names already failed and the calls the client fails. */
  function OutcomeOf(a: Action, failed: set<ContainerName>, failures: set<Action>): Outcome {
    if a.Prereqs() * failed != {} then Skipped
    else if a in failures then Failed
    else Succeeded
  }

  /** The plan's actions whose outcome is one of keep, in plan order. */
  function Select(plan: seq<Action>, outcomes: seq<Outcome>, keep: set<Outcome>): (r: seq<Action>)
    requires |outcomes| == |plan|
    ensures |r| <= |plan|
  {
    if plan == [] then []
    else
      var n := |plan| - 1;
      Select(plan[..n], outcomes[..n], keep) + (if outcomes[n] in keep then [plan[n]] else [])
  }

  /** The runner's bookkeeping after one more action. */
  function Advance(st: RunState, a: Action, failures: set<Action>): RunState {
    var o := OutcomeOf(a, st.failed, failures);
    RunState(st.outcomes + [o],
             if o == Succeeded then st.failed else st.failed + {a.Target()},
             if o == Skipped then st.calls else st.calls + [a],
             if o == Failed then st.errors + [a] else st.errors)
  }

  /**
   * The bookkeeping after running the whole plan against a client that fails exactly the
   * calls in failures. ReplayFailed and ReplayCalls state what it holds.
   */
  function Replay(plan: seq<Action>, failures: set<Action>): (st: RunState)
    ensures |st.outcomes| == |plan|
  {
    if plan == [] then RunState([], {}, [], [])
    else
      var n := |plan| - 1;
      Advance(Replay(plan[..n], failures), plan[n], failures)
  }

  /**
   * Action j is tainted when an earlier action on one of its prerequisites failed at the
   * client or was itself tainted: the transitive closure of the failure cascade.
   */
  ghost predicate Tainted(plan: seq<Action>, failures: set<Action>, j: nat)
    requires j < |plan|
    decreases j
  {
    exists i :: 0 <= i < j && plan[i].Target() in plan[j].Prereqs() && (plan[i] in failures || Tainted(plan, failures, i))
  }

  // ---------------------------------------------------------------------------
  // The client and the runner
  // ---------------------------------------------------------------------------

  /**
   * A runtime client that records every call it receives and answers with an error exactly
   * for the scripted calls in failures.
   */
  class Client {
    /** The calls that return an error. */
    const failures: set<Action>
    /** The calls received so far, in order. */
    var log: seq<Action>

    constructor (failures: set<Action>)
      ensures this.failures == failures && log == []
    {
      this.failures := failures;
      log := [];
    }

    /** Realise a desired container; err is a non-nil error. */
    method CreateContainer(c: Container) returns (err: bool)
      modifies this
      ensures log == old(log) + [Create(c)]
      ensures err <==> Create(c) in failures
    {
      log := log + [Create(c)];
      err := Create(c) in failures;
    }

    /** Tear down an existing container. */
    method RemoveContainer(c: Container) returns (err: bool)
      modifies this
      ensures log == old(log) + [Remove(c)]
      ensures err <==> Remove(c) in failures
    {
      log := log + [Remove(c)];
      err := Remove(c) in failures;
    }

    /** Assert the presence of a container of another namespace without owning it. */
    method EnsureContainer(c: Container) returns (err: bool)
      modifies this
      ensures log == old(log) + [Ensure(c)]
      ensures err <==> Ensure(c) in failures
    {
      log := log + [Ensure(c)];
      err := Ensure(c) in failures;
    }
  }

  /** Runs plans against one client. */
  class DockerClientRunner {
    const client: Client

    constructor (client: Client)
      ensures this.client == client
    {
      this.client := client;
    }

    /**
     * Replays the plan: the client receives exactly the calls Replay makes, and the result
     * is an error, listing the failed calls, exactly when some call failed.
     */
    method Run(plan: seq<Action>) returns (err: Option<RunError>)
      modifies client
      ensures client.log == old(client.log) + Replay(plan, client.failures).calls
      ensures var errors := Replay(plan, client.failures).errors;
        err == if errors == [] then None else Some(RunError(errors))
    {
      var failed: set<ContainerName> := {};
      var errors: seq<Action> := [];
      var i := 0;
      while i < |plan|
        invariant 0 <= i <= |plan|
        invariant failed == Replay(plan[..i], client.failures).failed
        invariant errors == Replay(plan[..i], client.failures).errors
        invariant client.log == old(client.log) + Replay(plan[..i], client.failures).calls
      {
        var a := plan[i];
        ghost var before := Replay(plan[..i], client.failures);
        assert plan[..i + 1][..i] == plan[..i];
        ReplayLast(plan[..i + 1], client.failures);
        ghost var after := Replay(plan[..i + 1], client.failures);
        assert after == Advance(before, a, client.failures);
        if a.Prereqs() * failed != {} {
          failed := failed + {a.Target()};
        } else {
          var e := Invoke(a);
          if e {
            failed := failed + {a.Target()};
            errors := errors + [a];
          }
        }
        assert client.log == old(client.log) + after.calls;
        i := i + 1;
      }
      assert plan[..i] == plan;
      err := if errors == [] then None else Some(RunError(errors));
    }

    /** Sends one action to the client through the call of its kind. */
    method Invoke(a: Action) returns (err: bool)
      modifies client
      ensures client.log == old(client.log) + [a]
      ensures err <==> a in client.failures
    {
      match a {
        case Create(c) => err := client.CreateContainer(c);
        case Remove(c) => err := client.RemoveContainer(c);
        case Ensure(c) => err := client.EnsureContainer(c);
      }
    }
  }

  // ---------------------------------------------------------------------------
  // Properties of a run
  // ---------------------------------------------------------------------------

  /** Replaying a prefix of the plan gives the outcomes the whole replay gives that prefix. */
  lemma {:induction false} ReplayPrefix(plan: seq<Action>, failures: set<Action>, i: nat)
    requires i <= |plan|
    ensures Replay(plan[..i], failures).outcomes == Replay(plan, failures).outcomes[..i]
    decreases |plan| - i
  {
    if i < |plan| {
      var n := |plan| - 1;
      ReplayPrefix(plan[..n], failures, i);
      assert plan[..n][..i] == plan[..i];
      assert Replay(plan, failures).outcomes[..n] == Replay(plan[..n], failures).outcomes;
    } else {
      assert plan[..i] == plan;
    }
  }

  /** Action j's outcome is decided by the names failed before it. */
  lemma OutcomeStep(plan: seq<Action>, failures: set<Action>, j: nat)
    requires j < |plan|
    ensures Replay(plan, failures).outcomes[j] == OutcomeOf(plan[j], Replay(plan[..j], failures).failed, failures)
  {
    ReplayPrefix(plan, failures, j + 1);
    assert plan[..j + 1][..j] == plan[..j];
    ReplayLast(plan[..j + 1], failures);
  }

  /** The names failed before action j are the targets of the earlier actions that did not succeed. */
  lemma FailedBefore(plan: seq<Action>, failures: set<Action>, j: nat)
    requires j <= |plan|
    ensures var out := Replay(plan, failures).outcomes;
      forall n :: n in Replay(plan[..j], failures).failed <==>
        exists i :: 0 <= i < j && out[i] != Succeeded && plan[i].Target() == n
  {
    ReplayPrefix(plan, failures, j);
    ReplayFailed(plan[..j], failures);
    assert forall i :: 0 <= i < j ==> plan[..j][i] == plan[i];
  }

  /**
   * Action j is skipped exactly when an earlier action on one of its prerequisites did not
   * succeed; otherwise it fails exactly when the client fails it.
   */
  lemma OutcomeAt(plan: seq<Action>, failures: set<Action>, j: nat)
    requires j < |plan|
    ensures var out := Replay(plan, failures).outcomes;
      && (out[j] == Skipped <==>
            exists i :: 0 <= i < j && plan[i].Target() in plan[j].Prereqs() && out[i] != Succeeded)
      && (out[j] == Failed <==> out[j] != Skipped && plan[j] in failures)
  {
    var out := Replay(plan, failures).outcomes;
    var failed := Replay(plan[..j], failures).failed;
    OutcomeStep(plan, failures, j);
    FailedBefore(plan, failures, j);
    if out[j] == Skipped {
      var n :| n in plan[j].Prereqs() * failed;
      var i :| 0 <= i < j && out[i] != Succeeded && plan[i].Target() == n;
    }
    if i :| 0 <= i < j && plan[i].Target() in plan[j].Prereqs() && out[i] != Succeeded {
      assert plan[i].Target() in plan[j].Prereqs() * failed;
    }
  }

  /** The cascade in closed form: skipped iff tainted, failed iff untainted and failed by the client. */
  lemma {:induction false} OutcomeIsCascade(plan: seq<Action>, failures: set<Action>, j: nat)
    requires j < |plan|
    ensures Replay(plan, failures).outcomes[j] ==
      if Tainted(plan, failures, j) then Skipped
      else if plan[j] in failures then Failed
      else Succeeded
    decreases j
  {
    var out := Replay(plan, failures).outcomes;
    forall i | 0 <= i < j
      ensures out[i] != Succeeded <==> plan[i] in failures || Tainted(plan, failures, i)
    {
      OutcomeIsCascade(plan, failures, i);
    }
    OutcomeAt(plan, failures, j);
  }

  /** Every action that did not succeed goes back to a client call that failed, no later than it. */
  lemma {:induction false} FailureUpstream(plan: seq<Action>, failures: set<Action>, j: nat) returns (i: nat)
    requires j < |plan| && Replay(plan, failures).outcomes[j] != Succeeded
    ensures i <= j && Replay(plan, failures).outcomes[i] == Failed
    decreases j
  {
    OutcomeAt(plan, failures, j);
    if Replay(plan, failures).outcomes[j] == Failed {
      i := j;
    } else {
      var k :| 0 <= k < j && plan[k].Target() in plan[j].Prereqs() && Replay(plan, failures).outcomes[k] != Succeeded;
      i := FailureUpstream(plan, failures, k);
    }
  }

  /** A run reports an error exactly when the client fails one of the plan's actions. */
  lemma RunErrsIffSomeActionFails(plan: seq<Action>, failures: set<Action>)
    ensures Replay(plan, failures).errors != [] <==> exists j :: 0 <= j < |plan| && plan[j] in failures
  {
    var st := Replay(plan, failures);
    ReplayCalls(plan, failures);
    SelectMembers(plan, st.outcomes, {Failed});
    if j :| 0 <= j < |plan| && plan[j] in failures {
      OutcomeAt(plan, failures, j);
      var i := FailureUpstream(plan, failures, j);
      assert plan[i] in st.errors;
    }
    if st.errors != [] {
      assert st.errors[0] in st.errors;
      var j :| 0 <= j < |plan| && plan[j] == st.errors[0] && st.outcomes[j] == Failed;
      OutcomeAt(plan, failures, j);
    }
  }

  /** A client call is only made once every earlier action it depends on has succeeded. */
  lemma InvokedAfterPrerequisites(plan: seq<Action>, failures: set<Action>, i: nat, j: nat)
    requires i < j < |plan| && plan[i].Target() in plan[j].Prereqs()
    requires Replay(plan, failures).outcomes[j] != Skipped
    ensures Replay(plan, failures).outcomes[i] == Succeeded
  {
    OutcomeAt(plan, failures, j);
  }

  /** When the client fails none of the plan's actions, every action is called, in order, without error. */
  lemma RunWithoutFailures(plan: seq<Action>, failures: set<Action>)
    requires forall j :: 0 <= j < |plan| ==> plan[j] !in failures
    ensures Replay(plan, failures).calls == plan
    ensures Replay(plan, failures).errors == []
  {
    var out := Replay(plan, failures).outcomes;
    forall j | 0 <= j < |plan| ensures out[j] == Succeeded {
      if out[j] != Succeeded {
        var i := FailureUpstream(plan, failures, j);
        OutcomeAt(plan, failures, i);
      }
    }
    ReplayCalls(plan, failures);
    SelectAll(plan, out, {Succeeded, Failed});
    RunErrsIffSomeActionFails(plan, failures);
  }

  /** Selecting on outcomes that are all kept returns the whole plan. */
  lemma {:induction false} SelectAll(plan: seq<Action>, outcomes: seq<Outcome>, keep: set<Outcome>)
    requires |outcomes| == |plan| && forall j :: 0 <= j < |plan| ==> outcomes[j] in keep
    ensures Select(plan, outcomes, keep) == plan
  {
    if plan != [] {
      var n := |plan| - 1;
      SelectAll(plan[..n], outcomes[..n], keep);
      assert plan == plan[..n] + [plan[n]];
    }
  }

  /** A skipped action never reaches the client, unless the same action also occurs elsewhere in the plan unskipped. */
  lemma SkippedNotCalled(plan: seq<Action>, failures: set<Action>, j: nat)
    requires j < |plan| && Replay(plan, failures).outcomes[j] == Skipped
    requires forall k :: 0 <= k < |plan| && k != j ==> plan[k] != plan[j]
    ensures plan[j] !in Replay(plan, failures).calls
  {
    ReplayCalls(plan, failures);
    SelectMembers(plan, Replay(plan, failures).outcomes, {Succeeded, Failed});
  }

  /** An action is selected exactly when its outcome is kept. */
  lemma {:induction false} SelectMembers(plan: seq<Action>, outcomes: seq<Outcome>, keep: set<Outcome>)
    requires |outcomes| == |plan|
    ensures forall a :: a in Select(plan, outcomes, keep) <==>
      exists j :: 0 <= j < |plan| && plan[j] == a && outcomes[j] in keep
  {
    if plan != [] {
      var n := |plan| - 1;
      SelectMembers(plan[..n], outcomes[..n], keep);
      forall a ensures a in Select(plan, outcomes, keep) <==>
        exists j :: 0 <= j < |plan| && plan[j] == a && outcomes[j] in keep
      {
        if j :| 0 <= j < |plan| && plan[j] == a && outcomes[j] in keep {
          if j < n {
            assert plan[..n][j] == a && outcomes[..n][j] in keep;
          }
        }
        if a in Select(plan[..n], outcomes[..n], keep) {
          var j :| 0 <= j < n && plan[..n][j] == a && outcomes[..n][j] in keep;
          assert plan[j] == a && outcomes[j] in keep;
        }
      }
    }
  }

  /** Replaying one more action appends its outcome and leaves the earlier ones alone. */
  lemma ReplayLast(plan: seq<Action>, failures: set<Action>)
    requires plan != []
    ensures var n := |plan| - 1;
      Replay(plan, failures) == Advance(Replay(plan[..n], failures), plan[n], failures)
    ensures var n := |plan| - 1;
      Replay(plan, failures).outcomes[..n] == Replay(plan[..n], failures).outcomes
  {
  }

  /** The failed names are the targets of the actions that did not succeed. */
  lemma {:induction false} ReplayFailed(plan: seq<Action>, failures: set<Action>)
    ensures var st := Replay(plan, failures);
      forall n :: n in st.failed <==>
        exists j :: 0 <= j < |plan| && st.outcomes[j] != Succeeded && plan[j].Target() == n
  {
    if plan != [] {
      var k := |plan| - 1;
      var prev, st := Replay(plan[..k], failures), Replay(plan, failures);
      ReplayFailed(plan[..k], failures);
      ReplayLast(plan, failures);
      forall n ensures n in st.failed <==>
        exists j :: 0 <= j < |plan| && st.outcomes[j] != Succeeded && plan[j].Target() == n
      {
        if n in prev.failed {
          var j :| 0 <= j < k && prev.outcomes[j] != Succeeded && plan[..k][j].Target() == n;
          assert st.outcomes[j] == prev.outcomes[j];
        }
        if j :| 0 <= j < |plan| && st.outcomes[j] != Succeeded && plan[j].Target() == n {
          if j < k {
            assert prev.outcomes[j] == st.outcomes[j] && plan[..k][j] == plan[j];
          }
        }
      }
    }
  }

  /** The calls are the actions not skipped and the errors those that failed, in plan order. */
  lemma {:induction false} ReplayCalls(plan: seq<Action>, failures: set<Action>)
    ensures var st := Replay(plan, failures);
      && st.calls == Select(plan, st.outcomes, {Succeeded, Failed})
      && st.errors == Select(plan, st.outcomes, {Failed})
  {
    if plan != [] {
      var k := |plan| - 1;
      ReplayCalls(plan[..k], failures);
      ReplayLast(plan, failures);
    }
  }

  /** In a plan without repeated actions, an action is sent to the client exactly when it is not tainted. */
  lemma CalledIffUntainted(plan: seq<Action>, failures: set<Action>, j: nat)
    requires j < |plan|
    requires forall i, k :: 0 <= i < k < |plan| ==> plan[i] != plan[k]
    ensures plan[j] in Replay(plan, failures).calls <==> !Tainted(plan, failures, j)
  {
    var st := Replay(plan, failures);
    ReplayCalls(plan, failures);
    SelectMembers(plan, st.outcomes, {Succeeded, Failed});
    assert plan[j] in st.calls <==> st.outcomes[j] != Skipped;
    OutcomeIsCascade(plan, failures, j);
  }

  /** When no action waits on the target of an earlier one, every action is sent to the client, in order. */
  lemma IndependentAllCalled(plan: seq<Action>, failures: set<Action>)
    requires forall i, j :: 0 <= i < j < |plan| ==> plan[i].Target() !in plan[j].Prereqs()
    ensures Replay(plan, failures).calls == plan
  {
    var out := Replay(plan, failures).outcomes;
    forall j | 0 <= j < |plan| ensures out[j] in {Succeeded, Failed} {
      OutcomeAt(plan, failures, j);
    }
    ReplayCalls(plan, failures);
    SelectAll(plan, out, {Succeeded, Failed});
  }
}
