/**
 * The dependency graph over containers: indexing containers by name, the internal
 * volumes-from edges, a dependencies-first order of the desired containers, and the
 * cycles that make such an order impossible.
 */
module Graph {
  import opened Types

  // ---------------------------------------------------------------------------
  // Indexing by name
  // ---------------------------------------------------------------------------

  /** i is the last position of cs holding its name. */
  predicate LastOfName(cs: seq<Container>, i: nat)
    requires i < |cs|
  {
    forall j :: i < j < |cs| ==> cs[j].name != cs[i].name
  }

  /**
   * The containers keyed by name, filled in list order, so that a later container with a
   * name replaces an earlier one.
   */
  function Index(cs: seq<Container>): (m: map<ContainerName, Container>)
    ensures m.Keys == Names(cs)
    ensures forall n :: n in m ==> m[n] in cs && m[n].name == n
    ensures forall i :: 0 <= i < |cs| && LastOfName(cs, i) ==> m[cs[i].name] == cs[i]
  {
    if cs == [] then map[]
    else
      var init, last := cs[..|cs| - 1], cs[|cs| - 1];
      var m := Index(init)[last.name := last];
      IndexStep(cs, init, last, Index(init), m);
      m
  }

  lemma IndexStep(cs: seq<Container>, init: seq<Container>, last: Container,
                  prev: map<ContainerName, Container>, m: map<ContainerName, Container>)
    requires cs == init + [last] && m == prev[last.name := last]
    requires prev.Keys == Names(init)
    requires forall n :: n in prev ==> prev[n] in init && prev[n].name == n
    requires forall i :: 0 <= i < |init| && LastOfName(init, i) ==> prev[init[i].name] == init[i]
    ensures m.Keys == Names(cs)
    ensures forall n :: n in m ==> m[n] in cs && m[n].name == n
    ensures forall i :: 0 <= i < |cs| && LastOfName(cs, i) ==> m[cs[i].name] == cs[i]
  {
    assert forall c :: c in cs <==> c in init || c == last;
    forall i | 0 <= i < |cs| && LastOfName(cs, i) ensures m[cs[i].name] == cs[i] {
      if i < |init| {
        assert cs[i] == init[i];
        assert cs[|cs| - 1].name != cs[i].name;
        assert LastOfName(init, i) by {
          forall j | i < j < |init| ensures init[j].name != init[i].name {
            assert init[j] == cs[j];
          }
        }
      }
    }
  }

  /** With unique names, every container is found under its own name. */
  lemma IndexOfUnique(cs: seq<Container>)
    requires UniqueNames(cs)
    ensures forall c :: c in cs ==> c.name in Index(cs) && Index(cs)[c.name] == c
  {
    forall c | c in cs ensures c.name in Index(cs) && Index(cs)[c.name] == c {
      var i :| 0 <= i < |cs| && cs[i] == c;
      assert LastOfName(cs, i);
    }
  }

  /** The containers of cs whose name is not n, in order. */
  function WithoutName(cs: seq<Container>, n: ContainerName): (r: seq<Container>)
    ensures forall c :: c in r <==> c in cs && c.name != n
    ensures UniqueNames(cs) ==> UniqueNames(r)
  {
    if cs == [] then []
    else
      var rest := WithoutName(cs[1..], n);
      var r := if cs[0].name == n then rest else [cs[0]] + rest;
      assert forall c :: c in cs <==> c == cs[0] || c in cs[1..];
      assert UniqueNames(cs) ==> cs[0].name !in Names(cs[1..]);
      r
  }

  /** One container per name: the one the index keeps. */
  function Dedup(cs: seq<Container>): (r: seq<Container>)
    ensures UniqueNames(r)
    ensures forall c :: c in r <==> c.name in Index(cs) && Index(cs)[c.name] == c
  {
    if cs == [] then []
    else
      var init, last := cs[..|cs| - 1], cs[|cs| - 1];
      var kept := WithoutName(Dedup(init), last.name);
      assert last.name !in Names(kept);
      kept + [last]
  }

  lemma DedupNames(cs: seq<Container>)
    ensures Names(Dedup(cs)) == Names(cs)
  {
    var r := Dedup(cs);
    forall n | n in Names(cs) ensures n in Names(r) {
      assert Index(cs)[n] in r;
    }
  }

  // ---------------------------------------------------------------------------
  // Internal edges and the dependencies-first order
  // ---------------------------------------------------------------------------

  /** c takes volumes from d inside its own namespace: an internal dependency edge. */
  predicate DependsOn(c: Container, d: Container) {
    d.name in c.config.volumesFrom && d.name.namespace == c.name.namespace
  }

  /** No container of cs is an internal dependency of c. */
  predicate Ready(c: Container, cs: seq<Container>) {
    forall d :: d in cs ==> !DependsOn(c, d)
  }

  /** Every internal dependency within the sequence comes before its dependant. */
  predicate Topological(ord: seq<Container>) {
    forall i, j :: 0 <= i < |ord| && 0 <= j < |ord| && DependsOn(ord[j], ord[i]) ==> i < j
  }

  /** A non-empty set of containers none of which can go first: each depends on another of them. */
  predicate Stuck(s: seq<Container>) {
    |s| > 0 && forall c {:trigger Ready(c, s)} :: c in s ==> !Ready(c, s)
  }

  /** The first position from `from` on whose container is ready, or |cs| if there is none. */
  function FirstReady(cs: seq<Container>, from: nat): (i: nat)
    requires from <= |cs|
    ensures from <= i <= |cs|
    ensures i < |cs| ==> Ready(cs[i], cs)
    ensures forall k :: from <= k < i ==> !Ready(cs[k], cs)
    decreases |cs| - from
  {
    if from == |cs| then from
    else if Ready(cs[from], cs) then from
    else FirstReady(cs, from + 1)
  }

  /**
   * Orders cs dependencies first, repeatedly taking the first container that depends on
   * none of those still unordered; when none can be taken the remaining ones are returned
   * as the error.
   */
  function TopoOrder(cs: seq<Container>): (r: Result<seq<Container>, seq<Container>>)
    ensures r.Ok? ==> multiset(r.value) == multiset(cs) && Topological(r.value)
    ensures r.Err? ==> Stuck(r.error) && multiset(r.error) <= multiset(cs)
    decreases |cs|
  {
    if cs == [] then Ok([])
    else
      var i := FirstReady(cs, 0);
      if i == |cs| then
        NoneReadyIsStuck(cs);
        Err(cs)
      else
        var rest := cs[..i] + cs[i + 1..];
        RemoveAtMultiset(cs, i);
        match TopoOrder(rest)
        case Ok(ord) =>
          TopologicalCons(cs[i], ord, cs);
          Ok([cs[i]] + ord)
        case Err(e) => Err(e)
  }

  lemma NoneReadyIsStuck(cs: seq<Container>)
    requires |cs| > 0 && forall k :: 0 <= k < |cs| ==> !Ready(cs[k], cs)
    ensures Stuck(cs)
  {
    forall c | c in cs ensures !Ready(c, cs) {
      var k :| 0 <= k < |cs| && cs[k] == c;
    }
  }

  lemma RemoveAtMultiset(cs: seq<Container>, i: nat)
    requires i < |cs|
    ensures multiset(cs) == multiset(cs[..i] + cs[i + 1..]) + multiset{cs[i]}
  {
    assert cs == cs[..i] + [cs[i]] + cs[i + 1..];
  }

  lemma TopologicalCons(h: Container, ord: seq<Container>, cs: seq<Container>)
    requires Topological(ord) && Ready(h, cs) && h in cs
    requires multiset(ord) <= multiset(cs)
    ensures Topological([h] + ord)
  {
    var r := [h] + ord;
    forall i, j | 0 <= i < |r| && 0 <= j < |r| && DependsOn(r[j], r[i]) ensures i < j {
      if i > 0 {
        assert r[i] in multiset(ord);
        if j > 0 {
          assert DependsOn(ord[j - 1], ord[i - 1]);
        }
      }
    }
  }

  // ---------------------------------------------------------------------------
  // Cycles
  // ---------------------------------------------------------------------------

  /** p is a closed path of internal edges through containers of cs: p[0] -> p[1] -> ... -> p[0]. */
  ghost predicate IsCycle(cs: seq<Container>, p: seq<Container>) {
    && |p| > 0
    && (forall k :: 0 <= k < |p| ==> p[k] in cs)
    && (forall k :: 0 <= k < |p| - 1 ==> DependsOn(p[k], p[k + 1]))
    && DependsOn(p[|p| - 1], p[0])
  }

  function IndexOf(s: seq<Container>, x: Container): (i: nat)
    requires x in s
    ensures i < |s| && s[i] == x
  {
    if s[0] == x then 0 else 1 + IndexOf(s[1..], x)
  }

  lemma {:induction false} ChainDescends(ord: seq<Container>, p: seq<Container>, k: nat)
    requires Topological(ord)
    requires forall m :: 0 <= m < |p| ==> p[m] in ord
    requires forall m :: 0 <= m < |p| - 1 ==> DependsOn(p[m], p[m + 1])
    requires 0 < k < |p|
    ensures IndexOf(ord, p[k]) < IndexOf(ord, p[0])
    decreases k
  {
    var i, j := IndexOf(ord, p[k]), IndexOf(ord, p[k - 1]);
    assert DependsOn(ord[j], ord[i]) by {
      assert DependsOn(p[k - 1], p[k]);
    }
    if k > 1 {
      ChainDescends(ord, p, k - 1);
    }
  }

  /** A cycle among the containers makes every dependencies-first order impossible. */
  lemma CycleBlocksOrder(cs: seq<Container>, p: seq<Container>)
    requires IsCycle(cs, p)
    ensures TopoOrder(cs).Err?
  {
    var r := TopoOrder(cs);
    if r.Ok? {
      var ord := r.value;
      forall m | 0 <= m < |p| ensures p[m] in ord {
        assert p[m] in multiset(cs);
      }
      var last := |p| - 1;
      var i, j := IndexOf(ord, p[0]), IndexOf(ord, p[last]);
      assert DependsOn(ord[j], ord[i]);
      if last > 0 {
        ChainDescends(ord, p, last);
      }
      assert false;
    }
  }

  /** A walk of n edges inside a stuck set. */
  lemma {:induction false} StuckWalk(s: seq<Container>, n: nat) returns (w: seq<Container>)
    requires Stuck(s)
    ensures |w| == n + 1
    ensures forall k :: 0 <= k < |w| ==> w[k] in s
    ensures forall k :: 0 <= k < |w| - 1 ==> DependsOn(w[k], w[k + 1])
  {
    if n == 0 {
      w := [s[0]];
    } else {
      var u := StuckWalk(s, n - 1);
      var last := u[|u| - 1];
      assert !Ready(last, s);
      var d :| d in s && DependsOn(last, d);
      w := u + [d];
      forall k | 0 <= k < |w| ensures w[k] in s {
        if k < |u| {
          assert w[k] == u[k];
        }
      }
      forall k | 0 <= k < |w| - 1 ensures DependsOn(w[k], w[k + 1]) {
        assert w[k] == u[k];
        if k < |u| - 1 {
          assert w[k + 1] == u[k + 1];
        }
      }
    }
  }

  lemma {:induction false} SetOfSeqSize(s: seq<Container>)
    ensures |set c | c in s| <= |s|
  {
    if s != [] {
      SetOfSeqSize(s[1..]);
      assert (set c | c in s) == (set c | c in s[1..]) + {s[0]};
    }
  }

  /** A sequence longer than the set it draws from repeats an element. */
  lemma {:induction false} Pigeonhole(w: seq<Container>, from: set<Container>) returns (i: nat, j: nat)
    requires forall k :: 0 <= k < |w| ==> w[k] in from
    requires |w| > |from|
    ensures i < j < |w| && w[i] == w[j]
  {
    if w[0] in w[1..] {
      i := 0;
      j := 1 + IndexOf(w[1..], w[0]);
    } else {
      var rest := w[1..];
      var smaller := from - {w[0]};
      assert forall k :: 0 <= k < |rest| ==> rest[k] in smaller by {
        forall k | 0 <= k < |rest| ensures rest[k] in smaller {
          assert rest[k] == w[k + 1];
          assert rest[k] != w[0];
        }
      }
      var i', j' := Pigeonhole(rest, smaller);
      i, j := i' + 1, j' + 1;
    }
  }

  /** A stuck set contains a cycle. */
  lemma StuckHasCycle(s: seq<Container>) returns (p: seq<Container>)
    requires Stuck(s)
    ensures IsCycle(s, p)
  {
    var w := StuckWalk(s, |s|);
    SetOfSeqSize(s);
    var i, j := Pigeonhole(w, set c | c in s);
    p := w[i..j];
    forall k | 0 <= k < |p| ensures p[k] in s {
      assert p[k] == w[i + k];
    }
    forall k | 0 <= k < |p| - 1 ensures DependsOn(p[k], p[k + 1]) {
      assert p[k] == w[i + k] && p[k + 1] == w[i + k + 1];
    }
    assert p[|p| - 1] == w[j - 1];
    assert DependsOn(w[j - 1], w[j]);
  }

  /** The order fails exactly when the containers' internal edges contain a cycle. */
  lemma TopoOrderFailsIffCycle(cs: seq<Container>)
    ensures TopoOrder(cs).Err? <==> exists p :: IsCycle(cs, p)
  {
    var r := TopoOrder(cs);
    if r.Err? {
      var p := StuckHasCycle(r.error);
      forall k | 0 <= k < |p| ensures p[k] in cs {
        assert p[k] in multiset(r.error);
      }
      assert IsCycle(cs, p);
    } else {
      forall p | IsCycle(cs, p) ensures false {
        CycleBlocksOrder(cs, p);
      }
    }
  }
}
