/** Downstream closure: every node that depends, through one or more
    dependency edges, on a seed. */
module Closure {
  import opened Wrappers
  import opened Manifest

  /** `child` is a node of `g` that lists `parent` among its dependencies. */
  predicate DependsOn(g: Snapshot, child: string, parent: string)
  {
    child in g && parent in g[child].dependsOn
  }

  /** A dependency chain: each element after the first is a node that depends
      on the element before it. The first element need not be a node of `g`. */
  ghost predicate IsChain(g: Snapshot, p: seq<string>)
  {
    |p| >= 2 && forall i :: 0 <= i < |p| - 1 ==> DependsOn(g, p[i + 1], p[i])
  }

  /** `id` is reachable from a seed in one or more reverse-dependency steps. */
  ghost predicate Reaches(g: Snapshot, seeds: set<string>, id: string)
  {
    exists p :: IsChain(g, p) && p[0] in seeds && p[|p| - 1] == id
  }

  /** One scan of the program: the nodes of `g` that directly depend on some
      id of `s`. */
  function DirectDependents(g: Snapshot, s: set<string>): (r: set<string>)
    ensures r <= g.Keys
  {
    set id | id in g && exists d :: d in s && DependsOn(g, id, d)
  }

  /** One scan finds exactly the ends of one-step chains from `s`. */
  lemma DirectIsOneStep(g: Snapshot, s: set<string>, id: string)
    ensures id in DirectDependents(g, s) <==> exists p :: IsChain(g, p) && |p| == 2 && p[0] in s && p[1] == id
  {
    if id in DirectDependents(g, s) {
      var d :| d in s && DependsOn(g, id, d);
      assert IsChain(g, [d, id]);
    }
    if p :| IsChain(g, p) && |p| == 2 && p[0] in s && p[1] == id {
      assert DependsOn(g, p[1], p[0]);
    }
  }

  /** A direct dependent of a seed is reachable. */
  lemma DirectIsReached(g: Snapshot, seeds: set<string>, id: string)
    requires id in DirectDependents(g, seeds)
    ensures Reaches(g, seeds, id)
  {
    var d :| d in seeds && DependsOn(g, id, d);
    assert IsChain(g, [d, id]);
  }

  /** A node depending on a reachable node is reachable. */
  lemma ExtendReach(g: Snapshot, seeds: set<string>, v: string, id: string)
    requires Reaches(g, seeds, v) && DependsOn(g, id, v)
    ensures Reaches(g, seeds, id)
  {
    var p :| IsChain(g, p) && p[0] in seeds && p[|p| - 1] == v;
    assert IsChain(g, p + [id]);
  }

  /** A set that holds the direct dependents of the seeds and is closed under
      taking direct dependents holds everything reachable. */
  lemma {:induction false} ClosedSetHoldsReach(g: Snapshot, seeds: set<string>, vs: set<string>, id: string)
    requires DirectDependents(g, seeds) <= vs
    requires DirectDependents(g, vs) <= vs
    requires Reaches(g, seeds, id)
    ensures id in vs
  {
    var p :| IsChain(g, p) && p[0] in seeds && p[|p| - 1] == id;
    assert p[1] in DirectDependents(g, seeds);
    var k := 1;
    while k < |p| - 1
      invariant 1 <= k <= |p| - 1
      invariant p[k] in vs
    {
      assert DependsOn(g, p[k + 1], p[k]);
      assert p[k + 1] in DirectDependents(g, vs);
      k := k + 1;
    }
  }

  /** Adding ids the set lacks shrinks what is left to visit. */
  lemma VisitShrinks(keys: set<string>, visited: set<string>, next: set<string>)
    requires next <= keys && next != {} && next !! visited
    ensures |keys - (visited + next)| < |keys - visited|
  {
    assert keys - visited == (keys - (visited + next)) + next;
  }

  /** Worklist exploration: `visited` holds what is known reachable, `frontier`
      the part of it whose dependents have not been looked at yet. Each round
      visits the unvisited direct dependents of the frontier; it stops when a
      round finds nothing new, which happens at the latest once every key is
      visited, so cycles in the graph do no harm. */
  function Explore(g: Snapshot, ghost seeds: set<string>, visited: set<string>, frontier: set<string>): (r: set<string>)
    requires frontier <= visited <= g.Keys
    requires DirectDependents(g, seeds) <= visited
    requires DirectDependents(g, visited - frontier) <= visited
    requires forall v :: v in visited ==> Reaches(g, seeds, v)
    ensures r <= g.Keys
    ensures forall id :: id in r <==> Reaches(g, seeds, id)
    decreases |g.Keys - visited|
  {
    var next := DirectDependents(g, frontier) - visited;
    assert DirectDependents(g, visited) <= visited + next by {
      forall id | id in DirectDependents(g, visited)
        ensures id in visited + next
      {
        var d :| d in visited && DependsOn(g, id, d);
        if d !in frontier {
          assert id in DirectDependents(g, visited - frontier);
        }
      }
    }
    if next == {} then
      assert forall id :: Reaches(g, seeds, id) ==> id in visited by {
        forall id | Reaches(g, seeds, id)
          ensures id in visited
        {
          ClosedSetHoldsReach(g, seeds, visited, id);
        }
      }
      visited
    else
      assert forall v :: v in next ==> Reaches(g, seeds, v) by {
        forall v | v in next
          ensures Reaches(g, seeds, v)
        {
          var d :| d in frontier && DependsOn(g, v, d);
          ExtendReach(g, seeds, d, v);
        }
      }
      assert (visited + next) - next == visited;
      VisitShrinks(g.Keys, visited, next);
      Explore(g, seeds, visited + next, next)
  }

  /** The downstream closure of `seeds` in `g`: exactly the ids reachable from a
      seed by one or more reverse-dependency steps. A seed is in it only when
      it is itself reachable that way. */
  function Downstream(g: Snapshot, seeds: set<string>): (r: set<string>)
    ensures r <= g.Keys
    ensures forall id :: id in r <==> Reaches(g, seeds, id)
  {
    var start := DirectDependents(g, seeds);
    assert forall v :: v in start ==> Reaches(g, seeds, v) by {
      forall v | v in start
        ensures Reaches(g, seeds, v)
      {
        DirectIsReached(g, seeds, v);
      }
    }
    assert start - start == {};
    Explore(g, seeds, start, start)
  }

  /** Joining a chain that ends where another begins gives a chain. */
  lemma ConcatChains(g: Snapshot, q: seq<string>, p: seq<string>)
    requires IsChain(g, q) && IsChain(g, p) && q[|q| - 1] == p[0]
    ensures IsChain(g, q + p[1..])
  {
    var c := q + p[1..];
    forall i | 0 <= i < |c| - 1
      ensures DependsOn(g, c[i + 1], c[i])
    {
      if i >= |q| - 1 {
        assert c[i] == p[i - |q| + 1] && c[i + 1] == p[i - |q| + 2];
      }
    }
  }

  /** More seeds never reach fewer nodes. */
  lemma DownstreamMonotone(g: Snapshot, s: set<string>, t: set<string>)
    requires s <= t
    ensures Downstream(g, s) <= Downstream(g, t)
  {
    forall id | id in Downstream(g, s)
      ensures id in Downstream(g, t)
    {
      var p :| IsChain(g, p) && p[0] in s && p[|p| - 1] == id;
      assert p[0] in t;
    }
  }

  /** The closure is closed: whatever depends on a node of it is in it. */
  lemma DownstreamClosed(g: Snapshot, s: set<string>)
    ensures DirectDependents(g, Downstream(g, s)) <= Downstream(g, s)
  {
    forall id | id in DirectDependents(g, Downstream(g, s))
      ensures id in Downstream(g, s)
    {
      var d :| d in Downstream(g, s) && DependsOn(g, id, d);
      ExtendReach(g, s, d, id);
    }
  }

  /** Closing again, with the seeds added back, changes nothing. */
  lemma DownstreamIdempotent(g: Snapshot, s: set<string>)
    ensures Downstream(g, Downstream(g, s) + s) == Downstream(g, s)
  {
    DownstreamMonotone(g, s, Downstream(g, s) + s);
    forall id | id in Downstream(g, Downstream(g, s) + s)
      ensures id in Downstream(g, s)
    {
      var p :| IsChain(g, p) && p[0] in Downstream(g, s) + s && p[|p| - 1] == id;
      if p[0] !in s {
        var q :| IsChain(g, q) && q[0] in s && q[|q| - 1] == p[0];
        ConcatChains(g, q, p);
        assert (q + p[1..])[|q + p[1..]| - 1] == id;
      }
    }
  }

  /** One rescan step: the closure is the direct dependents plus the closure
      of the direct dependents. */
  lemma DownstreamUnfold(g: Snapshot, s: set<string>)
    ensures Downstream(g, s) == DirectDependents(g, s) + Downstream(g, DirectDependents(g, s))
  {
    var direct := DirectDependents(g, s);
    forall id | id in Downstream(g, s)
      ensures id in direct + Downstream(g, direct)
    {
      var p :| IsChain(g, p) && p[0] in s && p[|p| - 1] == id;
      assert p[1] in direct;
      if |p| > 2 {
        assert IsChain(g, p[1..]);
      }
    }
    forall id | id in direct
      ensures id in Downstream(g, s)
    {
      DirectIsReached(g, s, id);
    }
    forall id | id in Downstream(g, direct)
      ensures id in Downstream(g, s)
    {
      var p :| IsChain(g, p) && p[0] in direct && p[|p| - 1] == id;
      var d :| d in s && DependsOn(g, p[0], d);
      assert IsChain(g, [d] + p);
    }
  }

  /** Without direct dependents there is nothing downstream at all. */
  lemma NoDirectNoDownstream(g: Snapshot, s: set<string>)
    requires DirectDependents(g, s) == {}
    ensures Downstream(g, s) == {}
  {
  }

  /** The program's own algorithm: scan every node for a dependency in `base`,
      then rescan from what was found, recursively, until a scan finds nothing.
      The recursion has no bound of its own: when a cycle is reachable from
      `base` every scan finds something, and the program fails once Python's
      recursion limit is hit. Here it gets `fuel` and gives `None` when the fuel
      runs out. Whenever it stops it agrees with the worklist closure. */
  function RescanDownstream(g: Snapshot, base: set<string>, fuel: nat): (r: Option<set<string>>)
    ensures r.Some? ==> r.value == Downstream(g, base)
    decreases fuel
  {
    var downstream := DirectDependents(g, base);
    if downstream == {} then
      NoDirectNoDownstream(g, base);
      Some({})
    else if fuel == 0 then
      None
    else
      match RescanDownstream(g, downstream, fuel - 1)
      case None => None
      case Some(further) =>
        DownstreamUnfold(g, base);
        Some(downstream + further)
  }

  /** No dependency chain leads from a node back to itself. */
  ghost predicate Acyclic(g: Snapshot)
  {
    forall p :: IsChain(g, p) ==> p[0] != p[|p| - 1]
  }

  /** The ids found by the `k`-th nested scan from `s`. */
  function Layer(g: Snapshot, s: set<string>, k: nat): set<string>
    decreases k
  {
    if k == 0 then s else Layer(g, DirectDependents(g, s), k - 1)
  }

  /** Every id of layer `k` ends a chain of `k` steps from `s`. */
  lemma {:induction false} LayerHasChain(g: Snapshot, s: set<string>, k: nat, id: string)
    requires k >= 1 && id in Layer(g, s, k)
    ensures exists p :: IsChain(g, p) && |p| == k + 1 && p[0] in s && p[k] == id
    decreases k
  {
    var direct := DirectDependents(g, s);
    if k == 1 {
      var d :| d in s && DependsOn(g, id, d);
      assert IsChain(g, [d, id]);
    } else {
      LayerHasChain(g, direct, k - 1, id);
      var q :| IsChain(g, q) && |q| == k && q[0] in direct && q[k - 1] == id;
      var d :| d in s && DependsOn(g, q[0], d);
      assert IsChain(g, [d] + q);
    }
  }

  /** Once a scan finds nothing, the rescan returns with the fuel it had. */
  lemma {:induction false} EmptyLayerStops(g: Snapshot, base: set<string>, fuel: nat)
    requires Layer(g, base, fuel + 1) == {}
    ensures RescanDownstream(g, base, fuel).Some?
    decreases fuel
  {
    if DirectDependents(g, base) != {} && fuel > 0 {
      EmptyLayerStops(g, DirectDependents(g, base), fuel - 1);
    }
  }

  /** A repetition-free sequence drawn from `keys` is no longer than `keys`. */
  lemma {:induction false} DistinctBound(q: seq<string>, keys: set<string>)
    requires forall i, j :: 0 <= i < j < |q| ==> q[i] != q[j]
    requires forall i :: 0 <= i < |q| ==> q[i] in keys
    ensures |q| <= |keys|
  {
    if q != [] {
      DistinctBound(q[1..], keys - {q[0]});
    }
  }

  /** A stretch of two or more consecutive elements of a chain is a chain. */
  lemma SubChain(g: Snapshot, p: seq<string>, a: nat, b: nat)
    requires IsChain(g, p) && a + 2 <= b <= |p|
    ensures IsChain(g, p[a..b])
    ensures p[a..b][0] == p[a] && p[a..b][b - a - 1] == p[b - 1]
  {
    var c := p[a..b];
    forall k | 0 <= k < |c| - 1
      ensures DependsOn(g, c[k + 1], c[k])
    {
      assert c[k] == p[a + k] && c[k + 1] == p[a + k + 1];
    }
  }

  /** In an acyclic graph no node repeats after the first element of a chain. */
  lemma ChainTailDistinct(g: Snapshot, p: seq<string>)
    requires Acyclic(g) && IsChain(g, p)
    ensures forall i, j :: 1 <= i < j < |p| ==> p[i] != p[j]
  {
    forall i, j | 1 <= i < j < |p|
      ensures p[i] != p[j]
    {
      NoRepeat(g, p, i, j);
    }
  }

  /** Two positions of a chain in an acyclic graph hold different nodes. */
  lemma NoRepeat(g: Snapshot, p: seq<string>, i: nat, j: nat)
    requires Acyclic(g) && IsChain(g, p) && i < j < |p|
    ensures p[i] != p[j]
  {
    SubChain(g, p, i, j + 1);
    AcyclicEnds(g, p[i..j + 1]);
  }

  /** In an acyclic graph a chain ends somewhere other than where it starts. */
  lemma AcyclicEnds(g: Snapshot, c: seq<string>)
    requires Acyclic(g) && IsChain(g, c)
    ensures c[0] != c[|c| - 1]
  {
  }

  /** Every element of a chain after the first is a node of the graph. */
  lemma ChainTailInKeys(g: Snapshot, p: seq<string>)
    requires IsChain(g, p)
    ensures forall i :: 1 <= i < |p| ==> p[i] in g.Keys
  {
    forall i | 1 <= i < |p|
      ensures p[i] in g.Keys
    {
      assert DependsOn(g, p[i], p[i - 1]);
    }
  }

  /** In an acyclic graph a chain visits each node at most once, so it has at
      most as many steps as the graph has nodes. */
  lemma ChainBound(g: Snapshot, p: seq<string>)
    requires Acyclic(g) && IsChain(g, p)
    ensures |p| - 1 <= |g.Keys|
  {
    ChainTailDistinct(g, p);
    ChainTailInKeys(g, p);
    DistinctBound(p[1..], g.Keys);
  }

  /** On an acyclic graph the program's rescan always finishes, within as many
      rounds as there are nodes, and returns exactly the closure. */
  lemma RescanTerminatesWhenAcyclic(g: Snapshot, base: set<string>)
    requires Acyclic(g)
    ensures RescanDownstream(g, base, |g.Keys|) == Some(Downstream(g, base))
  {
    var n := |g.Keys|;
    var last := Layer(g, base, n + 1);
    if last != {} {
      var id :| id in last;
      LayerHasChain(g, base, n + 1, id);
      var p :| IsChain(g, p) && |p| == n + 2 && p[0] in base && p[n + 1] == id;
      ChainBound(g, p);
    }
    EmptyLayerStops(g, base, n);
  }

  /** A non-empty set that is its own set of direct dependents (a cycle, for
      instance) keeps every scan non-empty: the rescan runs out of any fuel. */
  lemma RescanDivergesOnCycle(g: Snapshot, s: set<string>, fuel: nat)
    requires s != {} && DirectDependents(g, s) == s
    ensures RescanDownstream(g, s, fuel) == None
  {
    var k: nat := 0;
    RescanCycleBase(g, s);
    while k < fuel
      invariant k <= fuel
      invariant RescanDownstream(g, s, k) == None
    {
      RescanCycleStep(g, s, k);
      k := k + 1;
    }
  }

  /** Without fuel a self-feeding set gives `None` at once. */
  lemma RescanCycleBase(g: Snapshot, s: set<string>)
    requires s != {} && DirectDependents(g, s) == s
    ensures RescanDownstream(g, s, 0) == None
  {
  }

  /** One more round on a self-feeding set still runs out of fuel. */
  lemma RescanCycleStep(g: Snapshot, s: set<string>, fuel: nat)
    requires s != {} && DirectDependents(g, s) == s
    requires RescanDownstream(g, s, fuel) == None
    ensures RescanDownstream(g, s, fuel + 1) == None
  {
  }

  /** Some node reachable from `base` lies on a cycle. */
  ghost predicate CycleReachable(g: Snapshot, base: set<string>)
  {
    exists x :: Reaches(g, base, x) && Reaches(g, {x}, x)
  }

  /** When a cycle is reachable from `base` the program's rescan never stops
      by itself: it runs out of any fuel. */
  lemma RescanDivergesWhenCycleReachable(g: Snapshot, base: set<string>, fuel: nat)
    requires CycleReachable(g, base)
    ensures RescanDownstream(g, base, fuel) == None
  {
    forall k: nat | 1 <= k <= fuel + 1
      ensures Layer(g, base, k) != {}
    {
      LayersNonEmpty(g, base, k);
    }
    RescanOutOfFuel(g, base, fuel);
  }

  /** A rescan whose next `fuel + 1` layers are all non-empty runs out of fuel. */
  lemma {:induction false} RescanOutOfFuel(g: Snapshot, base: set<string>, fuel: nat)
    requires forall k: nat :: 1 <= k <= fuel + 1 ==> Layer(g, base, k) != {}
    ensures RescanDownstream(g, base, fuel) == None
    decreases fuel
  {
    var direct := DirectDependents(g, base);
    assert Layer(g, base, 1) == direct;
    if fuel > 0 {
      forall k: nat | 1 <= k <= fuel
        ensures Layer(g, direct, k) != {}
      {
        assert Layer(g, base, k + 1) == Layer(g, direct, k);
      }
      RescanOutOfFuel(g, direct, fuel - 1);
    }
  }

  /** With a cycle reachable from `base`, every nested scan finds something. */
  lemma LayersNonEmpty(g: Snapshot, base: set<string>, k: nat)
    requires CycleReachable(g, base) && k >= 1
    ensures Layer(g, base, k) != {}
  {
    var x :| Reaches(g, base, x) && Reaches(g, {x}, x);
    LongChain(g, base, x, k - 1);
    var p :| IsChain(g, p) && p[0] in base && p[|p| - 1] == x && |p| >= k + 1;
    SubChain(g, p, 0, k + 1);
    ChainInLayer(g, base, p[0..k + 1]);
  }

  /** Going round the cycle again makes a chain from `base` as long as wanted. */
  lemma {:induction false} LongChain(g: Snapshot, base: set<string>, x: string, n: nat)
    requires Reaches(g, base, x) && Reaches(g, {x}, x)
    ensures exists p :: IsChain(g, p) && p[0] in base && p[|p| - 1] == x && |p| >= n + 2
    decreases n
  {
    if n > 0 {
      LongChain(g, base, x, n - 1);
      var p :| IsChain(g, p) && p[0] in base && p[|p| - 1] == x && |p| >= n + 1;
      var c :| IsChain(g, c) && c[0] in {x} && c[|c| - 1] == x;
      ConcatChains(g, p, c);
      var q := p + c[1..];
      assert q[0] == p[0] && q[|q| - 1] == c[|c| - 1];
      assert IsChain(g, q) && q[0] in base && q[|q| - 1] == x && |q| >= n + 2;
    }
  }

  /** The end of a chain of `k` steps from `s` is in layer `k`. */
  lemma {:induction false} ChainInLayer(g: Snapshot, s: set<string>, p: seq<string>)
    requires IsChain(g, p) && p[0] in s
    ensures p[|p| - 1] in Layer(g, s, |p| - 1)
    decreases |p|
  {
    var direct := DirectDependents(g, s);
    assert DependsOn(g, p[1], p[0]);
    assert p[1] in direct;
    if |p| > 2 {
      SubChain(g, p, 1, |p|);
      ChainInLayer(g, direct, p[1..|p|]);
    }
  }
}
