/** The selector: backend nodes with their health, weighted round robin, and the hash ring. */
module Selectors {
  import opened Swrr
  import opened Selection
  import opened HashRing
  import opened Sequences
  import CopyOnWrite

  const VIRTUAL_NODES: nat := 100

  /** A node's health record. */
  datatype Health = Health(alive: bool, successes: int, failures: int)

  const NEW_NODE := Health(true, 0, 0)

  function Probe(h: Health, ok: bool, successStandard: int, failStandard: int): Health {
    if ok then
      if h.successes + 1 >= successStandard then Health(true, successStandard, 0)
      else Health(h.alive, h.successes + 1, 0)
    else
      if h.failures + 1 >= failStandard then Health(false, 0, failStandard)
      else Health(h.alive, 0, h.failures + 1)
  }

  function Probes(results: seq<bool>, successStandard: int, failStandard: int): Health {
    if results == [] then NEW_NODE else
    Probe(Probes(results[..|results| - 1], successStandard, failStandard), results[|results| - 1],
          successStandard, failStandard)
  }

  /** The length of the run of `v` that ends a probe history. */
  function Streak(results: seq<bool>, v: bool): nat {
    if results != [] && results[|results| - 1] == v then Streak(results[..|results| - 1], v) + 1 else 0
  }

  /** How a run of `n` equal probes is counted against a standard. */
  function Counted(n: nat, standard: int): int {
    if n == 0 then 0 else if n < standard then n else standard
  }

  /** The run has reached the standard; a standard below one takes a single probe. */
  predicate Reached(n: nat, standard: int) {
    n > 0 && n >= standard
  }

  /** A node changes between alive and dead exactly when a run of equal probes reaches its standard. */
  lemma {:induction false} HealthFollowsStreaks(results: seq<bool>, s: int, f: int)
    ensures var h, up, down := Probes(results, s, f), Streak(results, true), Streak(results, false);
            && h.successes == Counted(up, s) && h.failures == Counted(down, f)
            && (Reached(up, s) ==> h.alive) && (Reached(down, f) ==> !h.alive)
            && (results != [] && !Reached(up, s) && !Reached(down, f) ==>
                  h.alive == Probes(results[..|results| - 1], s, f).alive)
            && (results == [] ==> h.alive)
  {
    if results != [] {
      HealthFollowsStreaks(results[..|results| - 1], s, f);
    }
  }

  class ServerNode<A> {
    const addr: A
    const weight: int
    const successStandard: int
    const failStandard: int
    var alive: bool
    var successCount: int
    var failCount: int
    var currentWeight: int

    constructor (addr: A, weight: int, successStandard: int, failStandard: int)
      ensures this.addr == addr && this.weight == weight && currentWeight == 0
      ensures this.successStandard == successStandard && this.failStandard == failStandard
      ensures Health(alive, successCount, failCount) == NEW_NODE
    {
      this.addr, this.weight := addr, weight;
      this.successStandard, this.failStandard := successStandard, failStandard;
      alive, successCount, failCount, currentWeight := true, 0, 0, 0;
    }

    method UpdateStatus(success: bool)
      modifies this`alive, this`successCount, this`failCount
      ensures Health(alive, successCount, failCount)
           == Probe(old(Health(alive, successCount, failCount)), success, successStandard, failStandard)
    {
      if success {
        failCount := 0;
        successCount := successCount + 1;
        if successCount >= successStandard {
          alive := true;
          successCount := successStandard;
        }
      } else {
        successCount := 0;
        failCount := failCount + 1;
        if failCount >= failStandard {
          alive := false;
          failCount := failStandard;
        }
      }
    }
  }

  class Selector<A> {
    var serverGroup: seq<ServerNode<A>>
    var ring: Ring<A>
    const hash: (A, nat) -> nat

    /** The positions of an address's virtual nodes. */
    function Points(addr: A): seq<nat> {
      seq(VIRTUAL_NODES, i requires 0 <= i < VIRTUAL_NODES => hash(addr, i))
    }

    lemma PointsAre(addr: A)
      ensures |Points(addr)| == 100 && forall i | 0 <= i < 100 :: Points(addr)[i] == hash(addr, i)
      ensures forall i | 0 <= i < 100 :: hash(addr, i) in Points(addr)
      ensures forall k :: k in Points(addr) ==> exists i :: 0 <= i < 100 && hash(addr, i) == k
    {
      forall i | 0 <= i < 100 ensures hash(addr, i) in Points(addr) {
        assert Points(addr)[i] == hash(addr, i);
      }
    }

    constructor (hash: (A, nat) -> nat)
      ensures serverGroup == [] && ring == map[] && this.hash == hash
    {
      serverGroup, ring := [], map[];
      this.hash := hash;
    }

    method AddNode(node: ServerNode<A>)
      modifies this`serverGroup, this`ring
      ensures serverGroup == old(serverGroup) + [node]
      ensures ring == Add(old(ring), Points(node.addr), node.addr)
      ensures forall i | 0 <= i < 100 :: hash(node.addr, i) in ring && ring[hash(node.addr, i)] == node.addr
      ensures forall k :: k in ring && (forall i | 0 <= i < 100 :: hash(node.addr, i) != k) ==>
                k in old(ring) && ring[k] == old(ring)[k]
      ensures forall k :: k in old(ring) ==> k in ring
    {
      PointsAre(node.addr);
      serverGroup := serverGroup + [node];
      ring := AddLoop(ring, Points(node.addr), node.addr);
    }

    method RemoveNode(node: ServerNode<A>)
      modifies this`serverGroup, this`ring
      ensures serverGroup == Without(old(serverGroup), node)
      ensures ring == Remove(old(ring), Points(node.addr))
      ensures forall i | 0 <= i < 100 :: hash(node.addr, i) !in ring
      ensures forall k :: k in old(ring) && (forall i | 0 <= i < 100 :: hash(node.addr, i) != k) ==>
                k in ring && ring[k] == old(ring)[k]
      ensures forall k :: k in ring ==> k in old(ring)
    {
      PointsAre(node.addr);
      serverGroup := Erase(serverGroup, node);
      ring := RemoveLoop(ring, Points(node.addr));
    }

    /** Consistent hashing for a key whose hash is `h`. */
    method GetNextServerFor(h: nat) returns (r: Answer<A>)
      ensures r == Lookup(ring, h)
    {
      r := Locate(ring, h);
    }

    /** Weighted round robin over a liveness that does not change during the call. */
    method GetNextServer() returns (r: Answer<A>)
      modifies (set n | n in serverGroup)`currentWeight
      ensures serverGroup == [] ==> r == Nobody
      ensures serverGroup != [] ==>
                var candidates, before := old(Candidates(serverGroup)), old(Current(serverGroup));
                var s := Select(serverGroup, Weights(serverGroup), candidates, before);
                Current(serverGroup) == s.current && s.best.Some? && r == Server(s.best.value.addr)
    {
      var nodes := serverGroup;
      if nodes == [] {
        return Nobody;
      }
      var aliveCount := CountAlive(nodes);
      var best := Choose(nodes, aliveCount * 100 / |nodes| < PANIC_PERCENT);
      return Server(best.addr);
    }
  }

  // ----- One selection over a snapshot of the group -----

  function Weights<A>(nodes: seq<ServerNode<A>>): (m: map<ServerNode<A>, int>)
    ensures Covers(m, nodes)
  {
    map n | n in nodes :: n.weight
  }

  ghost function Current<A>(nodes: seq<ServerNode<A>>): (m: map<ServerNode<A>, int>)
    reads nodes
    ensures Covers(m, nodes)
  {
    map n | n in nodes :: n.currentWeight
  }

  /** Whether each node listed is alive. */
  ghost function Alive<A>(nodes: seq<ServerNode<A>>): seq<bool>
    reads nodes
  {
    seq(|nodes|, i requires 0 <= i < |nodes| reads nodes => nodes[i].alive)
  }

  /** The nodes a selection may choose. */
  ghost function Candidates<A>(nodes: seq<ServerNode<A>>): set<ServerNode<A>>
    requires nodes != []
    reads nodes
  {
    set n | n in nodes && (n.alive || PanicMode(Alive(nodes)))
  }

  /** The nodes alive, or all of them when fewer than one in five is. */
  lemma CandidatesAre<A>(nodes: seq<ServerNode<A>>, n: ServerNode<A>)
    requires nodes != []
    ensures n in Candidates(nodes) <==> n in nodes && (n.alive || 5 * multiset(Alive(nodes))[true] < |nodes|)
  {
    PanicExactly(Alive(nodes));
  }

  lemma SomeCandidate<A>(nodes: seq<ServerNode<A>>) returns (n: ServerNode<A>)
    requires nodes != []
    ensures n in nodes && n in Candidates(nodes)
  {
    var i := AlwaysEligible(Alive(nodes));
    n := nodes[i];
  }

  method CountAlive<A>(nodes: seq<ServerNode<A>>) returns (n: nat)
    ensures n == CountTrue(Alive(nodes))
  {
    n := 0;
    var i := 0;
    while i < |nodes|
      invariant i <= |nodes| && n == CountTrue(Alive(nodes)[..i])
    {
      assert Alive(nodes)[..i + 1][..i] == Alive(nodes)[..i];
      if nodes[i].alive {
        n := n + 1;
      }
      i := i + 1;
    }
    assert Alive(nodes)[..i] == Alive(nodes);
  }

  method AddWeight<A>(nodes: seq<ServerNode<A>>, node: ServerNode<A>, delta: int)
    requires node in nodes
    modifies {node}`currentWeight
    ensures Current(nodes) == old(Current(nodes))[node := old(Current(nodes))[node] + delta]
  {
    node.currentWeight := node.currentWeight + delta;
  }

  method Choose<A>(nodes: seq<ServerNode<A>>, panicMode: bool) returns (best: ServerNode<A>)
    requires nodes != [] && panicMode == PanicMode(Alive(nodes))
    modifies (set n | n in nodes)`currentWeight
    ensures Selected(Some(best), Current(nodes))
         == Select(nodes, Weights(nodes), old(Candidates(nodes)), old(Current(nodes)))
  {
    ghost var ws, el, cs := Weights(nodes), Candidates(nodes), Current(nodes);
    ghost var candidate := SomeCandidate(nodes);
    hide *;
    var found, total := Raise(nodes, panicMode);
    SelectIs(nodes, ws, el, cs);
    SelectFinds(nodes, ws, el, cs, candidate);
    best := found.value;
    AddWeight(nodes, best, -total);
  }

  /** Raises every eligible node by its weight and finds the first of the highest. */
  method Raise<A>(nodes: seq<ServerNode<A>>, panicMode: bool) returns (best: Option<ServerNode<A>>, total: int)
    requires nodes != [] && panicMode == PanicMode(Alive(nodes))
    modifies (set n | n in nodes)`currentWeight
    ensures Progress(best, total, Current(nodes))
         == Scan(nodes, Weights(nodes), old(Candidates(nodes)), old(Current(nodes)))
  {
    ghost var ws, el, cs := Weights(nodes), Candidates(nodes), Current(nodes);
    assert Fits(nodes, panicMode, ws, el);
    hide *;
    best, total := None, 0;
    var i := 0;
    ScanNothing(nodes, ws, el, cs);
    while i < |nodes|
      invariant i <= |nodes| && Fits(nodes, panicMode, ws, el)
      invariant Progress(best, total, Current(nodes)) == ScanUpTo<ServerNode<A>>(nodes, i, ws, el, cs)
    {
      best, total := RaiseAt(nodes, i, best, total, panicMode, ws, el, cs);
      i := i + 1;
    }
    ScanAll(nodes, ws, el, cs);
  }

  /** The weights and the eligible nodes are those of the nodes as they are. */
  ghost predicate Fits<A>(nodes: seq<ServerNode<A>>, panicMode: bool,
                          ws: map<ServerNode<A>, int>, el: set<ServerNode<A>>)
    reads nodes
  {
    forall n :: n in nodes ==> (n in el <==> n.alive || panicMode) && n in ws && ws[n] == n.weight
  }

  /** The loop body for the node at `i`. */
  method RaiseAt<A>(nodes: seq<ServerNode<A>>, i: nat, best: Option<ServerNode<A>>, total: int, panicMode: bool,
                    ghost ws: map<ServerNode<A>, int>, ghost el: set<ServerNode<A>>, ghost cs: map<ServerNode<A>, int>)
    returns (best': Option<ServerNode<A>>, total': int)
    requires i < |nodes| && Covers(ws, nodes) && Covers(cs, nodes) && Fits(nodes, panicMode, ws, el)
    requires Progress(best, total, Current(nodes)) == ScanUpTo<ServerNode<A>>(nodes, i, ws, el, cs)
    modifies {nodes[i]}`currentWeight
    ensures Fits(nodes, panicMode, ws, el)
    ensures Progress(best', total', Current(nodes)) == ScanUpTo<ServerNode<A>>(nodes, i + 1, ws, el, cs)
  {
    var node := nodes[i];
    assert node in nodes && (node in el <==> node.alive || panicMode) && ws[node] == node.weight;
    ScanNext(nodes, i, ws, el, cs);
    hide Raised, ScanUpTo, Covers, Current;
    best', total' := best, total;
    if node.alive || panicMode {
      best', total' := RaiseOne(nodes, node, best, total);
    }
  }

  method RaiseOne<A>(nodes: seq<ServerNode<A>>, node: ServerNode<A>, best: Option<ServerNode<A>>, total: int)
    returns (best': Option<ServerNode<A>>, total': int)
    requires node in nodes && (best.Some? ==> best.value in nodes)
    modifies {node}`currentWeight
    ensures Progress(best', total', Current(nodes))
         == Raised(Progress(best, total, old(Current(nodes))), node, node.weight)
  {
    AddWeight(nodes, node, node.weight);
    total' := total + node.weight;
    best' := if best.None? || node.currentWeight > best.value.currentWeight then Some(node) else best;
  }

  // ----- The ring under concurrent readers and writers -----

  /** What adding or removing a node makes of the ring. */
  function RingChange<A>(points: A -> seq<nat>): (Change<A>, Ring<A>) -> Ring<A> {
    (c: Change<A>, ring: Ring<A>) =>
      if c.Join? then Add(ring, points(c.address), c.address) else Remove(ring, points(c.address))
  }

  lemma {:induction false} VersionIsBuilt<A>(history: seq<Change<A>>, points: A -> seq<nat>)
    ensures CopyOnWrite.Version(RingChange(points), map[], history) == Built(history, points)
  {
    if history != [] {
      VersionIsBuilt(history[..|history| - 1], points);
    }
  }

  /**
   * In every interleaving of lookups with additions and removals, a reader routes by the ring of one moment: what the
   * history up to when it took its pointer built, which is the ring of its members if no two addresses share a point.
   */
  lemma SnapshotRoutes<A(!new)>(points: A -> seq<nat>, states: seq<CopyOnWrite.Store<Ring<A>, Change<A>>>,
                                events: seq<CopyOnWrite.Event<Change<A>>>, r: nat, i: nat, j: nat)
    requires CopyOnWrite.Run(RingChange(points), map[], states, events) && i <= j < |states|
    requires CopyOnWrite.Holds(states, r, i, j)
    ensures CopyOnWrite.SameView(RingChange(points), map[], states[i], states[j], r)
    ensures var seen, then_ := states[j].heap[states[j].readers[r]], states[i].history[..states[i].since[r]];
            seen == Built(then_, points) && (Disjoint(points) ==> RingOf(seen, Members(then_), points))
  {
    CopyOnWrite.SnapshotNeverChanges(RingChange(points), map[], states, events, r, i, j);
    hide CopyOnWrite.Run, CopyOnWrite.Holds;
    var then_ := states[i].history[..states[i].since[r]];
    VersionIsBuilt(then_, points);
    if Disjoint(points) {
      BuiltIsRingOf(then_, points);
    }
  }
}
