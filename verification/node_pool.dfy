/** The node-pool bookkeeping of `DhtNetwork` (python/tools/dhtnetwork.py): a
    sequence of running DHT nodes on consecutive ports, a port counter, the
    bootstrap list new nodes contact, and the `quit` flag that cuts growth short.
    The DHT engine behind each node is opaque; a node's handle is reduced to its
    status, and stopping and joining handles is recorded as an event trace. */
module NodePool {
  import opened Wrappers
  import opened Decimal
  import Interfaces
  import opened Seqs

  /** The largest pool `resize` builds. */
  const MaxNodes: nat := 500

  /** What is known of a node's `DhtRunner`: started, told to shut down, or joined. */
  datatype Status = Running | Signalled | Joined

  /** One bootstrap entry: an address and the port as decimal text. */
  datatype Peer = Peer(addr: Option<string>, port: string)

  /** One node record `((ip4, ip6, port), runner, identity)`; `contacted` is the
      bootstrap list the runner was told to contact when it started. */
  datatype Node = Node(ip4: Option<string>, ip6: Option<string>, port: int, contacted: seq<Peer>, status: Status)

  /** The state of one `DhtNetwork` instance. */
  datatype Pool = Pool(
    ip4: Option<string>,
    ip6: Option<string>,
    nodes: seq<Node>,
    port: int,
    bootstrap: seq<Peer>,
    quit: bool)

  /** A call made on a removed node's runner: `shutdown()` or `join()`. */
  datatype Event = Signal(port: int) | Join(port: int)

  /** The pool after an operation, the nodes it removed (in removal order) and
      the calls it made on their runners, in order. */
  datatype Outcome = Outcome(pool: Pool, retired: seq<Node>, trace: seq<Event>)

  /** The result of `get(n)`: the node, or the `IndexError` Python raises. */
  datatype Lookup = Found(node: Node) | IndexError

  function PortOf(n: Node): int {
    n.port
  }

  /** The ports of `nodes`, in order. */
  function Ports(nodes: seq<Node>): (ps: seq<int>)
    ensures |ps| == |nodes|
    ensures forall i :: 0 <= i < |nodes| ==> ps[i] == nodes[i].port
  {
    Image(PortOf, nodes)
  }

  /** The pool invariant: live nodes have pairwise distinct ports, all below the
      next port to allocate, and every live node's runner is still running. */
  predicate Valid(p: Pool) {
    && Distinct(Ports(p.nodes))
    && (forall i :: 0 <= i < |p.nodes| ==> p.nodes[i].port < p.port)
    && (forall i :: 0 <= i < |p.nodes| ==> p.nodes[i].status == Running)
  }

  /** `min(n, 500)`, the bound `resize` applies as written: from above only. */
  function MinCap(n: int): (t: int)
    ensures t <= MaxNodes
    ensures t == n || t == MaxNodes
    ensures n <= MaxNodes ==> t == n
  {
    if n < MaxNodes then n else MaxNodes
  }

  /** The pool size `resize(n)` aims for: `n` clamped to `[0, 500]`. */
  function Target(n: int): (t: nat)
    ensures t <= MaxNodes
    ensures 0 <= n <= MaxNodes ==> t == n
    ensures n < 0 ==> t == 0
    ensures n > MaxNodes ==> t == MaxNodes
  {
    if n < 0 then 0 else MinCap(n)
  }

  /** `run_node`: a fresh runner bound to the given addresses and port, told to
      contact every bootstrap entry. The settle delay and printing are not modelled. */
  function RunNode(ip4: Option<string>, ip6: Option<string>, port: int, bootstrap: seq<Peer>): (n: Node)
    ensures n.ip4 == ip4 && n.ip6 == ip6
    ensures n.port == port && n.status == Running && n.contacted == bootstrap
  {
    Node(ip4, ip6, port, bootstrap, Running)
  }

  /** The registry entry a pool with no bootstrap list installs for itself. */
  function Fallback(p: Pool): Peer {
    Peer(OrElse(p.ip4, p.ip6), IntToString(p.port))
  }

  /** `__init__`: resolve the addresses (explicit ones win over the interface's),
      and with `first_bootstrap` start one node and register it as a bootstrap peer
      under each of its truthy addresses. `addrs` is the interface's address list. */
  function Init(iface: Option<string>, addrs: seq<Interfaces.IfAddr>, ip4: Option<string>, ip6: Option<string>,
                port: int, bootstrap: seq<Peer>, firstBootstrap: bool): (r: Pool)
    ensures Truthy(ip4) ==> r.ip4 == ip4
    ensures !Truthy(ip4) ==> r.ip4 == Interfaces.FindIp(iface, addrs).ip4
    ensures Truthy(ip6) ==> r.ip6 == ip6
    ensures !Truthy(ip6) ==> r.ip6 == Interfaces.FindIp(iface, addrs).ip6
    ensures !r.quit
    ensures |r.bootstrap| >= |bootstrap| && r.bootstrap[..|bootstrap|] == bootstrap
  {
    var ips := Interfaces.FindIp(iface, addrs);
    var a4 := OrElse(ip4, ips.ip4);
    var a6 := OrElse(ip6, ips.ip6);
    var p := Pool(a4, a6, [], port, bootstrap, false);
    if !firstBootstrap then p
    else
      var first := RunNode(a4, a6, port, bootstrap);
      var self4 := if Truthy(a4) then [Peer(a4, IntToString(port))] else [];
      var self6 := if Truthy(a6) then [Peer(a6, IntToString(port))] else [];
      assert (bootstrap + self4 + self6)[..|bootstrap|] == bootstrap;
      p.(nodes := [first], bootstrap := bootstrap + self4 + self6, port := port + 1)
  }

  /** `launch_node`: start a node on the current port with the current bootstrap
      list, append it, fall back to the pool itself as bootstrap peer if the list
      is empty, and advance the port. */
  function Launch(p: Pool): (r: Pool)
    ensures |r.nodes| == |p.nodes| + 1 && r.nodes[..|p.nodes|] == p.nodes
    ensures r.nodes[|p.nodes|].port == p.port && r.nodes[|p.nodes|].status == Running
    ensures r.nodes[|p.nodes|].contacted == p.bootstrap
    ensures r.nodes[|p.nodes|].ip4 == p.ip4 && r.nodes[|p.nodes|].ip6 == p.ip6
    ensures r.port == p.port + 1
    ensures |p.bootstrap| == 0 ==> r.bootstrap == [Peer(OrElse(p.ip4, p.ip6), IntToString(p.port))]
    ensures |p.bootstrap| > 0 ==> r.bootstrap == p.bootstrap
    ensures r.ip4 == p.ip4 && r.ip6 == p.ip6 && r.quit == p.quit
  {
    var n := RunNode(p.ip4, p.ip6, p.port, p.bootstrap);
    var bs := if |p.bootstrap| == 0 then [Fallback(p)] else p.bootstrap;
    assert (p.nodes + [n])[..|p.nodes|] == p.nodes;
    p.(nodes := p.nodes + [n], bootstrap := bs, port := p.port + 1)
  }

  /** `end_node`: pop the most recently appended node and join its runner; an
      empty pool is left alone. */
  function EndNode(p: Pool): (o: Outcome)
    ensures |p.nodes| == 0 ==> o == Outcome(p, [], [])
    ensures |p.nodes| > 0 ==>
      && o.pool.nodes + [p.nodes[|p.nodes| - 1]] == p.nodes
      && o.retired == [p.nodes[|p.nodes| - 1].(status := Joined)]
      && o.trace == [Join(p.nodes[|p.nodes| - 1].port)]
    ensures o.pool.port == p.port && o.pool.bootstrap == p.bootstrap && o.pool.quit == p.quit
    ensures o.pool.ip4 == p.ip4 && o.pool.ip6 == p.ip6
  {
    if |p.nodes| == 0 then Outcome(p, [], [])
    else
      var last := p.nodes[|p.nodes| - 1];
      assert p.nodes[..|p.nodes| - 1] + [last] == p.nodes;
      Outcome(p.(nodes := p.nodes[..|p.nodes| - 1]), [last.(status := Joined)], [Join(last.port)])
  }

  /** `replace_node`: `shuffled` is the order `random.shuffle` left the nodes in;
      then end one node and launch one. On an empty pool `end_node` does nothing
      but the launch still happens. */
  function ReplaceNode(p: Pool, shuffled: seq<Node>): (o: Outcome)
    requires multiset(shuffled) == multiset(p.nodes)
    ensures |p.nodes| == 0 ==> o == Outcome(Launch(p), [], [])
    ensures o.pool.port == p.port + 1
    ensures |o.pool.nodes| == if |p.nodes| == 0 then 1 else |p.nodes|
    ensures o.pool.ip4 == p.ip4 && o.pool.ip6 == p.ip6 && o.pool.quit == p.quit
    ensures |p.bootstrap| > 0 ==> o.pool.bootstrap == p.bootstrap
    ensures |p.bootstrap| == 0 ==> o.pool.bootstrap == [Fallback(p)]
    ensures o.pool.nodes[|o.pool.nodes| - 1] == RunNode(p.ip4, p.ip6, p.port, p.bootstrap)
    ensures |shuffled| > 0 ==>
      && o.retired == [shuffled[|shuffled| - 1].(status := Joined)]
      && multiset(o.pool.nodes[..|shuffled| - 1]) + multiset{shuffled[|shuffled| - 1]} == multiset(p.nodes)
  {
    assert |shuffled| == |multiset(shuffled)| == |multiset(p.nodes)| == |p.nodes|;
    var e := EndNode(p.(nodes := shuffled));
    var o := Outcome(Launch(e.pool), e.retired, e.trace);
    if |shuffled| == 0 then o
    else
      var kept := shuffled[..|shuffled| - 1];
      assert kept + [shuffled[|shuffled| - 1]] == shuffled;
      assert o.pool.nodes[..|kept|] == kept;
      o
  }

  /** `shutdown`: raise the flag that stops a growing `resize`. */
  function Shutdown(p: Pool): (r: Pool)
    ensures r.quit
    ensures r.nodes == p.nodes && r.port == p.port && r.bootstrap == p.bootstrap
    ensures r.ip4 == p.ip4 && r.ip6 == p.ip6
  {
    p.(quit := true)
  }

  /** `front()`: the oldest node, or `None` for an empty pool. */
  function Front(p: Pool): (r: Option<Node>)
    ensures r.None? <==> |p.nodes| == 0
    ensures r.Some? ==> r.value == p.nodes[0]
  {
    if |p.nodes| == 0 then None else Some(p.nodes[0])
  }

  /** `get(n)`: Python list indexing, negative indices counting from the end. */
  function Get(p: Pool, n: int): (r: Lookup)
    ensures r.Found? <==> -|p.nodes| <= n < |p.nodes|
    ensures 0 <= n < |p.nodes| ==> r == Found(p.nodes[n])
    ensures -|p.nodes| <= n < 0 ==> r == Found(p.nodes[|p.nodes| + n])
  {
    if 0 <= n < |p.nodes| then Found(p.nodes[n])
    else if -|p.nodes| <= n < 0 then Found(p.nodes[|p.nodes| + n])
    else IndexError
  }

  /** Whether the growth loop sees the flag set before its next launch: it was
      set before the call, or a `shutdown()` from a signal handler arrived after `arrival`
      launches of this call. */
  predicate QuitSeen(p: Pool, arrival: Option<nat>, launched: nat) {
    p.quit || (arrival.Some? && launched >= arrival.value)
  }

  /** Every `shutdown()` in the trace comes before every `join()`. */
  predicate SignalsBeforeJoins(trace: seq<Event>) {
    forall a, b :: 0 <= a < |trace| && 0 <= b < |trace| && trace[a].Join? && trace[b].Signal? ==> b < a
  }

  /** The trace stops and joins every port of `removed`, and touches no other port. */
  predicate StopsAndJoinsExactly(trace: seq<Event>, removed: seq<int>) {
    && (forall x :: x in removed ==> Signal(x) in trace && Join(x) in trace)
    && (forall e :: e in trace ==> e.port in removed)
  }

  /** The shrink path of `resize(target)`: first pop every surplus node, last
      first, and call `shutdown()` on its runner; then `join()` them all in the
      same order. */
  method Shrink(p: Pool, target: nat) returns (o: Outcome)
    requires target < |p.nodes|
    ensures o.pool == p.(nodes := p.nodes[..target])
    ensures |o.retired| == |p.nodes| - target
    ensures forall k :: 0 <= k < |o.retired| ==> o.retired[k] == p.nodes[|p.nodes| - 1 - k].(status := Joined)
    ensures TwoPhase(p.nodes, target, o.trace)
    ensures SignalsBeforeJoins(o.trace)
    ensures StopsAndJoinsExactly(o.trace, Ports(p.nodes[target..]))
    ensures Valid(p) ==> Valid(o.pool)
  {
    var nodes, toend, signals := PopAndSignalSurplus(p.nodes, target);
    var retired, joins := JoinAll(toend);
    var trace := signals + joins;
    ConcatIsTwoPhase(p.nodes, target, toend, signals, joins);
    TwoPhaseTrace(p.nodes, target, trace);
    if Valid(p) {
      PrefixPreservesValid(p, target);
    }
    o := Outcome(p.(nodes := nodes), retired, trace);
  }

  /** The first loop of the shrink path: pop the nodes past `target`, last
      first, calling `shutdown()` on each runner. */
  method PopAndSignalSurplus(all: seq<Node>, target: nat) returns (nodes: seq<Node>, toend: seq<Node>, signals: seq<Event>)
    requires target <= |all|
    ensures nodes == all[..target]
    ensures |toend| == |all| - target && |signals| == |toend|
    ensures forall k :: 0 <= k < |toend| ==> toend[k] == all[|all| - 1 - k].(status := Signalled)
    ensures forall k :: 0 <= k < |signals| ==> signals[k] == Signal(all[|all| - 1 - k].port)
  {
    var l := |all|;
    nodes := all;
    toend := [];
    signals := [];
    var i := target;
    while i < l
      invariant target <= i <= l
      invariant nodes == all[..l - (i - target)]
      invariant |toend| == i - target && |signals| == i - target
      invariant forall k :: 0 <= k < |toend| ==> toend[k] == all[l - 1 - k].(status := Signalled)
      invariant forall k :: 0 <= k < |signals| ==> signals[k] == Signal(all[l - 1 - k].port)
    {
      var n := nodes[|nodes| - 1];
      nodes := nodes[..|nodes| - 1];
      n := n.(status := Signalled);
      signals := signals + [Signal(n.port)];
      toend := toend + [n];
      i := i + 1;
    }
  }

  /** The second loop of the shrink path: `join()` every popped runner, in the
      order they were popped. */
  method JoinAll(toend: seq<Node>) returns (retired: seq<Node>, joins: seq<Event>)
    ensures |retired| == |toend| && |joins| == |toend|
    ensures forall k :: 0 <= k < |toend| ==> retired[k] == toend[k].(status := Joined)
    ensures forall k :: 0 <= k < |toend| ==> joins[k] == Join(toend[k].port)
  {
    retired := [];
    joins := [];
    var j := 0;
    while j < |toend|
      invariant 0 <= j <= |toend|
      invariant |retired| == j && |joins| == j
      invariant forall k :: 0 <= k < j ==> retired[k] == toend[k].(status := Joined)
      invariant forall k :: 0 <= k < j ==> joins[k] == Join(toend[k].port)
    {
      joins := joins + [Join(toend[j].port)];
      retired := retired + [toend[j].(status := Joined)];
      j := j + 1;
    }
  }

  /** The shape `Shrink` gives its trace: the nodes past `target` signalled last
      first, then joined in the same order. */
  predicate TwoPhase(nodes: seq<Node>, target: nat, trace: seq<Event>)
    requires target <= |nodes|
  {
    && |trace| == 2 * (|nodes| - target)
    && (forall k :: 0 <= k < |nodes| - target ==> trace[k] == Signal(nodes[|nodes| - 1 - k].port))
    && (forall k :: |nodes| - target <= k < |trace| ==>
          trace[k] == Join(nodes[|nodes| - 1 - (k - (|nodes| - target))].port))
  }

  /** The signals of the first shrink loop followed by the joins of the second
      form a two-phase trace. */
  lemma ConcatIsTwoPhase(all: seq<Node>, target: nat, toend: seq<Node>, signals: seq<Event>, joins: seq<Event>)
    requires target <= |all|
    requires |toend| == |all| - target && |signals| == |toend| && |joins| == |toend|
    requires forall k :: 0 <= k < |toend| ==> toend[k] == all[|all| - 1 - k].(status := Signalled)
    requires forall k :: 0 <= k < |signals| ==> signals[k] == Signal(all[|all| - 1 - k].port)
    requires forall k :: 0 <= k < |toend| ==> joins[k] == Join(toend[k].port)
    ensures TwoPhase(all, target, signals + joins)
  {
  }

  /** Such a trace stops and joins exactly the nodes past `target`, all signals first. */
  lemma TwoPhaseTrace(nodes: seq<Node>, target: nat, trace: seq<Event>)
    requires target < |nodes| && TwoPhase(nodes, target, trace)
    ensures SignalsBeforeJoins(trace)
    ensures StopsAndJoinsExactly(trace, Ports(nodes[target..]))
  {
    TwoPhaseCovers(nodes, target, trace);
    TwoPhaseTouchesOnlyRemoved(nodes, target, trace);
  }

  lemma TwoPhaseCovers(nodes: seq<Node>, target: nat, trace: seq<Event>)
    requires target < |nodes| && TwoPhase(nodes, target, trace)
    ensures forall x :: x in Ports(nodes[target..]) ==> Signal(x) in trace && Join(x) in trace
  {
    var l, m := |nodes|, |nodes| - target;
    var removed := Ports(nodes[target..]);
    forall x | x in removed
      ensures Signal(x) in trace && Join(x) in trace
    {
      var i :| 0 <= i < |removed| && removed[i] == x;
      var j := l - 1 - (target + i);
      assert trace[j] == Signal(x);
      assert trace[m + j] == Join(x);
    }
  }

  lemma TwoPhaseTouchesOnlyRemoved(nodes: seq<Node>, target: nat, trace: seq<Event>)
    requires target < |nodes| && TwoPhase(nodes, target, trace)
    ensures forall e :: e in trace ==> e.port in Ports(nodes[target..])
  {
  }

  /** Keeping a prefix of a valid pool's nodes keeps it valid. */
  lemma PrefixPreservesValid(p: Pool, target: nat)
    requires Valid(p) && target <= |p.nodes|
    ensures Valid(p.(nodes := p.nodes[..target]))
  {
  }


  /** The growth loop of `resize`: `for i in range(l, target)`, checking the flag
      before each launch. The nodes launched keep consecutive ports from the old
      counter; the loop stops short only when it sees the flag, and launches
      nothing once it has seen it. */
  method GrowTo(p: Pool, target: nat, arrival: Option<nat>) returns (r: Pool)
    requires |p.nodes| < target
    ensures |p.nodes| <= |r.nodes| <= target
    ensures Extends(p, r)
    ensures |r.nodes| > |p.nodes| ==> |r.bootstrap| > 0
    ensures |r.nodes| < target ==> QuitSeen(p, arrival, |r.nodes| - |p.nodes|)
    ensures !p.quit && arrival.None? ==> |r.nodes| == target
    ensures p.quit ==> r == p
    ensures arrival.Some? ==> |r.nodes| <= |p.nodes| + arrival.value
    ensures Valid(p) ==> Valid(r)
  {
    var l := |p.nodes|;
    r := p;
    var i := l;
    while i < target
      invariant l <= i <= target && |r.nodes| == i
      invariant Extends(p, r)
      invariant i > l ==> !QuitSeen(p, arrival, i - l - 1)
      invariant i == l ==> r == p
      invariant Valid(p) ==> Valid(r)
    {
      if QuitSeen(p, arrival, i - l) {
        break;
      }
      if Valid(r) {
        LaunchPreservesValid(r);
      }
      LaunchExtends(p, r);
      r := Launch(r);
      i := i + 1;
    }
  }

  /** What the growth loop keeps true of the pool `r` it has grown from `p`: the
      old nodes are a prefix; each launched node runs on the next port, bound to
      the pool's addresses, and contacted the bootstrap list as it stood at its
      launch (the old list for the first, the current one after that); a
      non-empty list is never changed, an empty one becomes the fallback entry
      once a node is launched; the counter has advanced by the number launched;
      addresses and flag are untouched. */
  predicate Extends(p: Pool, r: Pool) {
    && |p.nodes| <= |r.nodes|
    && r.nodes[..|p.nodes|] == p.nodes
    && r.port == p.port + (|r.nodes| - |p.nodes|)
    && (forall i :: |p.nodes| <= i < |r.nodes| ==>
          && r.nodes[i].port == p.port + (i - |p.nodes|) && r.nodes[i].status == Running
          && r.nodes[i].ip4 == p.ip4 && r.nodes[i].ip6 == p.ip6
          && r.nodes[i].contacted == if i == |p.nodes| then p.bootstrap else r.bootstrap)
    && (|r.nodes| == |p.nodes| || |p.bootstrap| > 0 ==> r.bootstrap == p.bootstrap)
    && (|p.bootstrap| == 0 && |r.nodes| > |p.nodes| ==> r.bootstrap == [Fallback(p)])
    && r.quit == p.quit && r.ip4 == p.ip4 && r.ip6 == p.ip6
  }

  /** One more launch keeps `Extends`. */
  lemma LaunchExtends(p: Pool, r: Pool)
    requires Extends(p, r)
    ensures Extends(p, Launch(r))
  {
    var q := Launch(r);
    assert q.nodes[..|p.nodes|] == r.nodes[..|p.nodes|];
    if |r.nodes| == |p.nodes| {
      assert Fallback(r) == Fallback(p);
    } else {
      assert |r.bootstrap| > 0 && q.bootstrap == r.bootstrap;
    }
  }

  /** `resize(n)`. `arrival` describes a `shutdown()` from a signal handler: `None` if none
      arrives during the call, `Some(k)` if the growth loop sees the flag set once
      it has made `k` launches (or, outside growth, at some point before the call
      returns). A negative `n` is treated as 0; see `ResizeShrinkAsWritten` for
      what the unclamped code does with it. */
  method Resize(p: Pool, n: int, arrival: Option<nat>) returns (o: Outcome)
    ensures o.pool.quit == (p.quit || arrival.Some?)
    ensures o.pool.ip4 == p.ip4 && o.pool.ip6 == p.ip6
    ensures !p.quit && arrival.None? ==> |o.pool.nodes| == Target(n)
    ensures Target(n) == |p.nodes| ==> o == Outcome(p.(quit := p.quit || arrival.Some?), [], [])
    ensures Target(n) >= |p.nodes| ==>
      && o.retired == [] && o.trace == []
      && |p.nodes| <= |o.pool.nodes| <= Target(n)
      && o.pool.nodes[..|p.nodes|] == p.nodes
      && o.pool.port == p.port + (|o.pool.nodes| - |p.nodes|)
      && (forall i :: |p.nodes| <= i < |o.pool.nodes| ==> o.pool.nodes[i].port == p.port + (i - |p.nodes|))
      && (forall i :: |p.nodes| <= i < |o.pool.nodes| ==>
            && o.pool.nodes[i].ip4 == p.ip4 && o.pool.nodes[i].ip6 == p.ip6
            && o.pool.nodes[i].status == Running
            && o.pool.nodes[i].contacted == if i == |p.nodes| then p.bootstrap else o.pool.bootstrap)
    ensures Target(n) > |p.nodes| && |o.pool.nodes| < Target(n) ==> QuitSeen(p, arrival, |o.pool.nodes| - |p.nodes|)
    ensures |p.bootstrap| > 0 ==> o.pool.bootstrap == p.bootstrap
    ensures |p.bootstrap| == 0 && |o.pool.nodes| > |p.nodes| ==> o.pool.bootstrap == [Fallback(p)]
    ensures |o.pool.nodes| <= |p.nodes| ==> o.pool.bootstrap == p.bootstrap
    ensures Target(n) > |p.nodes| && p.quit ==> o.pool.nodes == p.nodes
    ensures Target(n) > |p.nodes| && arrival.Some? ==> |o.pool.nodes| <= |p.nodes| + arrival.value
    ensures Target(n) < |p.nodes| ==>
      && o.pool.nodes == p.nodes[..Target(n)]
      && o.pool.port == p.port && o.pool.bootstrap == p.bootstrap
      && |o.retired| == |p.nodes| - Target(n)
      && (forall k :: 0 <= k < |o.retired| ==> o.retired[k] == p.nodes[|p.nodes| - 1 - k].(status := Joined))
      && (forall m :: m in o.retired ==> m.status == Joined)
      && StopsAndJoinsExactly(o.trace, Ports(p.nodes[Target(n)..]))
    ensures Target(n) < |p.nodes| ==> TwoPhase(p.nodes, Target(n), o.trace)
    ensures n <= 0 ==> o.pool.nodes == [] && |o.retired| == |p.nodes| && forall m :: m in o.retired ==> m.status == Joined
    ensures SignalsBeforeJoins(o.trace)
    ensures Valid(p) ==> Valid(o.pool)
  {
    var target := Target(n);
    var l := |p.nodes|;
    var quit := p.quit || arrival.Some?;
    if target == l {
      o := Outcome(p.(quit := quit), [], []);
    } else if target > l {
      var g := GrowTo(p, target, arrival);
      o := Outcome(g.(quit := quit), [], []);
    } else {
      var s := Shrink(p, target);
      o := s.(pool := s.pool.(quit := quit));
    }
  }

  /** How the shrink path of `resize` ends as written: it returns, or
      `list.pop()` raises `IndexError` on an empty list before any `join()`. */
  datatype ShrinkRun =
    | Completed(pool: Pool, retired: seq<Node>)
    | PopFromEmpty(pool: Pool, signalled: seq<Node>)

  /** `count` rounds of the first shrink loop: pop the last node and call
      `shutdown()` on it, appending it to `toend`; popping an empty list raises. */
  function PopAndSignal(nodes: seq<Node>, count: nat, toend: seq<Node>): (r: (seq<Node>, seq<Node>, bool))
    ensures r.2 <==> count > |nodes|
    ensures |r.1| >= |toend| && r.1[..|toend|] == toend
    decreases count
  {
    if count == 0 then (nodes, toend, false)
    else if |nodes| == 0 then (nodes, toend, true)
    else PopAndSignal(nodes[..|nodes| - 1], count - 1, toend + [nodes[|nodes| - 1].(status := Signalled)])
  }

  /** The shrink path of `resize(n)` with the bound exactly as written,
      `min(n, 500)`, so that a negative `n` asks for `len(nodes) - n` pops. */
  function ResizeShrinkAsWritten(p: Pool, n: int): (r: ShrinkRun)
    requires MinCap(n) < |p.nodes|
    ensures r.Completed? <==> n >= 0
    ensures r.pool.port == p.port && r.pool.bootstrap == p.bootstrap
  {
    var r := PopAndSignal(p.nodes, |p.nodes| - MinCap(n), []);
    if r.2 then PopFromEmpty(p.(nodes := r.0), r.1)
    else Completed(p.(nodes := r.0), seq(|r.1|, k requires 0 <= k < |r.1| => r.1[k].(status := Joined)))
  }

  /** Asking for more pops than there are nodes signals every node and then raises. */
  lemma {:induction false} PopPastEnd(nodes: seq<Node>, count: nat, toend: seq<Node>)
    requires count > |nodes|
    requires forall m :: m in toend ==> m.status == Signalled
    ensures var r := PopAndSignal(nodes, count, toend);
      && r.0 == [] && r.2
      && |r.1| == |toend| + |nodes|
      && forall m :: m in r.1 ==> m.status == Signalled
    decreases count
  {
    if |nodes| > 0 {
      PopPastEnd(nodes[..|nodes| - 1], count - 1, toend + [nodes[|nodes| - 1].(status := Signalled)]);
    }
  }

  lemma {:induction false} PopWithin(nodes: seq<Node>, count: nat, toend: seq<Node>)
    requires count <= |nodes|
    ensures var r := PopAndSignal(nodes, count, toend);
      && r.0 == nodes[..|nodes| - count] && !r.2
      && |r.1| == |toend| + count
      && forall k :: |toend| <= k < |r.1| ==> r.1[k] == nodes[|nodes| - 1 - (k - |toend|)].(status := Signalled)
    decreases count
  {
    if count > 0 {
      var rest := nodes[..|nodes| - 1];
      PopWithin(rest, count - 1, toend + [nodes[|nodes| - 1].(status := Signalled)]);
      assert rest[..|rest| - (count - 1)] == nodes[..|nodes| - count];
    }
  }

  /** For `n >= 0` the code as written completes, leaving the first `min(n, 500)`
      nodes and retiring the removed ones, last first, joined: exactly the pool
      and retired list `Shrink` (and so `Resize`) promises. */
  lemma NonNegativeResizeCompletes(p: Pool, n: int)
    requires n >= 0 && MinCap(n) < |p.nodes|
    ensures var r := ResizeShrinkAsWritten(p, n);
      && r.Completed?
      && r.pool == p.(nodes := p.nodes[..Target(n)])
      && |r.retired| == |p.nodes| - Target(n)
      && forall k :: 0 <= k < |r.retired| ==> r.retired[k] == p.nodes[|p.nodes| - 1 - k].(status := Joined)
  {
    PopWithin(p.nodes, |p.nodes| - MinCap(n), []);
  }

  /** As written, `resize(n)` with a negative `n` pops and signals every node,
      then raises `IndexError` before joining any of them: the nodes leave the
      pool still unjoined, and on an empty pool the call raises with nothing
      signalled. `Resize` clamps `n` to 0 instead. */
  lemma NegativeResizeLeavesNodesUnjoined(p: Pool, n: int)
    requires n < 0
    ensures var r := ResizeShrinkAsWritten(p, n);
      && r.PopFromEmpty?
      && r.pool.nodes == []
      && |r.signalled| == |p.nodes|
      && forall m :: m in r.signalled ==> m.status == Signalled
  {
    PopPastEnd(p.nodes, |p.nodes| - n, []);
  }

  // ---------------------------------------------------------------------------
  // Lemmas

  lemma LaunchPreservesValid(p: Pool)
    requires Valid(p)
    ensures Valid(Launch(p))
  {
  }

  /** The constructor yields a valid pool; with `first_bootstrap` it runs exactly
      one node, on the configured port, and moves the counter past it. */
  lemma InitValid(iface: Option<string>, addrs: seq<Interfaces.IfAddr>, ip4: Option<string>, ip6: Option<string>,
                  port: int, bootstrap: seq<Peer>, firstBootstrap: bool)
    ensures var r := Init(iface, addrs, ip4, ip6, port, bootstrap, firstBootstrap);
      && Valid(r)
      && (!firstBootstrap ==> r.nodes == [] && r.port == port && r.bootstrap == bootstrap)
      && (firstBootstrap ==>
            && |r.nodes| == 1 && r.nodes[0].port == port && r.port == port + 1 && r.nodes[0].contacted == bootstrap
            && r.nodes[0].ip4 == r.ip4 && r.nodes[0].ip6 == r.ip6)
  {
  }

  /** With `first_bootstrap`, the constructor appends one entry per truthy
      address, the IPv4 one first, each naming the first node's port; none is
      appended exactly when neither address is truthy. */
  lemma InitRegistersFirstNode(iface: Option<string>, addrs: seq<Interfaces.IfAddr>, ip4: Option<string>, ip6: Option<string>,
                               port: int, bootstrap: seq<Peer>)
    ensures var r := Init(iface, addrs, ip4, ip6, port, bootstrap, true);
      && (forall i :: |bootstrap| <= i < |r.bootstrap| ==>
            IsDecimal(r.bootstrap[i].port) && ParseInt(r.bootstrap[i].port) == r.nodes[0].port
            && Truthy(r.bootstrap[i].addr))
      && (|r.bootstrap| == |bootstrap| <==> !Truthy(r.ip4) && !Truthy(r.ip6))
      && |r.bootstrap| == |bootstrap| + (if Truthy(r.ip4) then 1 else 0) + (if Truthy(r.ip6) then 1 else 0)
      && (Truthy(r.ip4) ==> r.bootstrap[|bootstrap|] == Peer(r.ip4, IntToString(port)))
      && (Truthy(r.ip6) ==> r.bootstrap[|r.bootstrap| - 1] == Peer(r.ip6, IntToString(port)))
  {
    IntToStringRoundTrip(port);
  }

  /** After any launch the bootstrap list is non-empty, and a fallback entry
      installed by the launch names the port of the node just started. */
  lemma LaunchRegistersFallback(p: Pool)
    ensures var r := Launch(p);
      && |r.bootstrap| > 0
      && (|p.bootstrap| == 0 ==> ParseInt(r.bootstrap[0].port) == r.nodes[|p.nodes|].port)
      && (|p.bootstrap| == 0 ==> r.bootstrap[0].addr == if Truthy(p.ip4) then p.ip4 else p.ip6)
  {
    IntToStringRoundTrip(p.port);
  }

  /** `end_node` undoes the pool change of `launch_node`: the launched node is the
      one popped and joined, and the earlier nodes are back as they were. */
  lemma EndNodeUndoesLaunch(p: Pool)
    ensures var q := Launch(p);
      var o := EndNode(q);
      && o.pool.nodes == p.nodes
      && o.retired == [q.nodes[|p.nodes|].(status := Joined)]
      && o.trace == [Join(p.port)]
  {
  }

  lemma EndNodePreservesValid(p: Pool)
    requires Valid(p)
    ensures Valid(EndNode(p).pool)
  {
    if |p.nodes| > 0 {
      assert Ports(EndNode(p).pool.nodes) == Ports(p.nodes)[..|p.nodes| - 1];
    }
  }

  lemma ShutdownPreservesValid(p: Pool)
    requires Valid(p)
    ensures Valid(Shutdown(p))
  {
  }

  /** `shutdown` is idempotent. */
  lemma ShutdownIdempotent(p: Pool)
    ensures Shutdown(Shutdown(p)) == Shutdown(p)
  {
  }

  /** `front()` is `get(0)`, with `None` where `get(0)` raises. */
  lemma FrontIsGetZero(p: Pool)
    ensures Front(p).None? <==> Get(p, 0).IndexError?
    ensures Front(p).Some? ==> Get(p, 0) == Found(Front(p).value)
  {
  }

  /** `get(-1)` after a launch is the node just launched. */
  lemma GetLastAfterLaunch(p: Pool)
    ensures var r := Launch(p);
      Get(r, -1).Found? && Get(r, -1).node.port == p.port && Get(r, -1).node.contacted == p.bootstrap
  {
  }

  // ---------------------------------------------------------------------------
  // Permutations of the pool (`random.shuffle`)

  /** A shuffled valid pool is valid. */
  lemma ShufflePreservesValid(p: Pool, shuffled: seq<Node>)
    requires Valid(p)
    requires multiset(shuffled) == multiset(p.nodes)
    ensures Valid(p.(nodes := shuffled))
  {
    PermutedImage(PortOf, shuffled, p.nodes);
    PermutedDistinct(Ports(shuffled), Ports(p.nodes));
    forall i | 0 <= i < |shuffled|
      ensures shuffled[i].port < p.port && shuffled[i].status == Running
    {
      assert shuffled[i] in multiset(p.nodes);
      var k :| 0 <= k < |p.nodes| && p.nodes[k] == shuffled[i];
    }
  }

  lemma ReplaceNodePreservesValid(p: Pool, shuffled: seq<Node>)
    requires Valid(p)
    requires multiset(shuffled) == multiset(p.nodes)
    ensures Valid(ReplaceNode(p, shuffled).pool)
  {
    ShufflePreservesValid(p, shuffled);
    EndNodePreservesValid(p.(nodes := shuffled));
    LaunchPreservesValid(EndNode(p.(nodes := shuffled)).pool);
  }

  /** `replace_node` on a non-empty pool retires one of its nodes, joined, and
      replaces that node's port by the old counter value: the pool keeps its size. */
  lemma ReplaceNodeSwapsOnePort(p: Pool, shuffled: seq<Node>)
    requires multiset(shuffled) == multiset(p.nodes)
    requires |p.nodes| > 0
    ensures var o := ReplaceNode(p, shuffled);
      && |o.pool.nodes| == |p.nodes|
      && o.pool.port == p.port + 1
      && |o.retired| == 1 && o.retired[0].status == Joined
      && o.trace == [Join(o.retired[0].port)]
      && o.retired[0].port in Ports(p.nodes)
      && multiset(Ports(o.pool.nodes)) == multiset(Ports(p.nodes)) - multiset{o.retired[0].port} + multiset{p.port}
  {
    assert |shuffled| == |multiset(shuffled)| == |p.nodes|;
    var q := p.(nodes := shuffled);
    EndThenLaunchPorts(q);
    PermutedImage(PortOf, shuffled, p.nodes);
    var x := shuffled[|shuffled| - 1].port;
    assert x in multiset(Ports(shuffled));
  }

  /** Ending the last node and launching one swaps the last node's port for the counter. */
  lemma EndThenLaunchPorts(q: Pool)
    requires |q.nodes| > 0
    ensures var x := q.nodes[|q.nodes| - 1].port;
      multiset(Ports(Launch(EndNode(q).pool).nodes)) == multiset(Ports(q.nodes)) - multiset{x} + multiset{q.port}
  {
    var kept, last := q.nodes[..|q.nodes| - 1], q.nodes[|q.nodes| - 1];
    assert q.nodes == kept + [last];
    var r := Launch(EndNode(q).pool);
    var added := r.nodes[|kept|];
    assert r.nodes == kept + [added];
    ImageConcat(PortOf, kept, [last]);
    ImageConcat(PortOf, kept, [added]);
  }

}
