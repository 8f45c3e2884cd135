# DhtNetwork node pool, modelled in Dafny

`DhtNetwork` (python/tools/dhtnetwork.py) brings up a local cluster of OpenDHT
nodes for testing and benchmarking. It then grows, shrinks, churns and drains
that cluster. This project models its bookkeeping as an immutable `Pool` value:

- the ordered node records, each with its address pair, its port, the bootstrap
  list it was told to contact, and the status of its runner handle
  (`Running`, `Signalled` after `shutdown()`, `Joined` after `join()`);
- the next-port counter;
- the bootstrap list of (address, port-as-text) entries;
- the `quit` flag that stops a growing `resize`.

The operations are pure transition functions, plus methods for the two phases of
`resize`:

- `Init` (the `first_bootstrap` constructor path), `Launch` (`launch_node`),
  `EndNode` (`end_node`) and `ReplaceNode` (`replace_node`);
- `Resize` (`resize`), built from `GrowTo` (the growth loop) and `Shrink` (the two-phase shrink);
- `Shutdown` (`shutdown`), `Front` (`front`) and `Get` (`get`).

Calls made on removed runners are returned as an event trace (`Signal`/`Join`).
The address-selection scan of `find_ip` is modelled separately in `Interfaces`,
over a given list of interface addresses.

Files:

- `wrappers.dfy`: `Option` and the truthiness of a value that may be `None` or a string.
- `decimal.dfy`: `str(int)` and its inverse, with the round-trip proof.
- `interfaces.dfy`: the `find_ip` scan and its reference definition.
- `seqs.dfy`: how reordering a sequence affects its image and the distinctness of its elements.
- `node_pool.dfy`: the pool, its invariant, and the properties of each transition.

Modelling choices:

- A Python value that may be `None` or a `str` is an `Option<string>`. `Truthy`
  is false for both `None` and `""`, as in Python.
- `nodes` is a class-level list in the source, so every instance shares it.
  Here it is a field of each `Pool`. The constructor's default `bootstrap=[]` is
  aliased and mutated in the source. Here it is a value.
- `random.shuffle` becomes a caller-supplied `shuffled` sequence with the same
  multiset of nodes. Any permutation is allowed; no distribution is modelled.
- `shutdown()` can be called by a signal handler that runs between steps of
  `resize`, in the same thread (for instance during a node's settle delay).
  `Resize` takes this as a parameter `arrival`. `None` means no request arrives during the
  call. `Some(k)` means the growth loop sees the flag set once this call has made
  `k` launches. When there is no growth, `Some(k)` means the flag is set before
  the call returns.
- `front()` and `get(n)` return the runner `nodes[i][1]`. `Front` and `Get`
  return the whole node record, which carries that runner's status.

Where the code's behaviour differs from what its callers would expect, the model
follows the code:

- `replace_node` on an empty pool is not a no-op. `end_node` does nothing, but
  `launch_node` still runs, so the pool gains one node.
- The constructor's `first_bootstrap` path registers the first node only under
  its truthy addresses. It does not apply `launch_node`'s fallback. If neither
  address is truthy and no seed list was given, a node runs while the bootstrap
  list stays empty (`InitRegistersFirstNode`).
- The fallback entry of `launch_node` uses `ip4` when it is truthy and `ip6`
  otherwise. That may be `None` or `""`.

One exception: `resize` bounds `n` only from above, so a negative `n` raises
part-way through the shrink path. `ResizeShrinkAsWritten` models that code as
written. `Resize` is the corrected version, which clamps `n` to `[0, 500]`. See
Findings.

## Model

| member | source | states |
|---|---|---|
| Interfaces.ScanFrom | python/tools/dhtnetwork.py:36-44 | the loop, from index `i` with the pair chosen so far, stops within the list; it stops before the end only once both slots are truthy |
| Interfaces.FindIp | python/tools/dhtnetwork.py:29-31 | an unset, empty or `'any'` interface gives `('0.0.0.0', '')` |
| Interfaces.ScanFromMatchesReference | python/tools/dhtnetwork.py:36-44 | from any point of the loop, the scan returns the last IPv4 and last non-link-local IPv6 address of the prefix it examined; no shorter prefix had both truthy; it stopped early only when both were truthy |
| Interfaces.ScanStopsAtFirstPair | python/tools/dhtnetwork.py:32-49 | the scan stops right after the first prefix in which both an IPv4 and a non-link-local IPv6 address are chosen; it returns the last ones of each kind in that prefix |
| Interfaces.FindIpSelectsOnlyListed | python/tools/dhtnetwork.py:36-42 | on a named interface, the IPv4 slot holds an IPv4 address of the list and the IPv6 slot a non-link-local IPv6 address of the list |
| Decimal.IntToStringRoundTrip | python/tools/dhtnetwork.py:81 | the port text put in a bootstrap entry parses back to the port (`int(str(p)) == p`, negatives included) |
| Decimal.IntToStringInjective | python/tools/dhtnetwork.py:61-63 | distinct ports give distinct bootstrap port texts |
| NodePool.RunNode | python/tools/dhtnetwork.py:16-26 | a new runner is bound to the given addresses and port, is running, and was told to contact exactly the given bootstrap list |
| NodePool.Init | python/tools/dhtnetwork.py:51-64 | each address is the explicit one when it is truthy and otherwise the one `find_ip` chose for the interface; a new pool has `quit` unset and keeps the seed bootstrap list as a prefix of its list |
| NodePool.InitValid | python/tools/dhtnetwork.py:52-64 | the constructor yields a pool satisfying the invariant; with `first_bootstrap` it runs exactly one node, bound to the pool's addresses and the starting port, which contacted the seed list, and the counter moves past that port; otherwise it runs none |
| NodePool.InitRegistersFirstNode | python/tools/dhtnetwork.py:57-64 | the constructor appends one entry per truthy address: `(ip4, str(port))` first when `ip4` is truthy, `(ip6, str(port))` last when `ip6` is truthy; each port text parses back to the first node's port; none is appended exactly when neither address is truthy |
| NodePool.Launch | python/tools/dhtnetwork.py:75-83 | appends exactly one running node, bound to the pool's `ip4` and `ip6` and the old counter value, which contacted the old bootstrap list; earlier nodes are unchanged; the counter advances by 1; an empty bootstrap list becomes exactly `[(ip4 if ip4 else ip6, str(old port))]` and a non-empty one is unchanged |
| NodePool.LaunchRegistersFallback | python/tools/dhtnetwork.py:78-81 | after a launch the bootstrap list is non-empty; an installed fallback entry names the launched node's port and the pool's preferred address |
| NodePool.LaunchPreservesValid | python/tools/dhtnetwork.py:75-83 | launching keeps ports pairwise distinct and below the counter, with all live runners running |
| NodePool.EndNode | python/tools/dhtnetwork.py:85-89 | on an empty pool nothing changes and no runner is touched; otherwise exactly the last node is removed, the rest is untouched, and the removed node's runner is joined |
| NodePool.EndNodeUndoesLaunch | python/tools/dhtnetwork.py:75-89 | `end_node` after `launch_node` removes and joins exactly the node just launched and restores the earlier node list |
| NodePool.EndNodePreservesValid | python/tools/dhtnetwork.py:85-89 | ending a node keeps the invariant |
| NodePool.ReplaceNode | python/tools/dhtnetwork.py:91-94 | the counter always advances by 1; a non-empty pool keeps its size and an empty one gains one node (it is exactly a launch); the addresses and flag are unchanged, a non-empty bootstrap list is unchanged and an empty one becomes the pool's fallback entry; the new last node is `run_node(ip4, ip6, port, bootstrap)`; on a non-empty pool the retired node is the last one after the shuffle, joined, and the kept nodes together with it are exactly the old nodes |
| NodePool.ReplaceNodeSwapsOnePort | python/tools/dhtnetwork.py:91-94 | on a non-empty pool, for any shuffle, one existing node is retired and joined; the multiset of ports loses that node's port and gains the old counter value |
| NodePool.EndThenLaunchPorts | python/tools/dhtnetwork.py:93-94 | ending the last node and launching one swaps the last node's port for the counter value in the multiset of ports |
| NodePool.ShufflePreservesValid | python/tools/dhtnetwork.py:92 | any reordering of a valid pool's nodes is valid |
| NodePool.ReplaceNodePreservesValid | python/tools/dhtnetwork.py:91-94 | replacing a node, under any shuffle, keeps the invariant |
| NodePool.Shutdown | python/tools/dhtnetwork.py:118-119 | sets `quit` and changes nothing else |
| NodePool.ShutdownPreservesValid | python/tools/dhtnetwork.py:118-119 | setting the flag keeps the invariant |
| NodePool.ShutdownIdempotent | python/tools/dhtnetwork.py:118-119 | calling `shutdown` twice has the same effect as calling it once |
| NodePool.Front | python/tools/dhtnetwork.py:67-70 | `None` exactly for an empty pool, else the oldest node |
| NodePool.Get | python/tools/dhtnetwork.py:72-73 | finds a node exactly for indices in `[-len, len)`, with negative indices counting from the end; any other index is an `IndexError` |
| NodePool.FrontIsGetZero | python/tools/dhtnetwork.py:67-73 | `front()` agrees with `get(0)`, answering `None` where `get(0)` raises |
| NodePool.GetLastAfterLaunch | python/tools/dhtnetwork.py:72-83 | after a launch, `get(-1)` is the node just launched on the old counter value |
| NodePool.GrowTo | python/tools/dhtnetwork.py:101-106 | the growth loop (through `Extends`) keeps the old nodes as a prefix; it launches running nodes bound to the pool's addresses on consecutive ports from the old counter and advances the counter by the number launched; the first launched node contacts the old bootstrap list and every later one the final list; a non-empty list is never changed and an empty one becomes the pool's fallback entry once a node is launched; it stops short of `target` only when it sees the flag; with the flag already set it launches nothing; with a request after `k` launches it launches at most `k`; the invariant is kept |
| NodePool.LaunchExtends | python/tools/dhtnetwork.py:103-106 | one more `launch_node` keeps what the growth loop promises: the old prefix, consecutive ports bound to the pool's addresses, each launched node contacting the list as it stood at its launch, a non-empty list kept and an empty one replaced by the fallback entry |
| NodePool.Shrink | python/tools/dhtnetwork.py:107-116 | the two loops leave exactly `nodes[..target]`; the first pops and signals the surplus last-first, the second joins them in the same order; every removed port is signalled and joined and no other port is touched; every signal precedes every join; the removed runners all end joined; the invariant is kept |
| NodePool.PopAndSignalSurplus | python/tools/dhtnetwork.py:110-114 | the first shrink loop leaves `nodes[..target]` and has popped and signalled each surplus node, last first, recording one `shutdown()` per popped node in the same order |
| NodePool.JoinAll | python/tools/dhtnetwork.py:115-116 | the second shrink loop joins every popped runner once, in the order they were popped |
| NodePool.ConcatIsTwoPhase | python/tools/dhtnetwork.py:110-116 | the signals of the first loop followed by the joins of the second signal the surplus last first and then join it in the same order |
| NodePool.TwoPhaseTrace | python/tools/dhtnetwork.py:110-116 | a trace that signals the surplus nodes and then joins them touches exactly the removed ports, with every signal before every join |
| NodePool.PrefixPreservesValid | python/tools/dhtnetwork.py:111-112 | popping nodes from the end keeps the invariant |
| NodePool.Resize | python/tools/dhtnetwork.py:96-116 | for `0 <= n` this is the code's `min(n, 500)`; a negative `n` is taken as 0 (the corrected behaviour, see Findings); without a shutdown the pool ends at the target size; at the current size it is a no-op; growth keeps the prefix, launches running nodes bound to the pool's addresses on consecutive ports, each contacting the bootstrap list as it stood at its launch, installs the fallback entry in an empty bootstrap list once a node is launched and otherwise leaves the list unchanged, and stops short of the target only when it sees the flag; shrink keeps `nodes[..target]`, retires the removed nodes last first, joined, signals them last first and then joins them in the same order, touching no other port; `resize(0)` drains the pool with every runner joined; the invariant is kept |
| NodePool.PopAndSignal | python/tools/dhtnetwork.py:111-114 | `count` rounds of the first shrink loop as written raise exactly when `count` exceeds the number of nodes; nodes already signalled stay at the front of `toend` |
| NodePool.ResizeShrinkAsWritten | python/tools/dhtnetwork.py:97-116 | the shrink path with only `min(n, 500)` applied completes exactly when `n >= 0`, and otherwise raises; the counter and bootstrap list are untouched |
| NodePool.PopPastEnd | python/tools/dhtnetwork.py:111-114 | asking the first shrink loop for more pops than there are nodes signals every node, then raises on the empty list |
| NodePool.PopWithin | python/tools/dhtnetwork.py:111-114 | with at most as many pops as nodes, the first shrink loop leaves the prefix and does not raise |
| NodePool.NonNegativeResizeCompletes | python/tools/dhtnetwork.py:96-116 | for `n >= 0` the shrink path as written completes with `nodes[..min(n, 500)]` and retires the removed nodes last first, joined: the same pool and retired list that `Shrink` promises |
| NodePool.NegativeResizeLeavesNodesUnjoined | python/tools/dhtnetwork.py:97-116 | as written, a negative `n` signals every node, empties the pool and raises before any join; on an empty pool it raises with nothing signalled |

## Findings

| source | as written | input that shows it | evidently intended | confidence | as-written member | corrected member |
|---|---|---|---|---|---|---|
| python/tools/dhtnetwork.py:97-116 | `n = min(n, 500)` bounds the target only from above, so `for i in range(n, l)` runs `l - n` pops | `resize(-1)` on a pool of one node: the node is popped and signalled, the second `pop()` raises `IndexError`, and the join loop never runs, so the node leaves the pool signalled but never joined; `resize(-1)` on an empty pool raises `IndexError` at once | clamp the target to `[0, 500]`, so that a negative size drains the pool and joins every node | medium, not executed | NodePool.NegativeResizeLeavesNodesUnjoined (about NodePool.ResizeShrinkAsWritten) | NodePool.Resize (via NodePool.Target) |

## Left out

- `run_node` internals: `Identity()`, `DhtRunner.run`, the per-entry `bootstrap` calls and their effects. These are calls into the OpenDHT engine. A node records only its addresses, its port, the list it was told to contact and its handle status.
- Startup failures raised by the engine inside `run_node`. The engine is opaque, so every launch is modelled as succeeding.
- The `is_bootstrap` flag of `run_node`. Every call in the core passes `False`.
- The `time.sleep(0.050)` settle delay and all `print` output. These are timing and I/O.
- The `pyroute2.IPDB` interface lookup and the `except`/`finally` around it. This is an operating-system call. The scan takes the interface's address list as a parameter.
- The blocking behaviour of `join()`, which has no timeout. The model records only that the call is made.
- The `__main__` block: signal handlers, the `threading.Condition` wait, argument parsing and the blanket `except: pass`. These are OS-signal and concurrency plumbing. A `shutdown()` from a signal handler during `resize` is represented only by the `arrival` parameter.
- The distribution of `random.shuffle`. Any permutation is allowed.
- The sharing of `nodes` between instances and the aliasing of the default `bootstrap` list. Each pool owns its own values.
- NodePool.Init: the contract states the address resolution, the flag and the seed prefix. Validity, the first node and the registered entries are stated by `InitValid` and `InitRegistersFirstNode`.
- NodePool.Resize: for a negative `n` it is the corrected behaviour, not the code's. It drains the pool and joins every node, where the code raises `IndexError` (see Findings and `NegativeResizeLeavesNodesUnjoined`).
