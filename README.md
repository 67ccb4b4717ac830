# ws-speed-test client, modelled in Dafny

This project models the ranking and funnel logic of the speed-test client
(`client/stClient.go`). The client reads candidate addresses from a file, or
from DNS A records when the file cannot be read. It pings every candidate
with a pool of workers and sorts the nodes by the ranking order. Then it
measures download throughput for the best `pingCount` nodes, sorts again and
reports the best `downloadCount`.

Modules, one file each:

- `ranking.dfy` (`Ranking`): the `Node` record and the comparator `Less`. Higher speed ranks first, and equal speed is broken by lower latency. The module proves that `Less` is a strict weak order but not a total one.
- `sorting.dfy` (`Sorting`): `Swap`, and `sort.Sort` as an in-place insertion sort on an `array<Node>` that moves nodes only through `Swap`. Also `toChannel`.
- `probes.dfy` (`Probes`): `httpGet` and `speedTest`, with the network reduced to the outcome of one attempt. The failure sentinels are 32767 for latency and 0 for throughput.
- `dispatch.dfy` (`Dispatch`): the shared `int32` counter `ops` as a `Dispenser` class that starts at -1. Also the index sequences it hands out.
- `stages.dfy` (`Stages`): the worker loops of `ping` and `speed`. The goroutines are run one turn at a time, and any worker still running may take the next turn (a nondeterministic choice).
- `sources.dfy` (`Sources`): `strings.Split` on `"\n"`, `readIps`, and the dedup loop of `findIp` over the resolvers' replies.
- `client.dfy` (`Client`): `main`, and a corrected variant of it (see Findings).

Behaviour worth noting:

- Ties are broken by latency only; the address is never compared.
- A failed ping records `math.MaxInt16` (32767) as its latency.
- Lines of the file are not trimmed. An empty file gives one empty candidate.
- An unreadable file falls back to DNS, and DNS may yield an empty list. Nothing checks for an empty candidate list; with a positive `-pn` the slice at client/stClient.go:77 then panics (see Findings).
- The order has no special case for unreachable nodes; only their keys place them. In the list `ping` sorts, every node whose ping failed comes after every node that answered (`RespondersFirst`). A node whose download failed has speed 0, so it ranks behind every node with a positive throughput (`FailedDownloadRanksLast`), but still ahead of zero-speed nodes with a higher latency. A node whose ping failed can still enter `list[:pingCount]` when there are fewer responders than `pingCount`, and if its download then succeeds it ranks ahead of every zero-speed node.
- A candidate holding a control character (such as the carriage return left by a CRLF file) makes `httpGet` panic, so `ping` and `main` require control-free addresses whenever there is at least one ping worker (see Findings). With no ping worker nothing is probed and no address is checked.

## Model

| member | source | states |
|---|---|---|
| Ranking.Less | client/stClient.go:36-44 | the comparator: a node ranks ahead exactly when its speed is higher, or its speed is equal and its latency lower; so a node ahead never has a lower speed |
| Ranking.LessIsIrreflexive | client/stClient.go:36-44 | no node ranks ahead of itself |
| Ranking.LessIsAsymmetric | client/stClient.go:36-44 | if a ranks ahead of b, b does not rank ahead of a |
| Ranking.LessIsTransitive | client/stClient.go:36-44 | the ranking order is transitive |
| Ranking.TiedIffSameKeys | client/stClient.go:36-44 | two nodes are incomparable exactly when they have equal speed and equal time; the address plays no part |
| Ranking.TiedIsTransitive | client/stClient.go:36-44 | incomparability is transitive, so `Less` is a strict weak order |
| Ranking.LessIsNotTotal | client/stClient.go:36-44 | two distinct nodes can be incomparable, so there is no total order |
| Ranking.SortedByLatencyWhenSpeedsEqual | client/stClient.go:42 | while every speed is 0, a sorted list has non-decreasing latencies |
| Ranking.SortedSpeedsDecrease | client/stClient.go:37-40 | in a sorted list speeds never increase |
| Sorting.Swap | client/stClient.go:45-47 | exchanges exactly the two entries and leaves the multiset of nodes unchanged |
| Sorting.Insert | client/stClient.go:78 | one insertion step extends the sorted prefix by one node, moves only nodes of that prefix and keeps the multiset |
| Sorting.Sort | client/stClient.go:78 | after `sort.Sort` no later node is `Less` than an earlier one, and the list is a permutation of the old list |
| Sorting.ToChannel | client/stClient.go:109-126 | sorts the list (sorted permutation), then emits exactly `min(maxCount, len)` nodes (none for a non-positive count), which are the first nodes of the sorted list in order |
| Probes.Truncate | client/stClient.go:200 | Go's `int(t)` truncates toward zero: the result is within 1 of `t`, on the side of 0 |
| Probes.HttpGet | client/stClient.go:190-202 | the latency is the sentinel 32767 exactly when the request fails (no connection, or over the 1500 ms timeout); otherwise it is below 1500 and is the elapsed milliseconds truncated |
| Probes.HttpGetChecked | client/stClient.go:190-202 | corrected `httpGet`: an address whose request cannot be built records the sentinel 32767 like any failure; the sentinel appears exactly when the request cannot be built or fails, and elsewhere the result is `httpGet`'s |
| Probes.SpeedTest | client/stClient.go:169-188 | the throughput is 0 when the dial or the read fails, else the measured rate |
| Probes.FailedPingRanksLast | client/stClient.go:196 | at equal speed, a node whose ping failed ranks behind a node whose ping succeeded |
| Probes.FailedDownloadRanksLast | client/stClient.go:175-182 | a node whose download failed ranks behind every node with a positive throughput, whatever the latencies |
| Dispatch.WrapInt32 | client/stClient.go:96 | `atomic.AddInt32` wraps modulo 2^32 into the signed range and is the identity inside it |
| Dispatch.Dispenser.constructor | client/stClient.go:92 | the counter starts at -1 |
| Dispatch.Dispenser.Next | client/stClient.go:96 | each draw increments the counter (with int32 wrap) and hands out its new value |
| Dispatch.Iota | client/stClient.go:92-101 | the indices handed out by successive draws are 0, 1, 2, ... in order |
| Dispatch.IotaExactlyOnce | client/stClient.go:141-152 | every index below n is handed out exactly once, and no other value appears |
| Dispatch.Workers | client/stClient.go:93 | the workers of a stage are exactly the identities 0 .. routine-1 |
| Dispatch.WorkersCount | client/stClient.go:139 | a stage starts `routine` workers |
| Stages.PingNode | client/stClient.go:147-149 | the node recorded for one address (built at :149 and copied at :163) carries that address and speed 0, and latency 32767 exactly when the probe failed or the request could not be built |
| Stages.Pinged | client/stClient.go:145-149 | one pinged node per address, in input order: its own address, speed 0, latency 32767 exactly when the probe failed (or the request could not be built), and below 1500 otherwise |
| Stages.Ping | client/stClient.go:127-167 | `ping` requires, when it has at least one worker, every address to be free of control characters (else `httpGet` panics); it returns a sorted list that is a permutation of one pinged node per address; the probed indices are 0..n-1 once each; the counter hands out n + routine values, one out-of-range draw per worker; with no worker the list is empty |
| Stages.PingWorkers | client/stClient.go:138-164 | the worker goroutines, their result channel and the loop that collects it: with at least one worker, exactly one node per address is collected, the probed indices are 0..n-1 once each, and n + routine draws are made; with none, nothing is probed |
| Stages.RespondersFirst | client/stClient.go:165 | in the list `ping` sorted, a node whose probe failed is followed only by nodes whose probes failed |
| Stages.Measured | client/stClient.go:98 | a node after its throughput probe keeps its address and latency; its speed is 0 when the dial or the read failed, and the measured rate otherwise |
| Stages.SpeedResult | client/stClient.go:98 | the list after `speed` has the same length as before |
| Stages.Speed | client/stClient.go:85-107 | `speed` on `list[:count]` measures each node of the slice exactly once and writes the result into its `speed`; indices 0..count-1 are processed once each and every worker stops at its first out-of-range draw |
| Stages.SpeedFrame | client/stClient.go:97-98 | `speed` changes only the `speed` field and only of nodes inside the slice; `ip` and `time` never change, and nodes outside the slice are untouched |
| Sources.Split | client/stClient.go:57 | `strings.Split` always yields at least one segment |
| Sources.SplitShape | client/stClient.go:57-61 | the file yields exactly newline-count + 1 segments, and no segment holds a newline |
| Sources.JoinSplit | client/stClient.go:57 | joining the segments with newlines gives back the whole text: nothing is trimmed or dropped |
| Sources.SplitJoin | client/stClient.go:57 | lines without newlines, joined and split again, come back unchanged |
| Sources.Candidates | client/stClient.go:49-63 | the candidate list is the file's segments, or the DNS addresses when the file is unreadable |
| Sources.CandidatesSpec | client/stClient.go:49-63 | a readable file gives one untrimmed entry per line that joins back to the text; otherwise every answered address appears, each once |
| Sources.EmptyFileOneBlankCandidate | client/stClient.go:57-61 | an empty file gives exactly one candidate, the empty string |
| Sources.ReadIps | client/stClient.go:49-63 | `readIps` copies every segment in order, or returns `findIp`'s list when the file cannot be read |
| Sources.ARecords | client/stClient.go:247-249 | at most one address per record |
| Sources.ARecordsSpec | client/stClient.go:247-249 | the addresses taken from an answer section are exactly those of its A records; other record types contribute nothing |
| Sources.Answers | client/stClient.go:235-245 | replies with no response or a failure rcode contribute nothing |
| Sources.AddNew | client/stClient.go:250-259 | the list's values become the old values plus the new address, a duplicate-free list stays duplicate-free, and the old entries keep their places with at most one entry appended |
| Sources.Dedup | client/stClient.go:250-259 | deduplication never lengthens the sequence |
| Sources.DedupSpec | client/stClient.go:250-259 | the accumulated list has no duplicates, holds exactly the A-record addresses seen, and keeps them in first-seen order |
| Sources.IsNew | client/stClient.go:250-256 | the inner search with its `flag` returns true exactly when the address is not yet in the list |
| Sources.AddAnswer | client/stClient.go:247-261 | the inner loops with their `flag` add one answer section's A records as the dedup of everything seen so far |
| Sources.FindIp | client/stClient.go:204-264 | `findIp` returns the order-preserving dedup of all A-record addresses, taken resolver by resolver |
| Client.PingedCount | client/stClient.go:76 | `ping` returns no more nodes than there are candidates |
| Client.Run | client/stClient.go:65-83 | `main`, given in-bounds counts and, when there is a ping worker, control-free candidates: the shortlist is a sorted permutation of the pinged candidates; the final list is a sorted permutation of the shortlist after `speed` on `list[:pingCount]`; the report is its first `downloadCount` nodes |
| Client.DefaultFlagsOverrunShortFile | client/stClient.go:70-81 | with the default flags, any candidate file of fewer than 50 lines violates the bounds `main` needs |
| Client.Clamp | client/stClient.go:112-117 | the count clamped into `[0, limit]`: unchanged when inside, 0 when negative, `limit` when above it |
| Client.CrlfFileBreaksPing | client/stClient.go:57-61 | a two-line CRLF file yields a first candidate ending in a carriage return, which violates the requirement `ping` needs to not panic |
| Client.RunClamped | client/stClient.go:76-81 | corrected `main`, given control-free candidates when there is a ping worker: it never goes out of bounds, and the report has exactly `min(downloadCount, len)` nodes (0 if negative), the first ones of the final ranking |

## Findings

| source | as written | input that shows it | evidently intended | confidence | as-written member | corrected member |
|---|---|---|---|---|---|---|
| client/stClient.go:77-81 | `list[:*pingCount]` and `list[i]` for `i < *downloadCount` with no bound check against the number of candidates | a candidate file of fewer than 50 lines with the default `-pn 50 -dn 20 -d 4` (for example two addresses): `list[:50]` panics when 50 exceeds the list's capacity; for 33 to 49 lines `append` leaves capacity 64, the slice succeeds, and `speed` panics when it dereferences the nil nodes past the end at :98; with fewer than 20 nodes the read `list[i]` panics as well | clamp both counts to the list length, as `toChannel` does with its `maxCount` | high (not executed) | Client.DefaultFlagsOverrunShortFile | Client.RunClamped |
| client/stClient.go:191-192 | the error of `http.NewRequest` is discarded and `request.Header.Set` is called on the nil request | a file saved with CRLF line ends: every line but the last keeps its `\r`, the URL parser refuses the control character, and the ping goroutine panics, ending the client | treat a request that cannot be built as a failed probe and record 32767 | high (not executed) | Client.CrlfFileBreaksPing | Probes.HttpGetChecked |

## Left out

- Goroutines, `sync.WaitGroup`, channels and the real atomic instructions. Each stage is run one worker turn at a time. `ping` collects its results in index order, not completion order; this does not matter, because the list is sorted afterwards and the model states it only up to permutation.
- The network: `http.Client.Do`, the websocket dial and read, the TLS settings, and the `Host` header. Each probe is an outcome given as a function of the address, so the network is treated as deterministic.
- The DNS exchange and the hard-coded resolver list. `findIp` takes the resolvers' replies, in order, as a parameter.
- Floating-point arithmetic and the wall clock. Elapsed time and throughput are exact `real` values given by the outcome. `speed` is a `real`, since only comparisons are made on it.
- Probes.HttpGet: among addresses the URL parser refuses, only those with a control character are modelled. Others, such as an address with a space, also leave the request nil and make the ping goroutine panic, but the model treats them as an ordinary probe outcome.
- Probes.HttpGet: the client's 1500 ms timeout is modelled as "a response at or after 1500 ms fails". The exact boundary behaviour of Go's timer is not modelled.
- Probes.SpeedTest: every stream outcome is assumed to complete. `speedTest` bounds only the handshake (2 s); `ReadMessage` has no deadline, so a transfer that never completes blocks its worker, and with it `speed` and `main`, forever. The model does not capture this.
- Sorting.Sort: the order that Go's `sort.Sort` gives to tied nodes is not modelled. Any sorted permutation is accepted. Sorting is not stable, and tied nodes may come out in any order.
- Stages.Ping and Stages.Speed: the `int32` counter is required not to wrap (candidates plus workers at most 2^31). Wrap-around itself is modelled in `WrapInt32`.
- Client.Run: `pingCount` must not exceed the list length. Go allows slicing up to the capacity, but the nodes beyond the length are nil and `speed` would panic on them when it has any worker.
- A negative worker count is excluded by precondition, because `WaitGroup.Add` panics on it.
- Flag parsing and its defaults, `GOMAXPROCS`, logging, and `Node.String` formatting.
- server/stServer.go is not part of this model.
