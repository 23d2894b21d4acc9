# Verified model of four small Rust data structures and protocols

This project models, in Dafny, the core of a Rust repository that collects
four exercises:

- **linklist**: a doubly linked list with a head and a tail sentinel, and a cursor over it.
- **skiplist**: a skip list whose levels are doubly linked chains. Each level has a head node, and the nodes of one value form a tower linked by `below`/`above`.
- **little_kademlia**:
  - the k-buckets of a Kademlia node;
  - the `NearNode` record with its reversed ordering;
  - the node lookup that merges `FindNode` answers into the list of the `BUCKET_K` nearest nodes.
- **myraft**: the routing table of a Raft node, mapping peer ids to addresses, and its merge with an update.

The pointer structures stay pointer structures:

- Nodes are Dafny classes whose `next`/`prev`/`below`/`above` fields are rewired in place.
- The proofs relate them to a ghost view: `Contents` for the list, and `Levels`/`Vals` for the skip list.

The k-buckets and the routing table are classes whose fields (`data`, `routingTable`) the methods reassign. Loops stay loops, with their invariants. Pure code (the `NearNode` ordering) becomes functions and lemmas.

Files:

| file | module | models |
|---|---|---|
| options.dfy | `Options` | `Option` |
| linklist.dfy | `Linklist` | linklist/src/linklist.rs |
| skiplist.dfy | `Skiplist` | skiplist/src/skiplist.rs (values are `int`) |
| msg.dfy | `Msg` | little_kademlia/src/msg.rs, and the XOR of 16-bit ids |
| kbucket.dfy | `KBucket` | little_kademlia/src/kbucket.rs |
| kademlia.dfy | `Kademlia` | `update_k_closest` and `look_up` of little_kademlia/src/kademlia.rs |
| network.dfy | `Network` | `new` and `update_rt` of myraft/src/network.rs |

Inputs from outside the program become parameters:

- The coin flips of the skip list's `insert` are `height`, the number of `true` flips before the first `false`.
- The liveness test of the k-buckets is the function field `test`. It must answer one `bool` per address.
- The network replies of the lookup are given as data:
  - one `seq<Reply>` per round;
  - each reply is none, undecodable, or a decoded `MsgAck`.
- The iteration order of a `HashMap` is a nondeterministic choice (`:|`).
- The pop order of a `BinaryHeap` among nodes at the same distance is a nondeterministic choice as well.

Behaviour of the code that the model keeps as written:

- **Last-bucket scan.** When the target falls in the last bucket (index 15), `find_k_nearest` scans that bucket alone and stops. The loop breaks on index 15 before it ever turns downward, so buckets 0–14 are not consulted (kbucket.rs:85-87). `NearestResult` states its completeness claim only for the other buckets, and `Steps(15) == 1`.
- **More than k entries.** A bucket can hold more than `k` entries after `add`. Only a bucket whose length becomes exactly `k + 1` is recorded, and it is fixed once (kbucket.rs:44-47).
- **Which entry is dropped.** The test is asked about the address that took the bucket to `k + 1`. On `true`, it is the newest entry in the bucket that is dropped, with the oldest rotated to the back.
- **Zero bucket size.** `bucket_k == 0` would make `add` unwrap the `pop_front` of an emptied bucket when the test answers `true`. The constructor therefore requires `bucketK >= 1`.
- **Sort before the first round.** Before its first round, `look_up` sorts with `NearNode`'s reversed order, so the farthest nodes come first and are queried first. `update_k_closest` then leaves the list nearest-first.
- **Loop exit.** `look_up` leaves its loop when a round changes the *length* of the list (kademlia.rs:119).

## Model

| member | source | states |
|---|---|---|
| `Linklist.LinkNode.Wrap` | linklist/src/linklist.rs:17-25 | a fresh node holds the given value and links to nothing |
| `Linklist.LinkList.constructor` | linklist/src/linklist.rs:72-83 | an empty, valid list: `len == 0`, no contents, head and tail sentinels pointing at each other |
| `Linklist.LinkList.ChainLinked` | linklist/src/linklist.rs:204-226 | in a valid list, consecutive nodes from head to tail are linked both by `next` and by `prev` |
| `Linklist.LinkList.Len` | linklist/src/linklist.rs:85-88 | `len` is the number of elements |
| `Linklist.LinkList.FirstNode` | linklist/src/linklist.rs:36-39 | the node after the head: the first element node, or the tail when empty |
| `Linklist.LinkList.LastNode` | linklist/src/linklist.rs:41-50 | the node before the tail: the last element node, or the head when empty |
| `Linklist.LinkList.InsertBetween` | linklist/src/linklist.rs:52-60 | `item` ends up linked both ways between `after` and `before`; their outer links are unchanged |
| `Linklist.LinkList.Remove` | linklist/src/linklist.rs:62-68 | the neighbours of `at` are linked to each other; `at` loses both links and is returned |
| `Linklist.LinkList.PushBackNode` | linklist/src/linklist.rs:90-95 | contents `s` become `s + [v]`, `len` grows by one, the list stays valid |
| `Linklist.LinkList.PushFrontNode` | linklist/src/linklist.rs:97-102 | contents `s` become `[v] + s`, `len` grows by one, the list stays valid |
| `Linklist.LinkList.PushBack` | linklist/src/linklist.rs:104-106 | contents `s` become `s + [item]`; the returned node is fresh and holds `Some(item)` |
| `Linklist.LinkList.PushFront` | linklist/src/linklist.rs:108-110 | contents `s` become `[item] + s`; the returned node is fresh and holds `Some(item)` |
| `Linklist.LinkList.PopBackNode` | linklist/src/linklist.rs:112-118 | empty: `None` and no change; otherwise the last node, detached, and contents `s[..|s|-1]` |
| `Linklist.LinkList.PopFrontNode` | linklist/src/linklist.rs:120-126 | empty: `None` and no change; otherwise the first node, detached, and contents `s[1..]` |
| `Linklist.LinkList.PopBack` | linklist/src/linklist.rs:128-134 | empty: `None`; otherwise the last value, and contents `s[..|s|-1]` |
| `Linklist.LinkList.PopFront` | linklist/src/linklist.rs:136-149 | empty: `None`; otherwise the first value, and contents `s[1..]` |
| `Linklist.LinkList.Iter` | linklist/src/linklist.rs:153-158 | a fresh cursor on the head sentinel |
| `Linklist.LinkList.RevIter` | linklist/src/linklist.rs:160-165 | a fresh cursor on the tail sentinel |
| `Linklist.Iter.Next` | linklist/src/linklist.rs:167-174 | `None` without moving before the tail; otherwise moves one step and returns the node of the next value |
| `Linklist.Iter.Prev` | linklist/src/linklist.rs:176-189 | `None` without moving after the head; otherwise moves one step back and returns the node of the previous value |
| `Linklist.ForwardValues` | linklist/src/linklist.rs:278-290 | iterating forward with `next` until `None` yields exactly the contents, in order |
| `Linklist.BackwardValues` | linklist/src/linklist.rs:292-304 | iterating backward with `prev` until `None` yields exactly the reversed contents |
| `Linklist.ReverseAt` | linklist/src/linklist.rs:292-304 | position `k` of the reversed sequence is position `|s|-1-k` of the original |
| `Linklist.MixedPushes` | linklist/src/linklist.rs:244-252 | push_front 2, push_back 3, push_back 4, push_front 1 give `[1, 2, 3, 4]` and `len == 4` |
| `Linklist.PopBackAll` | linklist/src/linklist.rs:254-264 | popping `[1, 2, 3]` from the back yields 3, 2, 1, then `None`, and leaves an empty list |
| `Linklist.PopFrontAll` | linklist/src/linklist.rs:266-276 | popping `[1, 2, 3]` from the front yields 1, 2, 3, then `None`, and leaves an empty list |
| `Skiplist.InsertSorted` | skiplist/src/skiplist.rs:107-126 | the level with `x` inserted before the first value not smaller: one more `x` in the multiset |
| `Skiplist.RemoveFirst` | skiplist/src/skiplist.rs:146-152 | present: one `x` less in the multiset; absent: unchanged |
| `Skiplist.InsertAtSlot` | skiplist/src/skiplist.rs:107-126 | inserting at the slot the descent finds (after all smaller values) is `InsertSorted` |
| `Skiplist.SortedAtSlot` | skiplist/src/skiplist.rs:107-126 | inserting at that slot keeps a sorted level sorted |
| `Skiplist.RemoveAtSorted` | skiplist/src/skiplist.rs:81-90 | cutting any occurrence of `x` out of a sorted level is removing its first occurrence |
| `Skiplist.RemovedAt` | skiplist/src/skiplist.rs:148-150 | after unlinking a tower over levels `lo..hi`, exactly those levels lost their first `item` |
| `Skiplist.RaisedAt` | skiplist/src/skiplist.rs:128-141 | after raising a tower to level `h`, exactly levels `0..h` gained `item` in sorted position; new levels hold only `item` |
| `Skiplist.SkipNode.constructor` | skiplist/src/skiplist.rs:21-29 | a node holding `val`, with all four links empty |
| `Skiplist.SkipList.constructor` | skiplist/src/skiplist.rs:94-98 | `len == 0`, one level holding no value, a head with no `next` and no `below` |
| `Skiplist.SkipList.ValueReachesBottom` | skiplist/src/skiplist.rs:68-79 | a value on any level is also on the bottom level: towers reach down |
| `Skiplist.SkipList.Find` | skiplist/src/skiplist.rs:39-66 | returns a node iff `item` is in the list; that node holds `item` and is the top of its tower |
| `Skiplist.SkipList.Get` | skiplist/src/skiplist.rs:100-102 | returns a node iff `item` is in the list, and that node holds `item` |
| `Skiplist.SkipList.InsertAfterAbove` | skiplist/src/skiplist.rs:68-79 | the level gains `item` at its sorted position, stacked on `below`; every invariant is kept |
| `Skiplist.SkipList.RemoveNode` | skiplist/src/skiplist.rs:81-90 | the level loses `at`, its neighbours are joined, and the node below is returned |
| `Skiplist.SkipList.GrowHead` | skiplist/src/skiplist.rs:130-138 | a fresh empty level on top whose head stands on the old head |
| `Skiplist.SkipList.Descend` | skiplist/src/skiplist.rs:105-123 | the bottom node reached and, per level, the node stepped down from, each the last one before the slot of `item` |
| `Skiplist.SkipList.RaiseTower` | skiplist/src/skiplist.rs:127-141 | `height` more nodes of `item`, on route nodes and then on fresh heads: levels `0..height` each gain `item` |
| `Skiplist.SkipList.Insert` | skiplist/src/skiplist.rs:104-143 | `len` grows by one, even for a present value; the bottom level becomes `InsertSorted(old, item)`; levels stay sorted and towers stacked |
| `Skiplist.SkipList.AbsentEverywhere` | skiplist/src/skiplist.rs:145-155 | a value missing from the bottom level is on no level |
| `Skiplist.SkipList.UnlinkTower` | skiplist/src/skiplist.rs:148-150 | the whole tower under the found node is unlinked: levels `0..l` lose their first `item` |
| `Skiplist.SkipList.Remove` | skiplist/src/skiplist.rs:145-156 | returns whether `item` was present; if so `len` drops by one and every level loses its first `item`; otherwise nothing changes |
| `Msg.XorCancel` | little_kademlia/src/kbucket.rs:75 | XOR with a fixed id is its own inverse |
| `Msg.XorInjective` | little_kademlia/src/kbucket.rs:75 | two ids at the same XOR distance from one target are equal |
| `Msg.Ordering.Reverse` | little_kademlia/src/msg.rs:16 | `Less` and `Greater` swap, `Equal` stays |
| `Msg.CmpId` | little_kademlia/src/msg.rs:16 | the natural order of ids, all three cases |
| `Msg.Cmp` | little_kademlia/src/msg.rs:14-18 | `Less` iff the first node is farther, `Equal` iff the distances are equal, `Greater` iff nearer |
| `Msg.PartialCmp` | little_kademlia/src/msg.rs:20-24 | always `Some`, with the same three cases as `Cmp` |
| `Msg.CmpAntisymmetric` | little_kademlia/src/msg.rs:14-18 | swapping the arguments reverses the answer |
| `Msg.LeTotalPreorder` | little_kademlia/src/msg.rs:14-18 | the order is reflexive, total and transitive |
| `Msg.GreatestIsNearest` | little_kademlia/src/msg.rs:14-18 | a greatest node under the order has the smallest distance |
| `Msg.EqualIsCoarser` | little_kademlia/src/msg.rs:7-18 | two nodes that differ in id compare `Equal` at the same distance, though `==` tells them apart |
| `KBucket.Log2Floor` | little_kademlia/src/kbucket.rs:7-18 | 0 for 0; otherwise the `r` with `2^r <= x < 2^(r+1)` |
| `KBucket.BucketOf` | little_kademlia/src/kbucket.rs:41-42 | the bucket of an id is `log2_floor(id ^ my_id)`, always one of the 16 buckets |
| `KBucket.KBuckets.constructor` | little_kademlia/src/kbucket.rs:28-35 | sixteen empty buckets, with the given id, size and test |
| `KBucket.KBuckets.Add` | little_kademlia/src/kbucket.rs:37-62 | the buckets become the push phase followed by the fix-up phase driven by the test's answers |
| `KBucket.KBuckets.PushAdds` | little_kademlia/src/kbucket.rs:40-48 | the push loop computes exactly `PushAll`: buckets, recorded indexes and addresses |
| `KBucket.PushAllBuckets` | little_kademlia/src/kbucket.rs:40-48 | each bucket gains at its back exactly its own pairs, in order; a bucket is recorded iff it went from at most `k` to more than `k` entries, at most once |
| `KBucket.KBuckets.FixRecorded` | little_kademlia/src/kbucket.rs:49-61 | the fix-up loop computes exactly `FixUp` of the recorded buckets and answers |
| `KBucket.FixBucket` | little_kademlia/src/kbucket.rs:53-59 | `true`: the newest entry is dropped and the oldest rotates to the back; `false`: the oldest is dropped; one entry fewer |
| `KBucket.FixUpAt` | little_kademlia/src/kbucket.rs:49-61 | every recorded bucket is fixed once, by its own answer; unrecorded buckets are untouched |
| `KBucket.AddBucket` | little_kademlia/src/kbucket.rs:37-62 | per bucket: it gains its pairs and, if that took it past `k`, loses exactly one entry as the test decides; otherwise it keeps them all |
| `KBucket.KBuckets.FindKNearest` | little_kademlia/src/kbucket.rs:64-95 | the answer is the first `k` nodes of the scan from bucket `log2_floor(my_id ^ target)`; the buckets are not changed |
| `KBucket.KBuckets.ScanFrom` | little_kademlia/src/kbucket.rs:67-93 | the outer loop takes the first `k` nodes of the scan in bucket order |
| `KBucket.Collect` | little_kademlia/src/kbucket.rs:71-80 | the inner loop appends the bucket's entries as `NearNode`s, front first, until `k` |
| `KBucket.ScanVisits` | little_kademlia/src/kbucket.rs:65-93 | the scan order: the own bucket, down to 0, then up from above it; every bucket exactly once, except from bucket 15, which is scanned alone |
| `KBucket.NearestResult` | little_kademlia/src/kbucket.rs:64-95 | at most `k` nodes, each a stored entry with `dist == id ^ target`; below bucket 15, fewer than `k` only if every stored entry is returned |
| `KBucket.Log2Bounds` | little_kademlia/src/kbucket.rs:7-18 | `2^r <= x < 2^(r+1)` for `r = log2_floor(x)`, `x >= 1` |
| `Kademlia.ReceivedExactly` | little_kademlia/src/kademlia.rs:141-152 | a node is a candidate from the replies iff some reply decoded to a `FindNode` answer naming it; missing, garbled and `Ping` replies add nothing |
| `Kademlia.Candidates` | little_kademlia/src/kademlia.rs:136-152 | the heap holds exactly the old list and all received nodes |
| `Kademlia.NearestExists` | little_kademlia/src/kademlia.rs:155-159 | a nonempty heap has a nearest node to pop or peek |
| `Kademlia.DropSameId` | little_kademlia/src/kademlia.rs:159-165 | only nodes with the taken id are dropped; what is left is empty or has a nearest node with another id |
| `Kademlia.TakenStep` | little_kademlia/src/kademlia.rs:155-165 | taking the nearest node and dropping its id keeps the loop state |
| `Kademlia.Nearest` | little_kademlia/src/kademlia.rs:153-169 | at most 4 nodes, by non-decreasing distance, drawn from the candidates; each candidate is represented by its id or is no nearer than the last kept; a candidate nearer than the `j`-th kept node has its id among the first `j`; consistent candidates give distinct ids |
| `Kademlia.MeasuredConsistent` | little_kademlia/src/kademlia.rs:158-165 | if every candidate's `dist` is `id ^ target`, equal distances mean equal ids, so the result has no repeated id |
| `Kademlia.UpdateKClosest` | little_kademlia/src/kademlia.rs:131-173 | the `Nearest` properties over the old list plus received nodes; returns true iff the length changed |
| `Kademlia.SortNearSorted` | little_kademlia/src/kademlia.rs:105 | the sort is a permutation, ordered by `NearNode`'s order, i.e. farthest first |
| `Kademlia.InsertNearSorted` | little_kademlia/src/kademlia.rs:105 | insertion keeps a sorted list sorted |
| `Kademlia.SelectQueries` | little_kademlia/src/kademlia.rs:109-118 | asks the first `min(2, n)` nodes, in order, and adds exactly their ids to `queried` |
| `Kademlia.FinalQueries` | little_kademlia/src/kademlia.rs:121-127 | the final requests are `ReSends` of the list and `queried` |
| `Kademlia.ReSendsExactly` | little_kademlia/src/kademlia.rs:121-127 | an address is re-sent iff some listed node with that address has a queried id |
| `Kademlia.LookUp` | little_kademlia/src/kademlia.rs:96-129 | every round asks at most 2 nodes; a completed lookup answers at most 4 nodes by non-decreasing distance |
| `Network.Adds` | myraft/src/network.rs:48-56 | the reported ids: in `new_rt`, not the node's own, and with a missing or different old address |
| `Network.AddsStep` | myraft/src/network.rs:48-56 | one more entry reports its id iff it is new or moved and not the node's own |
| `Network.MergeStep` | myraft/src/network.rs:53 | inserting one more entry is updating the merged table there |
| `Network.MergeEntries` | myraft/src/network.rs:43-59 | after a merge every entry of `new_rt` is present, every other old entry is kept, nothing is removed |
| `Network.UpdateIdempotent` | myraft/src/network.rs:48-51 | merging the same update again changes nothing and reports no id |
| `Network.MyRaftNetwork.constructor` | myraft/src/network.rs:32-41 | the table maps exactly `id` to `addr` |
| `Network.MyRaftNetwork.UpdateRt` | myraft/src/network.rs:43-59 | the table becomes `old + new_rt`; `adds` holds exactly `Adds(old, new_rt, self_id)`, without duplicates |

## Left out

- Reference counting (`Rc`, `Weak`, `RefCell`, `Rc::try_unwrap`) is not modelled. Nodes are plain heap objects, and a weak pointer is an ordinary reference.
- linklist/src/iter.rs is a trait with two one-line delegations. It is modelled only through `LinkList.Iter`, `LinkList.RevIter` and the cursor class `Iter`.
- The skip list stores `int`, not any `Ord` type.
- The skip list's random generator is left out. Its coin flips are the `height` parameter, and their distribution is not modelled.
- `Kademlia.LookUp`: termination is not proved. The loop runs only while rounds of replies are supplied, and answers `None` when they run out.
- The exchange with the network is left out:
  - sockets, timeouts, serde JSON encoding and decoding;
  - `send_recv_batch`, and which reply answers which request;
  - `len(replies)` is not tied to the number of requests sent.
- `Kademlia.LookUp`: the `FindNode` message content is not modelled. Only the addresses asked are returned.
- The rest of kademlia.rs, the thread pools, client pool and UDP server are left out. This covers `new`, `ping`, `join` and `make_kbuckets_test`, which involve random ids, sockets and threads.
- Locks (`Mutex`, `RwLock`) are left out. The model is sequential.
- The rest of myraft (the RPC methods of network.rs, storage, raft and the key-value example) is left out. It is made of async wrappers over libraries that are not part of this model.
- The reader/writer lock exercises are left out. Their content is thread interleaving.
- `KBucket.KBuckets.Add`: the concrete expectations of the `k_buckets` unit test (kbucket.rs:104-147) are not restated as lemmas. Their proof would need the verifier to evaluate XOR and `log2_floor` on literals step by step. The general per-bucket and scan-order contracts above cover that behaviour.
- Integer widths are not modelled beyond the facts that hold anyway:
  - ids are 16-bit, and their XOR stays 16-bit;
  - `log2_floor` takes a 32-bit argument;
  - `usize` lengths and `u64` node ids are unbounded.
