# A verified model of MySkipList

MySkipList is a small Redis-like server for sorted sets. A set is a skip list with a hash index of its
nodes; an LRU cache beside it decides which members to evict. An event loop applies requests, expiry and
configuration changes to named sets. The bundled libhv headers supply byte buffers, a ring allocator, an
object pool and a varint codec. This project models that code in Dafny and proves what it keeps, over every
input, every run and every choice of node heights.

`dafny verify dfyconfig.toml` checks the whole project.

## What is modelled

- **Sorted sets.** `SkipNodes` and `SkipList` keep the source's structure: nodes with arrays of forward
  pointers, `update` arrays filled by the nested search loops, `node_map_`, `level_`, `length_`, the cache and
  its queue of evicted keys. A ghost sequence of the nodes in level-0 order (header first) carries the proof:
  pointer `i` of a node leads to the next node taller than `i`. `ZSet` is the simple model a caller sees: a map of
  scores, a recency list and the members whose eviction is pending. Each method is proved to be one step of it.
- **LRU.** `Lru` is the cache; `LruModel` its policy on values. An iterator stored in the hash index is
  represented by the value of the list node it points to, the list by its keys in order. A victim's key is read
  before its node is erased (the source reads it just after).
- **Deferred eviction.** A capacity change evicts from the cache only. The members stay visible until the next
  insertion that is not an equal-score one; that insertion removes all pending members, also the one it has just
  inserted. `ZSetRuns.MembersAfterInsert` says exactly who is there afterwards.
- **Dump and load.** `DumpText` models the text format, `getline` and the split at the first `:`, with the two
  strings that the loader keeps across lines; `Numbers` the decimal output of an int and `std::stoi`.
- **Timer and server.** `Timer` is the doubly linked queue; `Server` is the body of `main` over skip lists and
  the timer, on parsed requests. The clock is a parameter. `ServerRuns` says what clients read over whole runs.
- **libhv.** `RingBuf` (with `RingRuns` for whole runs and what they waste), `VlBuf`, `ObjectPool` (one method per
  critical section, with `PoolRuns` as the interleaving of any number of callers) and `Varint`.

The height of a new node is any number from 1 to the maximum, chosen afresh at every insertion. Scores are
integers; where 32 bits matter (`std::stoi`) the range is explicit. Strings are sequences of characters ordered
lexicographically. Calls on a list are sequential, as its mutex makes them.

## Where the code does less than it seems to promise

- An insertion can report success and leave its member absent (`ZSetRuns.LostInsertion`); exactly when is
  `ZSetRuns.MembersAfterInsert`, seen by a client in `ServerModel.AddThenScore`.
- The timer appends without sorting, although TODOLIST.md calls it an ascending list. An expired key can stay
  queued behind a later deadline (`TimerRuns.LateFiring`); exactly when is `TimerRuns.FiringExact`.
- A dump can be loaded back into a set of any capacity, as its largest entries that fit, if and only if each of
  those has a member that is non-empty and free of `:` and newline (`DumpRuns.RoundTrip`).
- The ring allocator can refuse a length for which a run of free bytes exists: when nothing is live but the
  head is not at 0 (`RingRuns.RefusedWhenEmpty`), for the gap at the end once the blocks wrap
  (`RingRuns.RefusedWithGap`), and for the bytes on both sides of the head once the block before the gap is freed
  (`RingRuns.RefusedAcrossGap`). `RingRuns.RefusalExact` says exactly when, in terms of the fields and the live
  blocks; in every other state a refusal means that no such run exists.
- The object pool stays within its maximum on every run if and only if it starts within it
  (`PoolRuns.WithinMaximum`). Returning an object twice gives it two holders (`PoolRuns.DoubleReturn`); a return is
  safe if and only if its pointer is null or its caller holds the object (`PoolRuns.ReturnExact`). `Add` does not
  test for null: a null pointer uses up a slot, and in a pool of one no later call gets an object
  (`PoolRuns.NullAdded`); an addition is safe if and only if it is refused, or of an object new to the pool
  (`PoolRuns.AddExact`).
- A `ZADD` with the wrong number of arguments still creates its set, and clients can tell
  (`ServerModel.UsageCreates`); of all requests answered by their usage only that one, for a key without a set,
  changes anything (`ServerModel.UsageExact`).

## Model

| member | source | states |
|---|---|---|
| `Order.Total` | skiplist.h:185-187 | any two different entries are ordered by score, then member |
| `Order.Transitive` | skiplist.h:185-187 | the order is transitive |
| `Order.Asymmetric` | skiplist.h:185-187 | and never goes both ways |
| `Order.RankSplits` | skiplist.h:185-190 | in a sorted sequence exactly the entries before the linear scan's stop are below the key |
| `Order.SortedUnique` | skiplist.h:185-187 | a strictly sorted sequence is determined by the set of its entries |
| `Order.StrLessIs` | skiplist.h:187 | a member is smaller if the two texts agree up to a position where it ends or has the smaller character |
| `Order.SortedAscends` | skiplist.h:185-187 | sorted means: smaller scores first, and among equal scores the smaller member first |
| `LruModel.ShrinkKeepsRecent` | lru.h:63-76 | shrinking to n keeps the n most recent keys in order and queues the others, least recent first |
| `LruModel.ShrinkKeepsValues` | lru.h:63-76 | the kept keys, and only they, keep their values |
| `LruModel.StepValid` | lru.h:25-76 | every call keeps the list duplicate-free, indexed exactly and within a positive capacity |
| `Lru.LRUCache.constructor` | lru.h:23 | an empty cache; a capacity of zero or less is unbounded |
| `Lru.LRUCache.Get` | lru.h:25-31 | a hit moves the key to the front and returns its value, a miss returns -1 and changes nothing |
| `Lru.LRUCache.EvictLast` | lru.h:44-48 | the least recent key leaves list and index and is queued |
| `Lru.LRUCache.Put` | lru.h:33-52 | the key is in front with its value; a full cache first evicts its least recent key |
| `Lru.LRUCache.Remove` | lru.h:55-61 | the key leaves list and index and is not queued |
| `Lru.LRUCache.SetCapacity` | lru.h:63-76 | a negative capacity is refused; a positive one keeps the most recent keys and queues the others |
| `LruRuns.RunValid` | lru.h:25-76 | the cache invariant holds after every run |
| `LruRuns.RecencyOrder` | lru.h:25-76 | after every run from empty the list is strictly ordered by the time of the last get or put |
| `LruRuns.VictimsAreOldest` | lru.h:43-49 | whoever a put or a capacity change evicts was last used before everyone that stays, is queued, and is never the key being put |
| `LruRuns.GetReturnsLastPut` | lru.h:25-41 | over every run a get returns the value last put under a held key, and -1 for any other |
| `LruRuns.NothingLost` | lru.h:25-76 | over every run what was put and never removed is held or queued as evicted |
| `LruRuns.SetCapacityReports` | lru.h:63-76 | a capacity change returns 0 if it takes effect, else -1 and changes nothing |
| `LruInclusion.MakeRoomIncluded` | lru.h:43-49 | if the larger of two caches evicts so does the smaller, and a shared last key is the last of both |
| `LruInclusion.PutIncluded` | lru.h:33-52 | a put keeps the smaller cache's keys among the larger one's, in the same order |
| `LruInclusion.Inclusion` | lru.h:25-61 | for every run of gets, puts and removes, a cache holds what any smaller one holds, with the same values and in the same order |
| `LruInclusion.HitsIncluded` | lru.h:25-31 | every hit of the smaller cache is a hit of the larger one with the same result |
| `ZSet.StepValid` | skiplist.h:150-306 | every call keeps tracked and pending members disjoint and duplicate-free, every member one or the other, and the tracked ones within capacity |
| `ZSet.InsertRefined` | skiplist.h:238-246 | erase the old entry, put the new one, drain the evicted keys: together one insertion of the simple model |
| `ZSet.SetMaxRefined` | skiplist.h:524-527 | shrinking the cache alone is the capacity change of the simple model |
| `ZSetRuns.RunValid` | skiplist.h:150-306 | the views agree after every run |
| `ZSetRuns.MembersAfterInsert` | skiplist.h:157-167 | after an insertion the member is there if and only if it was with that score or was not pending; another one if and only if it was and the call returned early or it was neither pending nor the victim |
| `ZSetRuns.InsertSettles` | skiplist.h:239-246 | an insertion past the early return leaves nothing pending, every member tracked, and no more members than a positive capacity |
| `ZSetRuns.DeferredUntilInsert` | skiplist.h:524-527 | over any calls without an insertion past the early return, the members are the initial ones minus the deleted, and what is pending stays pending |
| `ZSetRuns.LostInsertion` | skiplist.h:241-246 | a run in which an insertion reports a new member and leaves it absent |
| `ZSetRuns.FixedCapacityIsLru` | skiplist.h:150-306 | at a fixed capacity members, scores and recency are those of an LRU cache under the corresponding calls, for every run |
| `ZSetRuns.CapacityMonotone` | skiplist.h:239-246 | what is held at one capacity is held, with the same score and order, at any larger one, for every run |
| `ZSetRuns.InsertEvictsOldest` | skiplist.h:239-246 | at a fixed capacity the member pushed out was used before every one that stays |
| `ZSetRuns.UnboundedIsMap` | skiplist.h:150-306 | with no positive capacity a sorted set is a plain map, for every run |
| `ZSetRuns.ResultsByEffect` | skiplist.h:254-306 | a deletion returns by how much it shrinks the set; an insertion returns 1 where a deletion would return 0, and 0 where it would return 1 |
| `ZSetRuns.ResultsAddUp` | skiplist.h:150-374 | over every run without a positive capacity the results of insertions minus those of deletions are the number of members |
| `ZSetRuns.SearchReturns` | skiplist.h:397-405 | and a search returns the score inserted last and not deleted since, or -1 |
| `SkipNodes.Node.constructor` | skiplist.h:43-53 | a node of the given height with null pointers |
| `SkipNodes.SuccessorsAfterInsert` | skiplist.h:210-214 | with a node inserted, only its predecessor on a level is redirected |
| `SkipNodes.SuccessorsAfterRemove` | skiplist.h:282-295 | with a node removed, only its predecessor on a level is redirected |
| `SkipNodes.LinkedAfterInsert` | skiplist.h:211-213 | the two pointer writes make the level's chain complete again |
| `SkipNodes.LinkedAfterRemove` | skiplist.h:283-294 | the one pointer write makes the level's chain complete again |
| `SkipNodes.Link` | skiplist.h:211-213 | one round of the insertion loop links its level and leaves the others |
| `SkipNodes.Unlink` | skiplist.h:283-294 | one round of the deletion loop bypasses the node on its level and leaves the others |
| `SkipNodes.Splice` | skiplist.h:210-214 | the new node joins every level it is tall enough for, and no other |
| `SkipNodes.Bypass` | skiplist.h:282-295 | the target leaves every level it is on, and only the target leaves |
| `SkipNodes.AllTaller` | skiplist.h:411-419 | level 0 carries every entry |
| `SkipNodes.TallerThins` | skiplist.h:411-419 | each level is a subsequence of the one below |
| `SkipNodes.TallerSorted` | skiplist.h:185-190 | every level is strictly sorted |
| `SkipList.ScanStops` | skiplist.h:185-190 | the nodes below the key are those before the linear scan's stop |
| `SkipList.IndexedAt` | skiplist.h:260-262 | a member's node stands at the rank of its entry |
| `SkipList.AheadOf` | skiplist.h:275-277 | ahead of a member's predecessor on a level is its node if it is that tall, and else no node with that member |
| `SkipList.SkipList.constructor` | skiplist.h:110-128 | an empty set with the given capacity |
| `SkipList.SkipList.Advance` | skiplist.h:185-190 | the inner search loop ends, at the last node of the level with a key below the target's |
| `SkipList.SkipList.FindUpdate` | skiplist.h:176-200 | for every level, `update` is the last header-or-node taller than it with a key below the new entry |
| `SkipList.SkipList.GetRandomLevel` | skiplist.h:516-521 | a height from 1 to the maximum |
| `SkipList.SkipList.InsertNode` | skiplist.h:176-238 | the node is linked on its levels at its rank and indexed; chains, index and counters agree again |
| `SkipList.SkipList.Locate` | skiplist.h:264-278 | starting at the current level misses nothing: the node found is the member's, the level recorded is its highest, and its predecessors are known |
| `SkipList.SkipList.RemoveNode` | skiplist.h:260-303 | exactly the member's node is unlinked and forgotten |
| `SkipList.SkipList.DeleteElementInLock` | skiplist.h:254-306 | a member leaves list, index and cache and 1 is returned; for another key nothing changes and 0 is returned |
| `SkipList.SkipList.DeleteElement` | skiplist.h:309-374 | is a deletion of the simple model |
| `SkipList.SkipList.SearchElement` | skiplist.h:397-405 | is a search of the simple model: the score or -1, and a touch |
| `SkipList.SkipList.Length` | skiplist.h:509-511 | the number of members |
| `SkipList.SkipList.SetMaxMemory` | skiplist.h:524-527 | is a capacity change of the simple model |
| `SkipList.SkipList.Drain` | skiplist.h:241-246 | every queued key is gone from list, index and cache, and the queue is empty |
| `SkipList.SkipList.InsertElement` | skiplist.h:150-251 | is an insertion of the simple model |
| `SkipList.SkipList.ContentsAreScores` | skiplist.h:424-433 | the level-0 order lists exactly the members with their scores, by ascending score and then ascending member; `length_` counts it |
| `SkipList.SkipList.Chain` | skiplist.h:412-417 | walking level i from the header visits exactly the entries of nodes taller than i, ascending, and ends |
| `SkipList.SkipList.DisplayList` | skiplist.h:409-421 | every level's chain, ascending, a subsequence of the one below; level 0 is the whole order |
| `SkipList.SkipList.DumpFile` | skiplist.h:424-438 | the text of the level-0 order |
| `SkipList.SkipList.LoadFile` | skiplist.h:456-485 | makes the insertions that the text spells, in order |
| `SkipListRuns.Run` | skiplist.h:150-405 | any run of calls returns what the simple model returns and ends in its state, whatever heights are drawn |
| `SkipListRuns.SameContents` | skiplist.h:180-192 | the scores determine the level-0 order |
| `SkipListRuns.HeightIndependence` | skiplist.h:203-214 | two runs of the same calls with different heights give the same results, order, recency and pending keys |
| `SkipListRuns.DumpAndLoad` | skiplist.h:424-505 | at every capacity a loaded dump is the list, or the entries that fit of which no dropped one is above any, if and only if those are clean |
| `SkipListRuns.KeptAreLargest` | lru.h:43-51 | the entries that fit are as many as the capacity allows, and every dropped one has a smaller score, or the same and a smaller member |
| `SkipListRuns.DumpRestores` | skiplist.h:440-454 | a saved text brings the set back into an empty one if and only if every member is clean |
| `Numbers.StoiReads` | skiplist.h:468-476 | `std::stoi` reads back a printed int, and nothing outside 32 bits |
| `Numbers.StoiExact` | skiplist.h:468-476 | any text is read as n if and only if it is white space, at most one sign, digits that spell n within 32 bits, and no further digit |
| `Numbers.IntTextIsDecimal` | skiplist.h:430 | an int is written with a `-` exactly in front of a negative one, digits only, and no leading zero |
| `Numbers.DecimalUnique` | skiplist.h:430 | any text of that form that is read as n is the text of n |
| `DumpText.TextExample` | skiplist.h:429-433 | two entries as they are written |
| `DumpText.LineRead` | skiplist.h:499-505 | a dumped line of a clean member splits into the member and its score |
| `DumpText.DumpReads` | skiplist.h:456-485 | loading a dump of clean members makes one insertion per entry, in order |
| `DumpText.DumpReadsLast` | skiplist.h:456-485 | clean entries are read as they are, whatever lines are before them |
| `DumpText.LoadsAreClean` | skiplist.h:462-478 | whatever the text, only non-empty members without `:` and newline are inserted |
| `DumpText.LinesJoined` | skiplist.h:462-463 | the lines with their ends are the text; only a missing last end is added |
| `DumpText.LoadExample` | skiplist.h:462-478 | a line without a colon inserts the entry before it again |
| `DumpRuns.InsertAllKeepsLast` | skiplist.h:478 | inserting distinct entries in order into a fresh set keeps the last ones, most recent first |
| `DumpRuns.LoadOfDump` | skiplist.h:424-485 | a loaded dump holds the largest entries that fit |
| `DumpRuns.FrontRun` | skiplist.h:478 | distinct entries, no more than the capacity, end up most recent and with their scores, whatever the set held |
| `DumpRuns.LoadOfLast` | skiplist.h:456-485 | if the entries that fit are clean, the others leave no trace |
| `DumpRuns.RoundTrip` | skiplist.h:424-505 | at every capacity a loaded dump holds exactly the largest entries that fit if and only if those are clean |
| `Timer.DoublyWithout` | timer.h:84-99 | bypassing a node in both directions leaves a doubly linked list |
| `Timer.PopHead` | timer.h:114-116 | popping the head's own key removes the head |
| `Timer.Timer.constructor` | timer.h:12 | an empty queue |
| `Timer.Timer.Push` | timer.h:53-67 | the item is appended with its absolute deadline; links, head and tail match |
| `Timer.Timer.Pop` | timer.h:70-102 | the first item with the key is removed, in each of the four cases; an empty queue returns -1 |
| `Timer.Timer.Find` | timer.h:76-82 | the search ends at the first node with the key |
| `Timer.Timer.Bypass` | timer.h:84-99 | neighbours, head and tail skip the node |
| `Timer.Timer.Tick` | timer.h:105-119 | removes and returns, in order, exactly the longest due prefix |
| `TimerRuns.Conservation` | timer.h:53-119 | over every run what has fired is a first part of what was pushed and what is queued is the rest |
| `TimerRuns.FiredWereDue` | timer.h:111-116 | with a clock that never goes back, whatever has fired was due |
| `TimerRuns.FiringExact` | timer.h:105-119 | when a tick ends an item has fired if and only if its deadline and all earlier pushed ones have passed |
| `TimerRuns.FiredSince` | timer.h:105-119 | which keys have fired after the first n, by the same condition |
| `TimerRuns.SortedFiring` | timer.h:105-119 | with deadlines pushed in order, exactly the expired items have fired |
| `TimerRuns.LateFiring` | timer.h:63-65 | a run in which an expired item stays queued |
| `TimerRuns.Play` | timer.h:53-119 | the linked queue, driven by any events, is the queue of these theorems |
| `ServerModel.HandleInTurn` | server.cpp:236-364 | no request leaves a set at a wrong capacity without an update being due |
| `ServerModel.TurnKeepsHead` | server.cpp:134-388 | every turn of the loop ends with every set valid and at the configured capacity |
| `ServerModel.RunAtHead` | server.cpp:134-388 | so does every run |
| `ServerModel.Isolation` | server.cpp:134-388 | over any turns that a set survives, it goes through exactly the requests that name it and the configuration changes, as if it were alone |
| `ServerModel.AddThenScore` | server.cpp:302-329 | `ZSCORE` after `ZADD` gives the score added, or -1 if the member's eviction was pending |
| `ServerModel.UsageExact` | server.cpp:276-364 | a request answered by its usage changes nothing, unless it is a `ZADD` of a key without a set, and then it makes an empty set |
| `ServerModel.UsageCreates` | server.cpp:276-279 | after a malformed `ZADD` other requests on the key are answered differently |
| `ServerModel.QueueIsTimerRun` | server.cpp:255-270 | over every run the expiry queue is that of the timer under the run's pushes and ticks |
| `ServerModel.TurnDrops` | server.cpp:368-380 | a turn drops exactly the sets whose keys its tick fires |
| `ServerModel.DropExact` | server.cpp:368-380 | with a clock that never goes back, a turn with an alarm drops a set if and only if a not yet fired push names it and its deadline and all earlier pushed ones have passed |
| `ServerRuns.MaxIsLastAsked` | server.cpp:236-251 | over every run the maximum is the last non-negative one that a request handled before an exit asked for, or 0 |
| `ServerRuns.StopExact` | server.cpp:209-213 | over every run the loop is stopped if and only if some turn had an exit request or a termination signal |
| `ServerRuns.SetIsItsLife` | server.cpp:276-364 | over every run a set is what its own requests since it was made, and the configuration changes, make of an empty one at the maximum of that time |
| `ServerRuns.PlainReplies` | server.cpp:302-350 | while nobody asks for a positive maximum, `ZCARD`, `ZSCORE`, `ZREM` and `ZADD` are answered as by a plain map of the insertions and deletions since the set was made |
| `ServerRuns.RemLowersCard` | server.cpp:302-350 | `ZCARD` after `ZREM` is less by its reply; `ZADD` and `ZREM` of the same member are answered contrarily |
| `ServerRuns.MissingIsEmpty` | server.cpp:276-298 | a key without a set is answered as if it had an empty one, which `ZADD` makes |
| `ServerRuns.RepliesByEffect` | server.cpp:243-268 | `CONFIG SET maxmemory` is answered 0 if the maximum is then the one asked for, else 1; `EXPIRE` by how much the queue grows |
| `ServerRuns.ReplyKinds` | server.cpp:209-364 | which requests get no reply, their usage, an empty line or OK |
| `ServerRuns.AnswerInTurn` | server.cpp:143-367 | each request before an exit gets one reply, in order, from the state that the events before it have led to |
| `ServerRuns.RequestsTouch` | server.cpp:302-329 | `ZSCORE` and an equal-score `ZADD` make a tracked member the most recent of its set |
| `Server.CallIn` | server.cpp:300-340 | a call on one list is a step of its set and leaves every other list as it was |
| `Server.Open` | server.cpp:276-279 | a missing set is made with the configured capacity |
| `Server.HandleZAdd` | server.cpp:276-318 | `ZADD`, with its reply; wrong arguments still create the set |
| `Server.HandleZScore` | server.cpp:286-329 | `ZSCORE`, with its reply, for present and missing sets |
| `Server.HandleZRem` | server.cpp:282-340 | `ZREM`, with its reply, for present and missing sets |
| `Server.HandleExpire` | server.cpp:255-270 | `EXPIRE` queues the key, present or not |
| `Server.Save` | server.cpp:215-229 | a file for every set with the text of its list, which brings the set back if and only if its members are clean |
| `Server.HandleOther` | server.cpp:209-364 | the remaining requests, with their replies |
| `Server.Handle` | server.cpp:209-364 | any request does to lists and queue what the model does |
| `Server.Dispatch` | server.cpp:143-367 | the events of a turn, in order, up to an exit request |
| `Server.Expire` | server.cpp:368-380 | the timeout phase |
| `Server.UpdateMaxMemory` | server.cpp:55-60 | every set gets the configured capacity, in any order |
| `Server.Configure` | server.cpp:382-387 | the configuration phase |
| `Server.Turn` | server.cpp:134-388 | one turn of the loop is a turn of the model, with its replies |
| `Server.Serve` | server.cpp:134-388 | the loop runs exactly through the first turn with an exit request or a termination signal, in the states of the model and with its replies, all capacities as configured at each head |
| `RingBuf.LaidSafe` | include/hv/hbuf.h:210-233 | blocks laid one after the other within one turn of the ring are in bounds and share no byte |
| `RingBuf.PoppedLaid` | include/hv/hbuf.h:235-244 | freeing the oldest block, and stepping over a skipped gap before it, leaves the others where they are |
| `RingBuf.HRingBuf.constructor` | include/hv/hbuf.h:206-207 | an empty ring; with no capacity it has no storage |
| `RingBuf.HRingBuf.Alloc` | include/hv/hbuf.h:210-233 | a block is added in bounds and apart from all live ones, or nothing changes; it succeeds if and only if the block fits behind the last one or before the oldest |
| `RingBuf.HRingBuf.Free` | include/hv/hbuf.h:235-244 | exactly the oldest block is freed, and `_size` is the rest's total |
| `RingRuns.RefusalExact` | include/hv/hbuf.h:210-233 | in every state a run of n free bytes exists if and only if `alloc` finds room, or the ring is empty, or its blocks wrap and the bytes skipped at the end (with those before the head, if the first lap is empty) suffice |
| `RingRuns.RunSafe` | include/hv/hbuf.h:210-244 | after every run the live blocks are in bounds and disjoint, and a refused length would have fitted if and only if it is wasted |
| `RingRuns.Play` | include/hv/hbuf.h:210-244 | the allocator, driven by any run, is in these states and returns these offsets |
| `RingRuns.RefusedWhenEmpty` | include/hv/hbuf.h:212-222 | a run after which nothing is live and a length that fits is refused |
| `RingRuns.RefusedWithGap` | include/hv/hbuf.h:224-230 | a run after which a free byte at the end is refused |
| `RingRuns.RefusedAcrossGap` | include/hv/hbuf.h:224-230 | a run after which free bytes on both sides of the head are refused |
| `VlBuf.HVLBuf.constructor` | include/hv/hbuf.h:122 | an empty buffer |
| `VlBuf.HVLBuf.Resize` | include/hv/hbuf.h:91-102 | a buffer of the new size with the bytes common to both |
| `VlBuf.HVLBuf.Grow` | include/hv/hbuf.h:129-132 | doubling makes enough room |
| `VlBuf.HVLBuf.PushFront` | include/hv/hbuf.h:128-143 | the bytes are in front of the old contents |
| `VlBuf.HVLBuf.PushBack` | include/hv/hbuf.h:145-157 | the bytes are behind the old contents |
| `VlBuf.HVLBuf.PopFront` | include/hv/hbuf.h:159-168 | takes the first n bytes, or nothing if there are fewer |
| `VlBuf.HVLBuf.PopBack` | include/hv/hbuf.h:170-177 | takes the last n bytes, or nothing if there are fewer |
| `VlBuf.Play` | include/hv/hbuf.h:118-177 | for every run on a fresh buffer of any capacity, contents and outputs are those of a byte deque |
| `ObjectPool.HObjectPool.constructor` | include/hv/hobjectpool.h:28-42 | the initial objects that the factory did create are idle and counted |
| `ObjectPool.HObjectPool.TryBorrow` | include/hv/hobjectpool.h:50-58 | the first idle pointer, or null |
| `ObjectPool.HObjectPool.Enter` | include/hv/hobjectpool.h:66-77 | a slot is reserved exactly below the maximum; else the caller waits or gives up |
| `ObjectPool.HObjectPool.Created` | include/hv/hobjectpool.h:72-74 | a failed creation gives its slot back |
| `ObjectPool.HObjectPool.Woken` | include/hv/hobjectpool.h:78-91 | after the wait: the first idle pointer, or null |
| `ObjectPool.HObjectPool.Return` | include/hv/hobjectpool.h:94-99 | the object is idle again, last in line; a null one is ignored |
| `ObjectPool.HObjectPool.Add` | include/hv/hobjectpool.h:101-110 | a pointer, even a null one, is added exactly below the maximum |
| `ObjectPool.HObjectPool.Remove` | include/hv/hobjectpool.h:112-126 | the first occurrence of an idle pointer is removed, and nothing else |
| `PoolRuns.StepInv` | include/hv/hobjectpool.h:50-126 | every critical section keeps idle, borrowed and in-creation objects adding up to the count, within the limit, no object in two places and no null pointer idle |
| `PoolRuns.RunInv` | include/hv/hobjectpool.h:50-126 | so does every interleaving |
| `PoolRuns.WithinMaximum` | include/hv/hobjectpool.h:28-42 | the count stays within the maximum on every run if and only if it starts there |
| `PoolRuns.OneHolder` | include/hv/hobjectpool.h:144-157 | over every interleaving no object has two holders, or a holder while idle, or is idle twice |
| `PoolRuns.BorrowNum` | include/hv/hobjectpool.h:46-48 | over every interleaving `BorrowNum` is the number of objects borrowed or in creation |
| `PoolRuns.ReturnExact` | include/hv/hobjectpool.h:94-99 | a return keeps this invariant if and only if its pointer is null or its caller holds the object |
| `PoolRuns.AddExact` | include/hv/hobjectpool.h:101-110 | an addition does if and only if it is refused, or not null and new to the pool |
| `PoolRuns.MadeExact` | include/hv/hobjectpool.h:72-76 | the end of a creation does if and only if the factory failed or made a new object |
| `PoolRuns.DoubleReturn` | include/hv/hobjectpool.h:94-99 | a second return of an object gives it two holders |
| `PoolRuns.ExhaustedStays` | include/hv/hobjectpool.h:60-92 | with nothing idle, nothing in creation and no free slot, no sequence of calls gets an object |
| `PoolRuns.NullAdded` | include/hv/hobjectpool.h:101-110 | a null pointer added to an empty pool of one leaves `BorrowNum` at 1 without a holder, and no later call gets an object |
| `PoolRuns.Perform` | include/hv/hobjectpool.h:50-126 | each critical section is its step: the pool's fields, the object its caller comes away with, and where the caller goes on |
| `PoolRuns.Play` | include/hv/hobjectpool.h:50-126 | for every interleaving the pool and its callers, as their calls leave them, are in the run's state, with no object in two hands |
| `Varint.EncodedValue` | include/hv/hmath.h:28-39 | an encoding spells its value |
| `Varint.EncodedMinimal` | include/hv/hmath.h:28-39 | no whole byte sequence with the same value is shorter |
| `Varint.EncodedShort` | include/hv/hmath.h:28-39 | a nonnegative long long takes at most nine bytes |
| `Varint.VarintEncode` | include/hv/hmath.h:28-39 | writes exactly the encoding and reports its size |
| `Varint.VarintDecode` | include/hv/hmath.h:42-66 | the value up to the first byte without the high bit and its size, 0 if the limit cuts it off, -1 if ten bytes do not end it |
| `Varint.RoundTrip` | include/hv/hmath.h:28-66 | whatever follows, an encoding decodes to its value and size |
| `Varint.StrictPrefix` | include/hv/hmath.h:47-51 | a cut-off encoding is reported as not enough |
| `Varint.DecodedCanonical` | include/hv/hmath.h:42-66 | what decodes within nine bytes is the encoding of the result if and only if no final zero byte pads it |
| `Varint.DecodedExact` | include/hv/hmath.h:42-66 | for any bytes: when a size, 0 or -1 is reported, and that the result is the value of the bytes read modulo 2^64 as a long long |
| `Varint.Encoded300` | include/hv/hmath.h:28-39 | 300 is encoded as AC 02 |
| `Varint.StreamRoundTrip` | include/hv/hmath.h:28-66 | a stream of encodings, decoded with the reported sizes as strides, gives the values back |

## Left out

- `span_`, `rank`, `backward_` and `tail_`: the code does not keep them in agreement with the list (spans are not adjusted above the new node, and delete can store the header), and nothing reads them but the destructor.
- The distribution of `GetRandomLevel` and the end of its random loop: probabilistic.
- Concurrent calls of the unlocked `SearchElement` and `DumpFile`, and the C++ memory model: calls on a list are sequential.
- `SkipList.SkipList.constructor`: not for `max_level` 0; `InsertElement` would then link nothing and read an uninitialised pointer, so a list needs at least one level.
- `Timer.Timer.Pop`: not for an absent key on a non-empty queue, where the code dereferences null.
- Sockets, epoll, signal handling, tokenising, exceptions of `std::stoi` on requests, console output and files: requests are parsed, dumps are strings. `SAVE` opens every file it writes.
- `Server.Save`: files are told apart by their key; keys such as `a` and `../store/a` name the same file, and the one written last stays.
- A set command without any argument: the code then reads the first of no arguments.
- The index of the cache and its list as linked nodes: update in place through an iterator is modelled on values.
- `RingBuf.HRingBuf.Free`: only with the oldest block's length; the code does not check it.
- `VlBuf.HVLBuf.Resize`: only of a buffer the object owns, with sizes that do not overflow; `hv_realloc` keeps the bytes.
- `Varint.VarintEncode`: not for negative values, for which the code does not end.
- `HObjectPool::Clear`, which breaks the count; runs in which a caller adds or returns what it does not own, past the step that breaks the invariant.
- Fairness and lost wake-ups of the pool's condition variable: safety only.
- `thread_pool.h`, `work_queue.h`, the RPC code, and the evpp and HTTP wrappers of libhv.
