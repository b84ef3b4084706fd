# ScuffedRedis, verified

A Dafny 4.11 model of ScuffedRedis, a Redis clone in C++, and proofs about it:
the AVL tree and the sorted sets built on it, the chained hash table and its
glob matcher, the TTL manager's heap, the binary wire protocol and its
incremental parser, the poll server's connection machine, the command layer,
and the client's command-line splitter.

The code is modelled as it is written. Where it falls short of what its headers
and comments promise, the model keeps the code's behaviour, a lemma gives an
input that shows the difference, and another says exactly, for all inputs, when
the promise is kept.

`dafny verify dfyconfig.toml` checks the whole project.

## How it is laid out

| file | what is in it |
|---|---|
| Basics, Orders | options, byte strings, `std::string` order, the sorted-set key order |
| AvlShape, AvlContents, AvlQueries | the tree as a value: balance; contents and order; searches, ranges, ranks, height bound |
| AvlHeap | the tree as linked nodes changed in place, tied to the value |
| SortedSets | members, scores and the index; rank and score queries |
| Glob | the KEYS matcher |
| Chains, LinkedChains, HashTables | the table as buckets of pairs; as linked nodes and their store; as the object changed in place |
| TtlHeap, TtlManagers | the expiration heap as an array value; the object with its two maps |
| Wire, Codec, Parsers, Streams, CutStreams | numbers and messages; serialize and parse; the parser object; chunked streams; what cut arrays become |
| KvStores | command arrays, dispatch, handlers, the reference interpreter |
| SimpleServer, ServerAborts, Connections | requests, connections and whole runs as values; when the assertions fail; the handlers as they run |
| CommandLines | splitting a typed line |

## Main results

- **AVL tree.** Insertion's key-comparison case split and removal's
  balance-factor split both restore balance with exact stored heights; insertion
  is map update and removal is map deletion on a sequence that stays strictly
  sorted; a tree of n nodes and height h has 2^h <= (n+1)^2. The in-place
  program over heap nodes computes the same trees.
- **Sorted set.** The tree's keys are exactly the (score, member) pairs after
  every operation; rank, slice and score queries are stated on the one ranking
  the scores determine, for all integer bounds. `zrangebyscore` lists exactly the
  members in score range except, at the maximum, those of two or more bytes that
  begin with 0xff.
- **Glob matcher.** Remembering only the last star loses nothing. A `*` in the
  key is taken literally, so the matcher is exact for a key, whatever the
  pattern, if and only if the key contains no `*`.
- **Hash table.** It refines a finite map through every operation, over linked
  nodes changed in place. The rehash moves the nodes themselves: in each of its
  states the new chains and what is left of the old ones hang together, and at
  the end no node is copied, lost or shared. Capacity is 16 times a power of two
  and the load stays within one entry of three quarters.
- **TTL manager.** Index map, id map and heap agree in every reachable state.
  `heapify_down` moves a *later* child up, although the header promises a
  min-heap. The model has both rules. With the intended rule every run keeps the
  order and an expiry pass removes exactly the expired keys, earliest first. With
  the written rule a refresh keeps the order if and only if the children fall due
  together with the entry that ends up at the position, and a pass is complete if
  and only if all entries had expired or none behind the front had.
- **Wire protocol.** Parsing what was serialized gives the message back and
  leaves exactly the bytes that followed if and only if every length fits the
  32-bit arithmetic. Conversely what was parsed is what would be written, if and
  only if null headers carry length zero. Over a chunked stream what comes out is
  known for every chunking: an array polled between its header and its end loses
  its header and its whole elements, and the others come out as messages of their
  own. The stream's messages are delivered if and only if no poll finds such an
  array.
- **Poll server.** Over every interleaving of reads and partial writes on any
  number of connections: bytes received are the requests carried out plus the
  input buffer, bytes sent plus the output buffer are the replies, every reply is
  the one due at the request's place in one global order, and the map is the
  result of that order. A run aborts if and only if some poll reads from a client
  that has 4096 bytes of an unfinished request outstanding, or writes to a client
  whose requests since the last flush are all silent. A bare `GET` followed by one
  write, or a request of 4093 bytes, is enough.
- **Commands.** Replies and final map of every session are those of a reference
  interpreter over a plain map. KEYS is exact throughout a session if and only if
  no key that is SET contains `*`.
- **Client line.** However arguments are written, in and out of quotes, with
  escapes and any spacing, splitting gives what was meant without the empty ones.

## Model

| member | source | states |
|---|---|---|
| `Orders.LexLessMeaning` | src/data/sorted_set.hpp:32-37 | member comparison puts a proper prefix first and otherwise goes by the smaller unsigned byte at the first difference |
| `Orders.EntryLessStrictTotal` | src/data/sorted_set.hpp:32-37 | score-then-member comparison is a strict total order, so the tree may be built on it |
| `AvlShape.StoredHeightIsTrue` | src/data/avl_tree.hpp:150-162 | in a balanced tree every stored height is the length of the longest path below |
| `AvlShape.SingleRightRestores` | src/data/avl_tree.hpp:165-178 | one right rotation restores balance over a child that does not lean right, and by how much the height drops |
| `AvlShape.SingleLeftRestores` | src/data/avl_tree.hpp:180-193 | the mirror image |
| `AvlShape.DoubleRightRestores` | src/data/avl_tree.hpp:230-234 | left-then-right rotation restores balance over a right-leaning child and drops the height by one |
| `AvlShape.DoubleLeftRestores` | src/data/avl_tree.hpp:236-240 | the mirror image |
| `AvlShape.RebalanceInserted` | src/data/avl_tree.hpp:214-242 | the rotation chosen by comparing the inserted key with the heavy child's key always restores balance |
| `AvlShape.InsertNode` | src/data/avl_tree.hpp:196-243 | insertion keeps balance and exact heights, grows the height by at most one, and a grown subtree leans towards the key |
| `AvlShape.RebalanceRemoved` | src/data/avl_tree.hpp:281-309 | the rotation chosen by balance factors always restores balance and costs at most one level |
| `AvlShape.RemoveNode` | src/data/avl_tree.hpp:254-310 | removal keeps balance and exact heights and lowers the height by at most one |
| `AvlContents.RotateRightInOrder` | src/data/avl_tree.hpp:165-178 | rotation leaves the in-order sequence alone |
| `AvlContents.RotateLeftInOrder` | src/data/avl_tree.hpp:180-193 | the mirror image |
| `AvlContents.FindMinIsFirst` | src/data/avl_tree.hpp:246-251 | the leftmost node is the first of the in-order sequence |
| `AvlContents.SuccessorReplaces` | src/data/avl_tree.hpp:274-278 | copying the successor up and dropping it on the right removes exactly the deleted pair |
| `AvlContents.InsertRefinesUpdate` | src/data/avl_tree.hpp:57-62 | on a valid tree insertion yields a valid tree whose map is the old one with the key set; the flag and the size change are exact |
| `AvlContents.RemoveRefinesDelete` | src/data/avl_tree.hpp:68-73 | on a valid tree removal yields a valid tree whose map is the old one without the key; the flag and the size change are exact |
| `AvlContents.RunsRefineTheMap` | src/data/avl_tree.hpp:57-73 | after every run of insertions and removals the tree is balanced and sorted and holds exactly the map the run makes |
| `AvlContents.SortedListIsUnique` | src/data/avl_tree.hpp:326-332 | the in-order sequence is determined by the map, so the two results above fix it |
| `AvlQueries.FindNodeIsLookup` | src/data/avl_tree.hpp:313-323 | a search finds a key exactly when the tree holds it, with the stored value |
| `AvlQueries.SizeIsLength` | src/data/avl_tree.hpp:371-374 | the subtree size is the length of the in-order sequence |
| `AvlQueries.RankIsIndex` | src/data/avl_tree.hpp:356-368 | the rank is the key's index in sorted order, and -1 exactly when it is absent |
| `AvlQueries.RangeQueryIsFilter` | src/data/avl_tree.hpp:335-353 | the pruned walk returns exactly the pairs between the bounds, in order |
| `AvlQueries.BalancedTreesAreFull` | src/data/avl_tree.hpp:150-162 | a balanced tree of height h has at least Fib(h+2) - 1 nodes |
| `AvlQueries.HeightIsLogarithmic` | src/data/avl_tree.hpp:38-40 | 2^h is at most (n+1)^2, the promised logarithmic height |
| `AvlHeap.RotateRight` | src/data/avl_tree.hpp:165-178 | relinking in place gives the rotated tree and uses no other nodes |
| `AvlHeap.RotateLeft` | src/data/avl_tree.hpp:180-193 | the mirror image |
| `AvlHeap.RebalanceInserted` | src/data/avl_tree.hpp:217-242 | the in-place case split computes the value-level one |
| `AvlHeap.InsertInto` | src/data/avl_tree.hpp:196-243 | in-place insertion yields an unshared tree with the value-level result; only new nodes are added |
| `AvlHeap.RebalanceRemoved` | src/data/avl_tree.hpp:284-309 | the in-place case split computes the value-level one |
| `AvlHeap.FindMin` | src/data/avl_tree.hpp:246-251 | the loop ends at the leftmost node |
| `AvlHeap.RemoveFrom` | src/data/avl_tree.hpp:254-310 | in-place removal yields an unshared tree with the value-level result and adds no node |
| `AvlHeap.RemoveSuccessor` | src/data/avl_tree.hpp:274-278 | overwriting the key and deleting the successor in place |
| `AvlHeap.InorderTraversal` | src/data/avl_tree.hpp:326-332 | appends the in-order sequence |
| `AvlHeap.RangeQuery` | src/data/avl_tree.hpp:335-353 | appends the value-level range |
| `AvlHeap.GetRank` | src/data/avl_tree.hpp:356-368 | computes the value-level rank |
| `AvlHeap.AvlTree.Insert` | src/data/avl_tree.hpp:57-62 | keeps the tree valid; contents are updated at the key; flag and counter exact |
| `AvlHeap.AvlTree.Remove` | src/data/avl_tree.hpp:68-73 | keeps the tree valid; the key leaves the contents; flag and counter exact |
| `AvlHeap.AvlTree.Inorder` | src/data/avl_tree.hpp:94-98 | returns the pairs in key order |
| `AvlHeap.AvlTree.Range` | src/data/avl_tree.hpp:104-108 | returns the pairs between the bounds, in key order |
| `AvlHeap.AvlTree.Rank` | src/data/avl_tree.hpp:114-116 | the index in key order, -1 exactly when absent |
| `AvlHeap.AvlTree.Height` | src/data/avl_tree.hpp:140-142 | the true height, bounded by the size |
| `AvlHeap.AvlTree.Contains` | src/data/avl_tree.hpp:87-89 | true exactly for the keys of the contents |
| `AvlHeap.AvlTree.Clear` | src/data/avl_tree.hpp:131-134 | leaves an empty valid tree |
| `SortedSets.RankingIsUnique` | src/data/sorted_set.hpp:32-37 | scores have one ranking, so every query depends on the scores alone |
| `SortedSets.SortedSet.RankingOfScores` | src/data/sorted_set.cpp:132-133 | the index lists the members of the score map in (score, member) order, once each |
| `SortedSets.SortedSet.ZAdd` | src/data/sorted_set.cpp:18-46 | sets the score, keeps index and sizes in step, returns the change in cardinality |
| `SortedSets.SortedSet.Rescore` | src/data/sorted_set.cpp:23-36 | the update branch replaces exactly the member's index entry |
| `SortedSets.SortedSet.ZAddMulti` | src/data/sorted_set.cpp:48-54 | every member listed gets the score of its last item, every other member keeps its own; returns the change in cardinality |
| `SortedSets.SortedSet.ZRem` | src/data/sorted_set.cpp:56-74 | removes the member from scores and index, returns the drop in cardinality |
| `SortedSets.SortedSet.ZRemMulti` | src/data/sorted_set.cpp:76-82 | removes every listed member, returns the drop in cardinality even with repetitions |
| `SortedSets.SortedSet.ZScore` | src/data/sorted_set.cpp:84-92 | the score under which the index ranks the member, nothing exactly when no entry of the ranking is the member's |
| `SortedSets.SortedSet.ZRank` | src/data/sorted_set.cpp:94-105 | the member's position in the ranking, nothing exactly for a stranger |
| `SortedSets.SortedSet.ZRevRank` | src/data/sorted_set.cpp:107-113 | the position counted from the end, so rank and reverse rank add up to size - 1 |
| `SortedSets.SortedSet.ZRange` | src/data/sorted_set.cpp:115-147 | for all integer bounds: item k is the member at rank start + k, up to stop included, negative indices counted from the end and out-of-range ones cut; with scores its second part is that entry's score; 0 to -1 lists the whole ranking |
| `SortedSets.SliceAtRank` | src/data/sorted_set.cpp:115-147 | a slice at a member's own rank, counted from either end, is that member |
| `SortedSets.SortedSet.ZRangeByScore` | src/data/sorted_set.cpp:156-178 | against the score map alone: exactly the members with min <= score <= max, but at the maximum none of two or more bytes that begins with 0xff, each with its score when asked, in (score, member) order |
| `SortedSets.RangeReaches` | src/data/sorted_set.cpp:160-168 | the walk between the two dummy entries, then the score test, visits exactly those entries |
| `SortedSets.ByScoreMeaning` | src/data/sorted_set.cpp:156-178 | the promised answer holds exactly the entries with min <= score <= max |
| `SortedSets.ByScoreKeepsOrder` | src/data/sorted_set.cpp:156-178 | in rank order, so nothing is listed twice |
| `SortedSets.ReachedIsExact` | src/data/sorted_set.cpp:161-162 | list and count are as promised if and only if no entry at the maximum score has a member above 0xff |
| `SortedSets.CutOffExactly` | src/data/sorted_set.cpp:161-162 | the members above 0xff are those of two or more bytes that begin with 0xff |
| `SortedSets.LongMemberIsCutOff` | src/data/sorted_set.cpp:162 | a member of two 0xff bytes at the maximum score is lost |
| `SortedSets.SortedSet.ZCount` | src/data/sorted_set.cpp:180-183 | the number of those members |
| `SortedSets.SortedSet.Clear` | src/data/sorted_set.cpp:185-190 | empties scores, index and counter together |
| `Glob.MatchesPattern` | src/data/hashtable.cpp:203-241 | the backtracking loops terminate and decide the literal-first relation for every string and pattern |
| `Glob.NoOvertaking` | src/data/hashtable.cpp:221-228 | no later alignment gets ahead of one that matched byte by byte |
| `Glob.ForgetOldStar` | src/data/hashtable.cpp:221-224 | on meeting a new star nothing is lost by forgetting the old one |
| `Glob.Backtrack` | src/data/hashtable.cpp:225-228 | a stuck run rules out its own alignment and no other |
| `Glob.AcceptedMatches` | src/data/hashtable.cpp:203-241 | whatever is accepted matches the glob |
| `Glob.MatchesAccepted` | src/data/hashtable.cpp:203-241 | on a key without `*` whatever matches is accepted |
| `Glob.WitnessFails` | src/data/hashtable.cpp:216-221 | for every key with a `*`, a pattern that matches it and is refused |
| `Glob.ExactIffNoStar` | src/data/hashtable.cpp:203-241 | the matcher is exact for a key, whatever the pattern, if and only if the key has no `*` |
| `Glob.MatchesMeaning` | src/data/hashtable.cpp:203-241 | the glob relation read byte by byte: 42 is any run of bytes, 63 any one byte, every other byte itself |
| `Glob.PlainPattern` | src/data/hashtable.cpp:213-220 | a pattern without `*` and `?` matches, and is accepted for, itself and nothing else |
| `HashTables.HashTable.constructor` | src/data/hashtable.cpp:62-69 | an empty table whose capacity is the least doubling of 16 that is large enough |
| `HashTables.HashTable.FindInBucket` | src/data/hashtable.cpp:93-107 | the node that has the key and the node before it in the chain, or none exactly when no node of the chain has the key |
| `HashTables.HashTable.Find` | src/data/hashtable.cpp:133-135 | the search in the key's own bucket finds a node exactly when the map has the key, with the stored value |
| `HashTables.HashTable.Set` | src/data/hashtable.cpp:109-131 | map update; the flag says whether the key is new; the table doubles exactly when it was over three quarters full; only new nodes are added |
| `HashTables.HashTable.WriteValue` | src/data/hashtable.cpp:118-121 | after the write in place the nodes hold what the value-level `Written` says |
| `HashTables.HashTable.PushNode` | src/data/hashtable.cpp:124-127 | after linking a new node in front of its bucket heads and nodes are as the value-level `Pushed` says |
| `HashTables.HashTable.Get` | src/data/hashtable.cpp:133-142 | map lookup |
| `HashTables.HashTable.Del` | src/data/hashtable.cpp:144-162 | map deletion; the flag says whether the key was there |
| `HashTables.HashTable.TakeOut` | src/data/hashtable.cpp:152-158 | after bypassing the node behind its predecessor or at the head, heads and nodes are as the value-level `TakenOut` says |
| `HashTables.HashTable.Exists` | src/data/hashtable.cpp:164-168 | map membership |
| `HashTables.HashTable.Clear` | src/data/hashtable.cpp:170-175 | the empty map, same capacity |
| `HashTables.HashTable.Resize` | src/data/hashtable.cpp:177-201 | doubles the capacity; linked chains, placement and the stored map are re-established in the very same nodes, none copied or lost |
| `HashTables.HashTable.MoveAll` | src/data/hashtable.cpp:182-201 | the outer loop runs the shift bucket by bucket, to the end |
| `HashTables.HashTable.MoveChain` | src/data/hashtable.cpp:183-197 | the inner loop terminates and takes the chain apart step by step |
| `HashTables.HashTable.MoveNode` | src/data/hashtable.cpp:190-195 | saving `next`, overwriting the link and replacing the head is one step of the shift |
| `Chains.MoveNode` | src/data/hashtable.cpp:184-196 | moving one pair to the head of its new bucket: exactly the pairs before the cursor are in the new table |
| `LinkedChains.NoSharing` | src/data/hashtable.cpp:124-127 | no node is linked into two places |
| `LinkedChains.WrittenGood` | src/data/hashtable.cpp:118-121 | a new value in one node leaves every chain linked and updates the map |
| `LinkedChains.PushedGood` | src/data/hashtable.cpp:124-127 | a new node in front leaves every chain linked and adds the key |
| `LinkedChains.TakenOutGood` | src/data/hashtable.cpp:152-158 | a bypassed node leaves every chain linked and removes the key |
| `LinkedChains.RelinkNode` | src/data/hashtable.cpp:190-195 | overwriting a node's link in mid-resize disturbs neither the new chains nor what is left of the old ones |
| `LinkedChains.Released` | src/data/hashtable.cpp:197 | releasing a bucket whose nodes have moved leaves the buckets behind it alone |
| `LinkedChains.AlwaysShifting` | src/data/hashtable.cpp:182-198 | in every state of a resize the new chains are linked and store what has moved, and the rest of the old chains hangs together |
| `LinkedChains.Shifted` | src/data/hashtable.cpp:177-201 | past the last bucket the new chains store the same map, in the same nodes and twice the buckets |
| `HashTables.HashTable.Keys` | src/data/hashtable.cpp:243-258 | every stored key the matcher accepts, each once |
| `Chains.PushNew` | src/data/hashtable.cpp:124-128 | a node at the head of its bucket adds exactly one key |
| `Chains.Overwrite` | src/data/hashtable.cpp:118-121 | a new value in the key's node changes exactly that key |
| `Chains.Unlink` | src/data/hashtable.cpp:152-160 | taking the key's node out of its chain removes exactly that key |
| `Chains.OnePosition` | src/data/hashtable.cpp:87-107 | no key sits in two nodes |
| `TtlHeap.UpPermutes` | src/data/ttl_manager.cpp:256-267 | sifting up only rearranges |
| `TtlHeap.DownPermutes` | src/data/ttl_manager.cpp:269-292 | sifting down only rearranges, with either rule |
| `TtlHeap.RemoveTakesOne` | src/data/ttl_manager.cpp:305-330 | removal takes out exactly the one entry |
| `TtlHeap.ExpireConserves` | src/data/ttl_manager.cpp:171-208 | a pass splits the entries into kept and fired, with either rule |
| `TtlHeap.UpRestores` | src/data/ttl_manager.cpp:256-267 | an entry too early for its parent is repaired by sifting up |
| `TtlHeap.DownRestores` | src/data/ttl_manager.hpp:34-37 | with the intended rule an entry too late for its children is repaired by sifting down |
| `TtlHeap.RefreshRestores` | src/data/ttl_manager.cpp:41-43 | with the intended rule up-then-down repairs any position after any change |
| `TtlHeap.PushRestores` | src/data/ttl_manager.cpp:49-57 | appending and sifting up keeps heap order |
| `TtlHeap.RemoveRestores` | src/data/ttl_manager.cpp:305-330 | with the intended rule removal at any position keeps heap order |
| `TtlHeap.ExpireIsExact` | src/data/ttl_manager.cpp:171-208 | with the intended rule a pass leaves a heap of live entries only |
| `TtlHeap.FiredInOrder` | src/data/ttl_manager.cpp:171-208 | with the intended rule entries are fired earliest first |
| `TtlHeap.WrittenRuleBreaksOrder` | src/data/ttl_manager.cpp:275-283 | as written, refreshing the front of 1, 2, 3 gives 3, 2, 1 |
| `TtlHeap.WrittenDownExact` | src/data/ttl_manager.cpp:269-292 | as written, sifting down gives a min-heap exactly when it got one and had nothing to do |
| `TtlHeap.WrittenRefreshExact` | src/data/ttl_manager.cpp:31-47 | as written, a refresh keeps heap order if and only if the children fall due with the entry that ends up there |
| `TtlHeap.WrittenRemoveExact` | src/data/ttl_manager.cpp:305-330 | as written, the same condition for a removal |
| `TtlHeap.WrittenExpireExact` | src/data/ttl_manager.cpp:171-208 | as written, a pass leaves nothing expired if and only if all entries had expired, or none behind the front had |
| `TtlHeap.WrittenPassMissesOne` | src/data/ttl_manager.cpp:171-208 | as written, entries due at 1, 2, 3 checked at 2 leave an expired one behind |
| `TtlManagers.TtlManager.SwapEntries` | src/data/ttl_manager.cpp:294-303 | swaps two entries and keeps the index map the inverse of position |
| `TtlManagers.TtlManager.HeapifyUp` | src/data/ttl_manager.cpp:256-267 | the loop computes the value-level sift and keeps the index map |
| `TtlManagers.TtlManager.HeapifyDown` | src/data/ttl_manager.cpp:269-292 | the loop computes the value-level sift and keeps the index map |
| `TtlManagers.TtlManager.RemoveFromHeap` | src/data/ttl_manager.cpp:305-330 | all maps stay in step and exactly one deadline goes; an index out of range changes nothing |
| `TtlManagers.TtlManager.OverwriteAt` | src/data/ttl_manager.cpp:33-43 | rearranges only; heap order survives under exactly the stated condition |
| `TtlManagers.TtlManager.Reschedule` | src/data/ttl_manager.cpp:31-47 | one deadline moves, one fresh id is used, everything else stays |
| `TtlManagers.TtlManager.ScheduleNew` | src/data/ttl_manager.cpp:49-60 | one deadline is added under a fresh id |
| `TtlManagers.TtlManager.SetTtl` | src/data/ttl_manager.cpp:19-61 | a positive time sets the deadline, as `set_ttl_ms` would with a thousand times the number; otherwise the key loses it and the result says whether it had one |
| `TtlManagers.TtlManager.SetTtlMs` | src/data/ttl_manager.cpp:63-105 | a positive time sets the deadline that many million nanoseconds ahead; otherwise as above |
| `TtlManagers.TtlManager.GetTtl` | src/data/ttl_manager.cpp:107-127 | whole seconds left, truncated, so 0 in the last second; -1 exactly without a deadline, -2 exactly once it has passed |
| `TtlManagers.TtlManager.GetTtlMs` | src/data/ttl_manager.cpp:129-149 | the same in whole milliseconds |
| `TtlManagers.TtlManager.RemoveTtl` | src/data/ttl_manager.cpp:156-169 | the deadline goes and the result says whether there was one |
| `TtlManagers.TtlManager.CheckExpirations` | src/data/ttl_manager.cpp:171-208 | keys are fired once each and counted; what is left is exactly what is live under exactly the stated condition; with the intended rule no key is fired before one due earlier |
| `TtlManagers.FiredEarliestFirst` | src/data/ttl_manager.cpp:171-208 | with the intended rule the keys reported are in order of their deadlines |
| `TtlManagers.TtlManager.Clear` | src/data/ttl_manager.cpp:215-223 | no deadlines, maps empty |
| `TtlManagers.PassIsExact` | src/data/ttl_manager.cpp:171-208 | what is left is what is live: always with the intended rule, as written only in the two harmless cases |
| `Wire.Length32` | src/protocol/protocol.cpp:76-82 | the length field carries the length modulo 2^32 |
| `Wire.Integer64` | src/protocol/protocol.cpp:99-102 | a 64-bit integer, negative ones included, survives its eight bytes |
| `Wire.ReadInt64` | src/protocol/protocol.cpp:297-301 | eight bytes read as an integer are the bytes that integer is written as |
| `Wire.LittleEndian32` | src/protocol/protocol.cpp:79-82 | the four length bytes are the digits of the number to base 256, least significant first |
| `Wire.LittleEndian64` | src/protocol/protocol.cpp:99-102 | so are the eight bytes of an integer, in two's complement |
| `Wire.Value32` | src/protocol/protocol.cpp:260-265 | four bytes read back are worth 1, 256, 65536 and 16777216 each |
| `Codec.WireFormat` | readme.md:149-157 | every message byte by byte: type code 1 to 6, length bytes n, n / 256, n / 65536 and n / 16777216 modulo 256, then the data; integers as eight such bytes |
| `Codec.ItemsFormat` | src/protocol/protocol.cpp:117-130 | elements follow one another, a null pointer as [6, 0, 0, 0, 0] |
| `Codec.Refused` | src/protocol/protocol.cpp:218-312 | what is not a message and how much of it goes: nothing below five bytes, everything on an unknown type, nothing on an integer of another length or on a text still short, with the sum taken in 32 bits |
| `Codec.NormalExactly` | src/protocol/protocol.cpp:117-130 | the receiver sees the message itself if and only if it has no null pointer at any depth |
| `Codec.SizeIsLength` | src/protocol/protocol.cpp:146-175 | `serialized_size` is the length of what `serialize` returns |
| `Codec.RoundTrip` | src/protocol/protocol.cpp:218-251 | a serialized message that fits, followed by any bytes, parses to its normal form and leaves those bytes |
| `Codec.RoundTripExact` | src/protocol/protocol.cpp:65-144 | it does so if and only if it fits |
| `Codec.PrefixFree` | src/protocol/protocol.cpp:65-144 | two messages whose bytes agree up to trailing data have the same normal form and trailing data |
| `Codec.ParsedSize` | src/protocol/protocol.cpp:270-279 | a parsed message is at least as long as what was consumed, and exactly as long if and only if no length wrapped around |
| `Codec.WritesBackExactly` | src/protocol/protocol.cpp:218-337 | what was consumed is what would be written, if and only if every null header carried length zero |
| `Codec.ArrayParses` | src/protocol/protocol.cpp:318-337 | an array header sends the parser into its elements |
| `Parsers.Parser.ParseMessage` | src/protocol/protocol.cpp:218-345 | consumes the buffer in place exactly as the value-level parser does |
| `Parsers.Parser.ParseArray` | src/protocol/protocol.cpp:318-337 | the element loop; header and whole elements stay consumed when an element is missing |
| `Streams.Incomplete` | src/protocol/protocol.cpp:193-216 | a proper prefix of a message never parses; `has_message` sees that exactly unless it is an array with its header, and then the header is lost |
| `Streams.HasWhole` | src/protocol/protocol.cpp:193-216 | `has_message` sees every whole message that fits |
| `Streams.DrainStream` | src/protocol/protocol.hpp:104-114 | draining a prefix of a stream delivers the whole messages in order and keeps the incomplete one, unless it is a cut array |
| `Streams.DeliversEverything` | src/protocol/protocol.hpp:97-107 | for every chunking without a poll inside an array, everything that arrived whole has been delivered in order and only the incomplete message is buffered |
| `Streams.IntactIffNeverCut` | src/protocol/protocol.cpp:318-337 | no byte is lost at any poll of a run if and only if no poll finds a cut array |
| `Streams.FlatStreamsNeverCut` | src/protocol/protocol.cpp:193-216 | a stream without arrays is never cut, so every chunking delivers it |
| `Streams.HeaderIsLost` | src/protocol/protocol.cpp:318-337 | every array with elements loses its header when polled right after it |
| `CutStreams.CutMessageBytes` | src/protocol/protocol.cpp:318-337 | what a poll leaves of a message cut at any byte: the rest of the buffer and the bytes to come spell the elements still under way or to come, at every depth of nesting |
| `CutStreams.DrainLeaves` | src/protocol/protocol.cpp:193-251 | after any poll the buffer and the bytes to come are exactly the messages still to come |
| `CutStreams.RunIsExpected` | src/protocol/protocol.cpp:185-251 | for every stream and every chunking, cut or not, what is delivered and what is buffered are those of a receiver defined message by message |
| `CutStreams.PollCosts` | src/protocol/protocol.cpp:318-337 | a poll loses nothing without a cut array and at least a header with one |
| `CutStreams.WeightDrops` | src/protocol/protocol.cpp:318-337 | over a run nothing of the stream is lost if and only if no poll has cut an array |
| `CutStreams.DeliveredIffNeverCut` | src/protocol/protocol.hpp:97-107 | when the whole stream has arrived, exactly its messages have been delivered if and only if no poll cut an array |
| `CutStreams.ArrayComesApart` | src/protocol/protocol.cpp:318-337 | an array polled right after its header comes out as its elements |
| `KvStores.ParseCommand` | src/protocol/protocol.cpp:371-397 | the texts of an array of strings, nothing if any element is not a string |
| `KvStores.CommandSurvives` | src/protocol/protocol.cpp:359-369 | a command of arguments that fit crosses the wire and comes back as the same arguments |
| `KvStores.NamesReachTheirHandlers` | src/server/kv_store.cpp:19-62 | a name selects a handler if and only if it is the one registered for it, and none if and only if it is not registered |
| `KvStores.CaseDoesNotMatter` | src/server/kv_store.cpp:64-69 | a name is carried out by a handler if and only if it is the registered name but for case, letter and capital being 32 apart |
| `KvStores.KvStore.HandleGet` | src/server/kv_store.cpp:111-128 | the value, null, or the arity error |
| `KvStores.KvStore.HandleSet` | src/server/kv_store.cpp:130-144 | stores the value, extra arguments ignored |
| `KvStores.KvStore.HandleDel` | src/server/kv_store.cpp:146-164 | removes the listed keys; below 2^63 the reply is the drop in the key count, repetitions included |
| `KvStores.KvStore.HandleExists` | src/server/kv_store.cpp:166-182 | below 2^63 the reply is the number of arguments that are stored keys, with multiplicity |
| `KvStores.KvStore.HandleKeys` | src/server/kv_store.cpp:184-201 | lists each accepted key exactly once |
| `KvStores.KvStore.HandleFlushDb` | src/server/kv_store.cpp:224-233 | empties the map |
| `KvStores.KvStore.HandleDbSize` | src/server/kv_store.cpp:235-243 | below 2^63 the reply is the number of keys |
| `KvStores.KvStore.Handle` | src/server/kv_store.cpp:19-62 | every registered handler answers and acts as the reference does |
| `KvStores.KvStore.ExecuteRaw` | src/server/kv_store.cpp:84-105 | reply and new map are those of the reference interpreter |
| `KvStores.KvStore.ExecuteCommand` | src/server/kv_store.cpp:71-82 | the same for a parsed request, or the format error |
| `KvStores.KvStore.Session` | src/server/kv_store.cpp:71-105 | over a whole command sequence every reply and the final map are those of the reference |
| `KvStores.KeysExactIffStarFree` | src/server/kv_store.cpp:184-201 | KEYS lists exactly the matching keys, whatever the pattern, if and only if no stored key contains `*` |
| `KvStores.SessionKeysExact` | src/server/kv_store.cpp:71-105 | over a session KEYS stays exact if and only if no key that is SET contains `*` |
| `KvStores.KeysReplies` | src/server/kv_store.cpp:184-201 | in such a session every KEYS command is answered with the keys its pattern matches |
| `SimpleServer.SilentExactly` | src/server/simple_server.cpp:64-105 | a request draws no reply exactly when it is a GET without a space or a SET without two |
| `SimpleServer.RespondMeaning` | src/server/simple_server.cpp:64-105 | PING answers PONG and an unknown word ERROR, both leaving the map; GET with a space answers what is stored under the bytes from the fifth on; SET stores what follows its second space under what lies between its first two; a silent request changes nothing |
| `SimpleServer.FrameBytes` | src/server/simple_server.cpp:69-73 | a reply carries its length in four little-endian bytes in front |
| `SimpleServer.FrameMeaning` | src/server/simple_server.cpp:107-121 | a frame is too long above 4096 declared bytes, incomplete until its header and bytes are there, and otherwise taken off the front |
| `SimpleServer.SetStores` | src/server/simple_server.cpp:86-98 | SET with a key without spaces stores the value and answers OK |
| `SimpleServer.GetReturns` | src/server/simple_server.cpp:74-85 | GET answers with the stored value or an empty one |
| `SimpleServer.ServeConserves` | src/server/simple_server.cpp:107-128 | the request loop accounts for every input and output byte and replies in order |
| `SimpleServer.ServeFlags` | src/server/simple_server.cpp:107-128 | what the loop leaves in the flags, and no whole request in the input |
| `SimpleServer.ServesRequests` | src/server/simple_server.cpp:107-128 | the loop carries out exactly the requests that have arrived whole, whatever the map |
| `SimpleServer.RequestsResume` | src/server/simple_server.cpp:107-128 | cutting a client's bytes into requests may be interrupted anywhere |
| `SimpleServer.NoReplies` | src/server/simple_server.cpp:64-105 | a batch of requests draws no byte of reply if and only if every one of them is silent |
| `SimpleServer.ReadKeepsSound` | src/server/simple_server.cpp:149-170 | a read keeps the connection's books, unless it is to be closed |
| `SimpleServer.WriteKeepsSound` | src/server/simple_server.cpp:130-147 | a partial write keeps the connection's books, unless it is to be closed |
| `SimpleServer.WriteMoves` | src/server/simple_server.cpp:130-147 | a write moves as many bytes as were taken from the front of the output to the client and leaves everything else; only a failed one asks for a close |
| `SimpleServer.TurnKeepsInv` | src/server/simple_server.cpp:249-264 | one turn of the poll loop keeps the invariant of the whole server |
| `SimpleServer.RunsAreSound` | src/server/simple_server.cpp:220-265 | in every state of every run over any connections: bytes conserved both ways, replies due at their place in one order, map the result of that order |
| `ServerAborts.FullBuffer` | src/server/simple_server.cpp:150-153 | between polls the buffer is full exactly when 4096 bytes of a frame of 4093 to 4096 bytes have arrived |
| `ServerAborts.TurnAborts` | src/server/simple_server.cpp:224-257 | in every reachable state a turn fails an assertion if and only if the client has 4096 bytes of an unfinished request outstanding and is read again, or is written to when every request since the last flush is silent |
| `ServerAborts.RunAborts` | src/server/simple_server.cpp:220-265 | a run over any connections aborts if and only if one of its polls falls under those two cases |
| `ServerAborts.TurnCloses` | src/server/simple_server.cpp:258-262 | a turn closes its connection if and only if input ended, a write failed or a frame beyond 4096 bytes was declared; no other connection is touched |
| `ServerAborts.TameRun` | src/server/simple_server.cpp:126-167 | with frames of at most 4092 bytes and no silent request no assertion fails, and wanting to write is having output |
| `ServerAborts.SilentBatchAborts` | src/server/simple_server.cpp:126-131 | on any connection with nothing to write: after a read the next write fails if and only if the read completed requests and all are silent |
| `ServerAborts.SilentRequestAborts` | src/server/simple_server.cpp:126-131 | connect, send one short request, be written to: the run aborts if and only if the request is silent |
| `ServerAborts.LongFrameAborts` | src/server/simple_server.cpp:150-153 | on any connection that stays open: after a read the next read fails if and only if the buffer is full of one frame longer than 4092 bytes |
| `ServerAborts.LongRequestAborts` | src/server/simple_server.cpp:150-153 | connect, send as much of one request as fits, be read again: the run aborts if and only if the request is longer than 4092 bytes |
| `Connections.Connection.TryOneRequest` | src/server/simple_server.cpp:107-128 | one step of the value-level request loop, in place |
| `Connections.Connection.ServeAll` | src/server/simple_server.cpp:169 | the draining loop computes the value-level one |
| `Connections.Connection.HandleReadable` | src/server/simple_server.cpp:149-170 | flags, buffers and map after a read are the value-level ones |
| `Connections.Connection.HandleWritable` | src/server/simple_server.cpp:130-147 | flags, buffer and bytes sent after a write are the value-level ones |
| `CommandLines.ParseCommandLine` | src/client/redis_client.cpp:94-133 | the character loop computes the split of the line |
| `CommandLines.SplitsWhatIsMeant` | src/client/redis_client.cpp:94-133 | for every way of writing arguments as stretches in and out of quotes with escapes, any positive number of spaces apart: what was meant comes back, without the empty ones |
| `CommandLines.PlainComesBack` | src/client/redis_client.cpp:116-124 | non-empty arguments without space, quote or backslash come back from a line that has them side by side |
| `CommandLines.TypedByte` | src/client/redis_client.cpp:101-112 | a backslash before n, r or t gives bytes 10, 13 or 9, before any other byte that byte, inside quotes and outside |
| `CommandLines.OpenEnd` | src/client/redis_client.cpp:126-131 | a line that ends inside quotes counts as closed, and a backslash at the end as not typed |
| `CommandLines.QuoteThenSplit` | src/client/redis_client.cpp:94-133 | quoting each argument, joining with spaces and splitting returns the arguments without the empty ones |
| `CommandLines.RoundTripExact` | src/client/redis_client.cpp:94-133 | the same list comes back if and only if no argument is empty |
| `CommandLines.SplitHasNoEmpty` | src/client/redis_client.cpp:116-130 | no line yields an empty argument |

## Where the code and its documentation differ

- The TTL header calls the heap a min-heap ordered by earliest expiration; `heapify_down` moves a later child up. The constant `rule` of `TtlManager` chooses between the written and the intended comparison; nothing else depends on it.
- `set_ttl` and `set_ttl_ms` with a time of zero or less take the same mutex twice; the model gives the removal they are meant to be.
- The matcher's comments promise `*` only; the code also supports `?`, and takes a `*` in the key literally.
- `has_message` promises a complete message; for an array it looks at the header only.
- The parser's `5 + length` is 32-bit arithmetic. The outcome `Fault` stands for the read past the end of the buffer that a wrapped sum allows.

## Left out

- MurmurHash3: the hash is a parameter, so the table's theorems hold for every hash function.
- AvlHeap: nodes are modelled for the one instantiation the program makes (sorted-set entries to bool); the value-level results hold for every key type and strict total order. Reference counts of `shared_ptr`, and the moment a hash node is freed, are not modelled.
- Floating point: scores are reals, without NaN; the load-factor test is exact rational comparison, which division by a power of two also is.
- Integer widths outside the wire format: sizes, ids and ranks are unbounded; memory exhaustion is not modelled.
- Locks, atomics and the background thread: operations are atomic steps; times are parameters, in nanoseconds.
- `zrevrange`: reverses the ascending slice and so disagrees with `zrevrank`.
- `HashTable::Iterator`, moved-from tables, statistics counters, averages and INFO text (a parameter).
- `CommandHandler::handle_client`: shares one parser between connections and feeds unconsumed bytes again.
- Sorted-set command handlers: declared but neither defined nor registered; SET options are ignored by the code.
- Messages whose type and value disagree: messages are the ones the factories make.
- `Drain`: a parse that consumes nothing, which needs a buffer of four gigabytes, would repeat for ever; the function stops there.
- Sockets, the TCP client and server, the event loop, the logger, the Node middleware and the web front end: plumbing over system calls and user interface.
