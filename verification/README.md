# A verified model of the data structures and protocols in this repository

The repository collects pages, plug-ins and clients. This project models, in Dafny, the
parts of it that are data structures, algorithms or protocols, and proves what they promise
to their callers. Check everything with `dafny verify dfyconfig.toml`.

## What is modelled

**The hash function of memcached** (`JenkinsHash`, `JenkinsValues`). Registers are 32-bit vectors. `mix` and
`final` are shown to be bijections. The three ways in which the little-endian build reads a key
are methods with the source's loops and switches; each is proved equal to one function of the
key's bytes, and `JenkinsValues` computes that function at the values published with the algorithm.

**The incremental hash table of memcached** (`AssocModel`, `AssocTable`). `AssocModel` says on
sequences of chains what each operation does, and proves that every run of operations is a run on
one finite map, for every hash function. `AssocTable` is the table itself: two arrays of item
pointers, chained through the items and updated in place, each method proved against `AssocModel`.

**Consistent hashing in the memcache client** (`ConsistentRing`). A growing list of points, the
interpolation search in wrapping unsigned arithmetic, and the table of 1024 cached answers.

**Flexihash** (`FlexihashModel`, `Flexihash`). The two inverse indexes over an insertion-ordered
PHP array, the lazy sort flag, removal, and preference lists.

**The growing ring-buffer queue** (`RingQueue`) of the memcache client, on a fixed-size buffer
that is replaced when it is full, also while it is wrapped.

**Five algorithms of the dojo base library**: `DeferredChain` (callback chains that pause on inner
Deferreds), `Json` (the printer, its string escapes and pretty mode), `QueryString`, `DotSegments`
(path flattening in URLs) and `NthChild` (`:nth-child` arithmetic and the sibling index cache).

**The SOCKS 5 client handshake** (`Socks5`): messages, replies and whole conversations.

**Weighted server selection** (`WeightedSelect`), in exact arithmetic.

`Wrappers`, `Strings` and `Arithmetic` hold what several modules share.

## Where the code differs from what one would expect

Each of these is stated as a lemma, with the exact condition under which the code does meet the
expectation.

* `:nth-child(-an)` without an offset also selects the multiples of a; every other `an+b` is right
  (`NthChild.LinearRightIff`).
* `mmc_queue_remove` stops at the first null pointer in the queue and drops what stands behind it
  (`RingQueue.RemoveIsFilter`, `RingQueue.RemoveExamples`).
* Flexihash hashes a target's name followed by a running number, so the names `t` and `t1` share a
  position under every hash function with the default 64 replicas. On a ring of just these two the
  order in which they are added changes the list of some resource, and if `t1` came after `t`,
  removing `t` takes an entry of `t1` with it (`Flexihash.SuffixedNamesConflict`; exactly when this
  happens is `Flexihash.OrderMatters`, `Flexihash.RemovalMatters` and
  `Flexihash.HistoryIndependentIff`).
* The answer to a query of the consistent ring depends on how the library sorts equal points
  exactly if those in question belong to different servers (`ConsistentRing.SortsAgreeIff`,
  `ConsistentRing.DisputeExample`).
* A JSON text does not read back if a string or key in it has U+2028 or U+2029 in it, which the
  printer does not escape and JavaScript before the 2019 edition of its standard refuses in a literal
  (`Json.JsonRoundTrip`, `Json.SeparatorDoesNotRead`).
* A query string does not bring back arrays of fewer than two strings
  (`QueryString.QueryRoundTrip`).
* A `..` above the root of an absolute path is kept, where RFC 3986 drops it
  (`DotSegments.AgreesWithRfc3986`, `DotSegments.ClimbingExample`).
* `selectServer` answers 0 for a single server, whatever that server's key is
  (`WeightedSelect.SelectedIsChosenIff`, `WeightedSelect.SingleServerExample`).
* A SOCKS server that grants a request with an IPv6 address in its reply is taken to have refused
  it (`Socks5.HandshakeAccepts` through `Granted`, `Socks5.Ipv6Example`).

## Main results

* `JenkinsHash.Hash`: one value, whichever of the three read strategies runs;
  `JenkinsValues.PublishedValues`: it is the published one; `JenkinsHash.MixReversible` and
  `JenkinsHash.DifferenceSurvives`: no information is lost.
* `AssocModel.RunRefines`, `AssocModel.ExpansionStarts`, `AssocModel.MigrationLands`,
  `AssocModel.ExpansionLength`, and
  `AssocTable.Run` for the pointers: one finite map over every run.
* `ConsistentRing.Find`, `ConsistentRing.TableMinimallyDisrupted`,
  `ConsistentRing.TableOrderIndependent`, `ConsistentRing.SortsAgreeIff`.
* `Flexihash.Ring.LookupList`, `Flexihash.PreferenceOrder`, `Flexihash.RingRemoval`, `Flexihash.RingAddition`,
  `Flexihash.HistoryIndependentIff`, `Flexihash.Run`.
* `RingQueue.Run` with `RingQueue.FifoRun`, `RingQueue.RemoveIsFilter`.
* `DeferredChain.Drive`, `DeferredChain.FiringLate`, `DeferredChain.TimingIndependent`.
* `Json.EscapeStringIs`, `Json.PrettyLays`, `Json.PrettyIsLines`, `Json.JsonRoundTrip`; `QueryString.QueryRoundTrip`.
* `DotSegments.Flatten`, `DotSegments.FlatPathIdempotent`, `DotSegments.AgreesWithRfc3986`.
* `NthChild.LinearRightIff`, `NthChild.Parent.GetNodeIndex`.
* `Socks5.MessagesReadBack`, `Socks5.HandshakeSafe`, `Socks5.HandshakeAccepts`.
* `WeightedSelect.RunIsRange`, `WeightedSelect.RunSize`.

## Model

| member | source | states |
|---|---|---|
| `JenkinsHash.MixReversible` | hermes/distribute/memcached-1.2.5/assoc.c:93-101 | `mix` is a bijection on the three registers: an explicit inverse undoes it from both sides, as its comment claims. |
| `JenkinsHash.FinalReversible` | hermes/distribute/memcached-1.2.5/assoc.c:128-137 | `final` is a bijection on the three registers, too. |
| `JenkinsHash.BlockChangeSurvives` | hermes/distribute/memcached-1.2.5/assoc.c:159-196 | Changing any one 12-byte block of a key of any length changes the registers. |
| `JenkinsHash.DifferenceSurvives` | hermes/distribute/memcached-1.2.5/assoc.c:139-312 | Two keys of one length that differ inside one 12-byte block only never end in the same three registers; in particular keys of at most 12 bytes never do. |
| `JenkinsHash.MaskedRead` | hermes/distribute/memcached-1.2.5/assoc.c:171-196 | A masked 32-bit read beyond the end of the key gives the zero-padded word, whatever the bytes beyond are. |
| `JenkinsHash.AddLastWords` | hermes/distribute/memcached-1.2.5/assoc.c:181-196 | The switch of the 32-bit path adds the zero-padded last block, for each of the 12 lengths. |
| `JenkinsHash.HashByWords` | hermes/distribute/memcached-1.2.5/assoc.c:152-218 | The aligned path computes the one function of the key bytes `HashOf`; bytes beyond the key have no influence. |
| `JenkinsHash.AddLastHalves` | hermes/distribute/memcached-1.2.5/assoc.c:237-265 | The switch of the 16-bit path with its fall-throughs adds the same last block. |
| `JenkinsHash.HashByHalves` | hermes/distribute/memcached-1.2.5/assoc.c:220-265 | The 16-bit path computes `HashOf` too. |
| `JenkinsHash.AddWholeBytes` | hermes/distribute/memcached-1.2.5/assoc.c:273-284 | Twelve single-byte additions add the same three words as three 32-bit reads. |
| `JenkinsHash.AddLastBytes` | hermes/distribute/memcached-1.2.5/assoc.c:291-307 | The fall-through switch of the byte path adds the same last block. |
| `JenkinsHash.HashByBytes` | hermes/distribute/memcached-1.2.5/assoc.c:267-308 | The byte path computes `HashOf` too. |
| `JenkinsHash.Hash` | hermes/distribute/memcached-1.2.5/assoc.c:139-312 | For every key, length, initval and address the value is one function of the bytes: the three read strategies agree, and the length-0 exit is taken for the empty key only. |
| `JenkinsValues.PublishedValues` | hermes/distribute/memcached-1.2.5/assoc.c:93-137 | For "Four score and seven years ago" and the seeds 0 and 1 the hash is 0x17770551 and 0xcd628161, the values published with the algorithm; this fixes every rotation of `mix` and `final` and the initial state. |
| `JenkinsValues.EmptyKey` | hermes/distribute/memcached-1.2.5/assoc.c:148-149 | The empty key gives 0xdeadbeef plus the seed, unmixed. |
| `AssocModel.LinkRefines` | hermes/distribute/memcached-1.2.5/assoc.c:578-595 | Linking an absent item adds exactly its key to the map that searches see. |
| `AssocModel.DeleteRefines` | hermes/distribute/memcached-1.2.5/assoc.c:603-616 | Unlinking a present key removes exactly that key. |
| `AssocModel.MoveFind` | hermes/distribute/memcached-1.2.5/assoc.c:552-575 | A migration step is invisible to the search for any key. |
| `AssocModel.MoveRefines` | hermes/distribute/memcached-1.2.5/assoc.c:552-575 | A migration step keeps the map and the item count. |
| `AssocModel.MigrationLands` | hermes/distribute/memcached-1.2.5/assoc.c:556-565 | The items of old bucket b end in new buckets b and b + 2^(hashpower-1), both empty before, as a partition; no other bucket changes. |
| `AssocModel.OldBucketsEmpty` | hermes/distribute/memcached-1.2.5/assoc.c:565-570 | Every old bucket below the frontier is empty. |
| `AssocModel.MovedCount` | hermes/distribute/memcached-1.2.5/assoc.c:565-571 | When the old array is let go, nothing in it was still linked: the count equals the items in the arrays that are kept. |
| `AssocModel.InsertRefines` | hermes/distribute/memcached-1.2.5/assoc.c:578-601 | Insertion, with the expansion it may start (granted or refused), adds exactly the new key. |
| `AssocModel.StepRefines` | hermes/distribute/memcached-1.2.5/assoc.c:488-616 | Each operation is the corresponding operation on one finite map. |
| `AssocModel.RunRefines` | hermes/distribute/memcached-1.2.5/assoc.c:488-616 | In every state reachable by insertions, deletions, migration steps and failed or successful expansions, under every hash function, a search gives exactly what the map holds and `hash_items` is the number of linked items. |
| `AssocModel.StepPhase` | hermes/distribute/memcached-1.2.5/assoc.c:552-601 | While an expansion runs only migration steps advance it, and nothing starts a second one. |
| `AssocModel.ExpansionLength` | hermes/distribute/memcached-1.2.5/assoc.c:534-575 | An expansion ends with its 2^(hashpower-1)-th migration step, neither earlier nor later, whatever operations come in between. |
| `AssocModel.ExpansionStarts` | hermes/distribute/memcached-1.2.5/assoc.c:534-549 | A granted insertion that brings the count above one and a half items a bucket doubles the table and moves its first bucket at once; no other insertion, deletion or migration step starts an expansion. |
| `AssocModel.ExpansionReached` | hermes/distribute/memcached-1.2.5/assoc.c:595-598 | From every empty table, the first insertion beyond one and a half items a bucket starts an expansion, whatever the keys. |
| `AssocModel.InitialSize` | hermes/distribute/memcached-1.2.5/assoc.c:452-454 | The initial table has 65536 buckets. |
| `AssocTable.HashTable.constructor` | hermes/distribute/memcached-1.2.5/assoc.c:478-486 | A new table stands for the empty map, holds no item, and owns its arrays. |
| `AssocTable.HashTable.Find` | hermes/distribute/memcached-1.2.5/assoc.c:488-509 | The pointer walk returns the item stored under the key, or null if there is none, in every well-formed state. |
| `AssocTable.FindBefore` | hermes/distribute/memcached-1.2.5/assoc.c:527-529 | The walk stops at the first item with the key and knows its predecessor. |
| `AssocTable.Skip` | hermes/distribute/memcached-1.2.5/assoc.c:606-609 | Unlinking one item leaves the rest of its chain, in order, and every other bucket. |
| `AssocTable.Unlink` | hermes/distribute/memcached-1.2.5/assoc.c:603-609 | Finding and skipping an item removes it from its chain and from nothing else. |
| `AssocTable.PushFront` | hermes/distribute/memcached-1.2.5/assoc.c:588-594 | An unlinked item becomes the head of its bucket; all other chains stay threaded. |
| `AssocTable.MoveChain` | hermes/distribute/memcached-1.2.5/assoc.c:557-563 | The pointer loop moves every item of a chain to the head of its new bucket, although it overwrites the links it walks along. |
| `AssocTable.HashTable.LinkIn` | hermes/distribute/memcached-1.2.5/assoc.c:584-595 | The new item is found under its key from then on, and all others as before. |
| `AssocTable.HashTable.MoveNextBucket` | hermes/distribute/memcached-1.2.5/assoc.c:552-575 | The in-place migration step does what the step on chains does, and keeps the map; when it ends the expansion, every slot of the old array is null. |
| `AssocTable.HashTable.Expand` | hermes/distribute/memcached-1.2.5/assoc.c:534-549 | Doubling, granted or refused, keeps the map. |
| `AssocTable.HashTable.Insert` | hermes/distribute/memcached-1.2.5/assoc.c:578-601 | The contents become the old contents with the item under its key; the arrays afterwards are the old ones or a fresh one. |
| `AssocTable.HashTable.Delete` | hermes/distribute/memcached-1.2.5/assoc.c:603-616 | The contents become the old contents without the key; the item leaves the frame, its link cleared. |
| `AssocTable.Run` | hermes/distribute/memcached-1.2.5/assoc.c:478-616 | Every allowed run, played on the pointer table: it ends well formed, its chains are those of the run on chains and its contents those of the run on a map. |
| `ConsistentRing.Guess` | hermes/distribute/memcache-2.2.3/memcache_consistent_hash.c:90-91 | The interpolated probe stays within the interval although its product wraps modulo 2^32, and its divisor is positive. |
| `ConsistentRing.GuessIsShare` | hermes/distribute/memcache-2.2.3/memcache_consistent_hash.c:90-91 | The guess is the wrapped product divided by the distance, rounded down. |
| `ConsistentRing.Find` | hermes/distribute/memcache-2.2.3/memcache_consistent_hash.c:80-107 | The search terminates on every non-empty sorted array and returns the server of the first point at or after the query, or of the first point if there is none. |
| `ConsistentRing.SuccessorChosen` | hermes/distribute/memcache-2.2.3/memcache_consistent_hash.c:80-107 | What the search finds is a property of the set of points: the closest at or after the query, else the lowest. |
| `ConsistentRing.QSort` | hermes/distribute/memcache-2.2.3/memcache_consistent_hash.c:68-77 | What is used of the library sort: ascending, and a permutation. |
| `ConsistentRing.State.PopulateBuckets` | hermes/distribute/memcache-2.2.3/memcache_consistent_hash.c:110-120 | All 1024 cached answers are right for the current set of points. |
| `ConsistentRing.State.FindServer` | hermes/distribute/memcache-2.2.3/memcache_consistent_hash.c:123-152 | The server returned before any connection attempt is the one a scan of all current points would give: the cache is never stale. |
| `ConsistentRing.State.AddServer` | hermes/distribute/memcache-2.2.3/memcache_consistent_hash.c:158-179 | The point set becomes that of all (server, weight) pairs added, with 160 more points for each unit of weight, and no stale answer survives. |
| `ConsistentRing.PointsOfMember` | hermes/distribute/memcache-2.2.3/memcache_consistent_hash.c:158-174 | A pair stands for 160 different points for each unit of weight, if the names of the server do not collide. |
| `ConsistentRing.QueryIs` | hermes/distribute/memcache-2.2.3/memcache_consistent_hash.c:112-117 | Bucket h modulo 1024 stands for the query 4194303 * (h modulo 1024). |
| `ConsistentRing.BucketsCoverRing` | hermes/distribute/memcache-2.2.3/memcache_consistent_hash.c:112-117 | Every point of the ring has a bucket with its query at most 4195326 before it. |
| `ConsistentRing.DeterminedIffUnambiguous` | hermes/distribute/memcache-2.2.3/memcache_consistent_hash.c:80-120 | The choice is determined, whatever the sort does with ties, if and only if no two servers share a point. |
| `ConsistentRing.SortsAgreeIff` | hermes/distribute/memcache-2.2.3/memcache_consistent_hash.c:80-120 | For one query (such as the one a bucket stands for): every possible sort leads to the same answer if and only if all points that can be chosen have one server. |
| `ConsistentRing.UnambiguousUndisputed` | hermes/distribute/memcache-2.2.3/memcache_consistent_hash.c:80-120 | No query is in doubt if no two servers share a point. |
| `ConsistentRing.DisputeExample` | hermes/distribute/memcache-2.2.3/memcache_consistent_hash.c:80-120 | Two servers whose points all coincide leave every query in doubt. |
| `ConsistentRing.MinimalDisruption` | hermes/distribute/memcache-2.2.3/memcache_consistent_hash.c:110-179 | Adding a server leaves a query with its server or gives it to the new one, provided that the old servers did not leave the query in doubt. |
| `ConsistentRing.TableOrderIndependent` | hermes/distribute/memcache-2.2.3/memcache_consistent_hash.c:110-179 | A bucket that equal points do not leave in doubt depends on the set of (server, weight) pairs alone, not on the order of additions and lookups. |
| `ConsistentRing.TableMinimallyDisrupted` | hermes/distribute/memcache-2.2.3/memcache_consistent_hash.c:110-179 | Each of the 1024 buckets that was not in doubt keeps its server or moves to the new one. |
| `FlexihashModel.CollectWithout` | hermes/distribute/flexihash-0.1.9.php:216-244 | Taking a target out commutes with collecting first instances. |
| `FlexihashModel.PreferencesOthers` | hermes/distribute/flexihash-0.1.9.php:186-248 | Without a target's entries every preference list is the old one with the target deleted. |
| `Flexihash.Ring.constructor` | hermes/distribute/flexihash-0.1.9.php:84-88 | An empty ring; a replica count of zero means the default 64. |
| `Flexihash.Ring.AddTarget` | hermes/distribute/flexihash-0.1.9.php:95-116 | Adds the target's positions to both indexes, or refuses a known target and changes nothing; both indexes stay consistent. |
| `Flexihash.Ring.RemoveTarget` | hermes/distribute/flexihash-0.1.9.php:138-155 | Removes its positions from both indexes, or refuses an unknown target; an ascending array stays ascending, so the sort flag, left alone, still tells the truth. |
| `Flexihash.Ring.SortPositionTargets` | hermes/distribute/flexihash-0.1.9.php:265-273 | Afterwards the array is sorted whether or not the flag said so before. |
| `Flexihash.FirstPass` | hermes/distribute/flexihash-0.1.9.php:208-229 | The pass above the position either finds the answer or what the second pass needs. |
| `Flexihash.SecondPass` | hermes/distribute/flexihash-0.1.9.php:231-247 | The second pass completes the requested prefix of the full preference list. |
| `Flexihash.Ring.LookupList` | hermes/distribute/flexihash-0.1.9.php:186-248 | The list is the prefix of the full preference list of the length asked for, all of it if that is negative or larger: distinct live targets; a count of zero is an error. |
| `Flexihash.Ring.Lookup` | hermes/distribute/flexihash-0.1.9.php:171-176 | The first preference, or an error if there is none. |
| `Flexihash.PreferencesLive` | hermes/distribute/flexihash-0.1.9.php:186-248 | Preference lists name live targets only, each once, with no assumption about collisions. |
| `Flexihash.PreferencesComplete` | hermes/distribute/flexihash-0.1.9.php:208-247 | A target is in the full list if and only if it has a position. |
| `Flexihash.PreferenceOrder` | hermes/distribute/flexihash-0.1.9.php:208-247 | What precedence means: going up from the resource and round, a target stands before another because one of its positions is met before every position of the other. |
| `Flexihash.RemovalIsExact` | hermes/distribute/flexihash-0.1.9.php:145-150 | Removal takes out the target's entries and no others if and only if none of its positions has gone to another target. |
| `Flexihash.AddThenRemove` | hermes/distribute/flexihash-0.1.9.php:95-155 | Adding and removing a target restores the ring if and only if it took no position from another; then every lookup is restored. |
| `Flexihash.RingRemoval` | hermes/distribute/flexihash-0.1.9.php:138-248 | For any ring in use: with no two live targets on one position, removal deletes the target from every list and changes nothing else. |
| `Flexihash.RingAddition` | hermes/distribute/flexihash-0.1.9.php:95-248 | For any ring in use: addition inserts the target into every list, and removing it again restores all of them. |
| `Flexihash.FirstChoiceAfterAddition` | hermes/distribute/flexihash-0.1.9.php:95-176 | An addition moves the first choice for a resource to the new target or leaves it. |
| `Flexihash.FirstChoiceAfterRemoval` | hermes/distribute/flexihash-0.1.9.php:138-176 | A removal moves the first choice for a resource away from the removed target or leaves it. |
| `Flexihash.MembershipDetermines` | hermes/distribute/flexihash-0.1.9.php:95-248 | For two rings in use whose targets never collided, the same live targets give the same preference list for every resource. |
| `Flexihash.HistoryIndependentIff` | hermes/distribute/flexihash-0.1.9.php:95-248 | Over all histories of additions and removals with targets from a given set, the preference lists of all resources depend on the live targets alone if and only if no two targets of the set share a position. |
| `Flexihash.Run` | hermes/distribute/flexihash-0.1.9.php:84-248 | Every history, lookups included, played on a ring gives the preference lists of that history. |
| `Flexihash.OrderMatters` | hermes/distribute/flexihash-0.1.9.php:107-113 | Two targets can be added in either order, to the same list for every resource, if and only if they share no position. |
| `Flexihash.RingOrderMatters` | hermes/distribute/flexihash-0.1.9.php:95-248 | The same on any ring in use. |
| `Flexihash.Ring.HashPositions` | hermes/distribute/flexihash-0.1.9.php:107-113 | The loop over the replicas gives the target its positions in both indexes, in order. |
| `Flexihash.PositionAt` | hermes/distribute/flexihash-0.1.9.php:105-110 | There are as many positions as replicas; the i-th is the hash of the name followed by the numeral of i. |
| `Flexihash.DecimalIs` | hermes/distribute/flexihash-0.1.9.php:105-110 | The numeral of a number consists of digits, has no leading zero and reads back. |
| `Flexihash.PositionsDistinct` | hermes/distribute/flexihash-0.1.9.php:105-110 | Under a hash without collisions all positions of a target differ. |
| `Flexihash.RemovalMatters` | hermes/distribute/flexihash-0.1.9.php:138-150 | Removing the earlier of two targets leaves the ring with the later one alone if and only if they share no position. |
| `Flexihash.SuffixedNamesCollide` | hermes/distribute/flexihash-0.1.9.php:105-110 | The names t and t + "1" share a position under every hash function once there are eleven replicas. |
| `Flexihash.SuffixedNamesConflict` | hermes/distribute/flexihash-0.1.9.php:105-150 | So for these two names the order of addition shows in the list of some resource, and removing the earlier takes an entry of the later one with it. |
| `RingQueue.Queue.Push` | hermes/distribute/memcache-2.2.3/memcache_queue.c:29-52 | The contents are the old contents followed by the pointer, growth while wrapped included. |
| `RingQueue.Queue.Grow` | hermes/distribute/memcache-2.2.3/memcache_queue.c:30-40 | A full queue gets room for 26 more items, contents unchanged. |
| `RingQueue.Queue.Pop` | hermes/distribute/memcache-2.2.3/memcache_queue.c:54-72 | Returns and removes the oldest item; null and no change on an empty queue. |
| `RingQueue.Queue.Item` | hermes/distribute/memcache-2.2.3/memcache_queue.h:38 | The macro gives the i-th oldest item. |
| `RingQueue.Queue.Contains` | hermes/distribute/memcache-2.2.3/memcache_queue.c:74-86 | True exactly if the pointer is queued. |
| `RingQueue.Queue.Remove` | hermes/distribute/memcache-2.2.3/memcache_queue.c:107-119 | The queue becomes the filtered items in front of its first null. |
| `RingQueue.FilterIs` | hermes/distribute/memcache-2.2.3/memcache_queue.c:111-117 | The filter takes out the removed pointer, as often as it is there, and nothing else. |
| `RingQueue.FilterConcat` | hermes/distribute/memcache-2.2.3/memcache_queue.c:111-117 | The filter keeps the order. |
| `RingQueue.RemoveIsFilter` | hermes/distribute/memcache-2.2.3/memcache_queue.c:107-119 | That is the order-preserving filter of the whole queue if and only if everything from the first null on is the removed pointer itself. |
| `RingQueue.RemoveExamples` | hermes/distribute/memcache-2.2.3/memcache_queue.c:107-119 | So it is on every queue without null; a concrete queue shows the loss otherwise. |
| `RingQueue.FifoRun` | hermes/distribute/memcache-2.2.3/memcache_queue.c:29-72 | Over every run, what came out followed by what is left is what was there followed by what went in. |
| `RingQueue.Run` | hermes/distribute/memcache-2.2.3/memcache_queue.c:29-72 | Every run of pushes and pops of the ring buffer is that run of the list. |
| `DeferredChain.FiringLate` | timepicker/lib/dojo.js:2758-2771 | Computing without an inner result and resuming when it comes equals having had it all along. |
| `DeferredChain.Deferred.Fire` | timepicker/lib/dojo.js:2735-2792 | The loop runs the chain to the point the left-to-right fold reaches; a paused chain is left alone. |
| `DeferredChain.Deferred.AddBothTo` | timepicker/lib/dojo.js:2787-2791 | Hooking to another Deferred goes on at once if that one has fired, and waits otherwise. |
| `DeferredChain.Deferred.Continue` | timepicker/lib/dojo.js:2759-2769 | The continuation takes the inner result and runs the waiting pairs. |
| `DeferredChain.Deferred.Resback` | timepicker/lib/dojo.js:2663-2669 | A delivered value starts the fold on the branch its type selects. |
| `DeferredChain.Deferred.Callback` | timepicker/lib/dojo.js:2671-2691 | The first delivery starts the chain; a second one is refused and changes nothing. |
| `DeferredChain.Deferred.Errback` | timepicker/lib/dojo.js:2693-2701 | The first delivery starts the chain with the error, other values being wrapped in one; a second one is refused and changes nothing. |
| `DeferredChain.Deferred.AddCallbacks` | timepicker/lib/dojo.js:2724-2733 | A pair added before or after firing takes its place at the end of the fold. |
| `DeferredChain.Deferred.InnerFired` | timepicker/lib/dojo.js:2758-2771 | When an inner Deferred fires, the state is the fold with its result known. |
| `DeferredChain.IdleMeansExhausted` | timepicker/lib/dojo.js:2735-2792 | Fired and not paused implies an empty chain. |
| `DeferredChain.Drive` | timepicker/lib/dojo.js:2663-2792 | Every interleaving of additions, deliveries and inner firings ends in the state fixed by its projections. |
| `DeferredChain.TimingIndependent` | timepicker/lib/dojo.js:2663-2792 | Two runs with the same pairs, first value and inner results make the same handler calls and end with the same result, that of one left-to-right fold. |
| `DeferredChain.FirstCall` | timepicker/lib/dojo.js:2681-2701 | In every run, a first delivery by errback calls the first pair's errback, with an error; one by callback calls its callback, or its errback if the value is an error. |
| `DeferredChain.SecondHandler` | timepicker/lib/dojo.js:2748-2782 | What a handler does picks the next one: an exception or error the errback, another value the callback, nothing the branch and value as before, a Deferred the branch its value selects, or waiting. |
| `DeferredChain.LastResult` | timepicker/lib/dojo.js:2748-2786 | What the last handler does is the result; a missing handler passes the value on. |
| `Json.EscapeStringIs` | timepicker/lib/dojo.js:2811-2819 | The six replacement passes equal one escape per character between two quotes. |
| `Json.EscapesExample` | timepicker/lib/dojo.js:2811-2819 | The seven escape sequences, spelled out. |
| `Json.LiteralReadsBack` | timepicker/lib/dojo.js:2811-2819 | A literal reads back as the string wherever it stands if and only if no U+2028 or U+2029 is in it: no quote inside ends it. |
| `Json.LaysLiteral` | timepicker/lib/dojo.js:2811-2819 | Removing layout leaves literals alone, whatever white space, quotes and backslashes are in them. |
| `Json.PrettyLays` | timepicker/lib/dojo.js:2822-2929 | Pretty printing adds white space outside literals and nothing else, for every value and any blank indent. |
| `Json.PrettyIsLines` | timepicker/lib/dojo.js:2879-2928 | The pretty text, line by line: every item and field starts a line one indentation unit deeper than what encloses it, closing brackets stand on lines of their own, with commas and colons followed by a space. |
| `Json.ReadsBack` | timepicker/lib/dojo.js:2801-2929 | The compact text of every value but a function reads back as that value (functions inside count as absent or undefined), whatever may follow it, unless a printed string or key has U+2028 or U+2029 in it; then it does not read at all. |
| `Json.JsonRoundTrip` | timepicker/lib/dojo.js:2801-2929 | Either print mode, stripped of layout, reads back as the value if and only if no printed string or key has U+2028 or U+2029 in it. |
| `Json.SeparatorDoesNotRead` | timepicker/lib/dojo.js:2801-2819 | The string of one U+2028 prints to a text that does not read. |
| `Strings.SplitJoin` | timepicker/lib/dojo.js:7201-7240 | Splitting undoes joining for parts without the separator. |
| `Strings.JoinSplit` | timepicker/lib/dojo.js:1118-1140 | Joining undoes splitting, and no part contains the separator. |
| `QueryString.QueryReturns` | timepicker/lib/dojo.js:7165-7258 | For every mapping: what comes back has one-element arrays as strings, and no empty arrays or missing values. |
| `QueryString.QueryRoundTrip` | timepicker/lib/dojo.js:7165-7258 | The round trip is exact if and only if no array has fewer than two strings. |
| `QueryString.PrintedExample` | timepicker/lib/dojo.js:7186-7201 | A string and an array printed: all pairs in order, joined by "&". |
| `QueryString.ItemAtFirstEquals` | timepicker/lib/dojo.js:7244-7246 | The name of an item ends at its first "=", and everything behind it is the value. |
| `QueryString.EmptyItemsSkipped` | timepicker/lib/dojo.js:7240-7243 | A leading or trailing "&" makes no difference. |
| `DotSegments.Flatten` | timepicker/lib/dojo.js:1119-1139 | The in-place splice loop terminates and leaves what a stack machine computes. |
| `DotSegments.FlattenedNormal` | timepicker/lib/dojo.js:1119-1139 | No "." is left, and ".." stands only at the front, after an optional empty root. |
| `DotSegments.FlatPathIdempotent` | timepicker/lib/dojo.js:1118-1140 | The same for whole paths as text. |
| `DotSegments.RemovedIsRemoveDotSegments` | timepicker/lib/dojo.js:1115-1140 | The buffer algorithm of section 5.2.4 of RFC 3986 and its form on segments agree on all absolute paths. |
| `DotSegments.AgreesWithRfc3986` | timepicker/lib/dojo.js:1115-1140 | On absolute paths the result is that of RFC 3986 if and only if no ".." climbs above the root. |
| `DotSegments.RelativePath` | timepicker/lib/dojo.js:1119-1139 | An ordinary relative path becomes what the RFC algorithm makes of its segments, behind as many ".." as climb above the start. |
| `DotSegments.ClimbingExample` | timepicker/lib/dojo.js:1115-1140 | The path /../a stays as it is, where the RFC makes /a of it. |
| `NthChild.LinearIsSelected` | timepicker/lib/dojo.js:6577-6612 | The filter built under truncated remainder selects exactly the indices of section 6.6.5.2 of Selectors Level 3, plus the multiples of -a when a < 0 and b = 0. |
| `NthChild.LinearRightIff` | timepicker/lib/dojo.js:6577-6612 | It is right on all indices if and only if not (a < 0 and b = 0). |
| `NthChild.OddAndEven` | timepicker/lib/dojo.js:6572-6576 | odd and even select the odd and the even indices. |
| `NthChild.BuildIs` | timepicker/lib/dojo.js:6577-6612 | Every form of the argument: an index, "n" and "-n" with an offset, and a numeric step. |
| `NthChild.TrueIndexIs` | timepicker/lib/dojo.js:6408-6421 | The index is one more than the number of elements in front. |
| `NthChild.Parent.GetNodeIndex` | timepicker/lib/dojo.js:6376-6429 | Re-keying returns the true index and brings every cache up to date; later calls return it while the children stay the same; otherwise the cached number is returned as it is. |
| `NthChild.Parent.IsNthChild` | timepicker/lib/dojo.js:6598-6612 | The filter on a child gives the standard's answer for its true index, but for the one family above. |
| `Socks5.MessagesReadBack` | ng/proxysocket/socks.py:142-194 | The server reads back the methods (exactly 0, and 2 if there is a user name), user, password, host and port; a message is refused exactly if a field does not fit. |
| `Socks5.Handler.SendData` | ng/proxysocket/socks.py:219-227 | The socket loop sends and reads what the conversation on reply lists says, empty reads repeated, and ends on the empty message. |
| `Socks5.Handler.Handshake` | ng/proxysocket/socks.py:208-227 | The whole handshake, opened with the method offer. |
| `Socks5.HandshakeSafe` | ng/proxysocket/socks.py:153-252 | Against every server with framed replies: at most three messages, credentials only when asked for, the request only directly after a go-ahead, and waiting only for a reply that never comes. |
| `Socks5.HandshakeAccepts` | ng/proxysocket/socks.py:153-252 | The client accepts if and only if every step was granted, after two exchanges without credentials or three with them. |
| `Socks5.OtherReplies` | ng/proxysocket/socks.py:153-180 | What each reply leads to, framed or not: versions 0, 1 and 5 by their codes and address types, everything else and everything too short raises. |
| `Socks5.Ipv6Example` | ng/proxysocket/socks.py:169-177 | A request granted with an IPv6 address in the reply raises. |
| `WeightedSelect.SelectServer` | hermes/distribute/zk-hash.php:38-58 | The loop with its early exit returns the first server whose cumulative share exceeds the share of the hash, else the last; a single server is answered with 0, an empty list with nothing. |
| `WeightedSelect.ZeroWeights` | hermes/distribute/zk-hash.php:51-57 | Several servers without any weight: the last one gets every hash. |
| `WeightedSelect.SelectedIsChosenIff` | hermes/distribute/zk-hash.php:38-58 | The answer is the key of the server that the shares choose if and only if there are several servers or the single one has key 0. |
| `WeightedSelect.SingleServerExample` | hermes/distribute/zk-hash.php:38-42 | A server with key 7 is answered with 7 beside another one and with 0 alone. |
| `WeightedSelect.RunIsRange` | hermes/distribute/zk-hash.php:44-57 | The hash values fall into consecutive runs in server order, the top value to the last server. |
| `WeightedSelect.RunSize` | hermes/distribute/zk-hash.php:44-57 | The size of a run differs from its share w*(2^32-1)/W by less than 1; the last one exceeds its share by at most 1 and is not below it. |

## Left out

Hash functions are parameters everywhere but in `JenkinsHash`: any function of the key. Sockets,
server connections, memory allocation and JavaScript's component encoder appear as parameters, as
booleans or as lists of replies.

- `AssocModel.RunRefines`: bucket numbers, sizes and `hash_items` are unbounded; the source's `int bucket` and 32-bit counter would overflow at a table of 2^31 buckets or 2^32 items. A failed `calloc` is a boolean argument of an insertion; the out-of-memory exit of `assoc_init`, verbose logging and the freeing of memory are left out.
- `JenkinsHash.Hash`: the big-endian and the Valgrind variant are left out. Memory beyond the key is a list of bytes up to the end of the aligned word.
- `ConsistentRing.State.FindServer`: stops before the failover loop, which asks connection code that is not part of this model; a ring without any point (no server, or weights of zero only) is excluded: the source has no answer for it.
- `ConsistentRing.State.AddServer`: the number of points is at most 2^31 - 1, as the source's `int` counter needs; the text "host:port-i" that is hashed is a server and a number.
- `ConsistentRing.QSort`: the library's algorithm is replaced by an insertion sort; no result uses how it treats equal points.
- `Flexihash.Ring.LookupList`: PHP's loose comparison of numeric strings in `in_array` and its casting of array keys; the hashers that give hexadecimal strings, which PHP sorts as numbers where they look like numbers. Positions are integers, as those of the CRC-32 hasher.
- `RingQueue.Queue.Push`: overflow of the `int` counters, and a failing `erealloc`. `mmc_queue_copy`, `mmc_queue_free` and `mmc_queue_reset` are not modelled.
- `RingQueue.Queue.Remove`: the buffers of the queue are fresh objects; that the source frees the old one is not modelled.
- `DeferredChain.Deferred.Fire`: no `cancel`, no debug mode, and handlers that do not touch the Deferred they belong to. Another Deferred is one value that it delivers once; a Deferred handed back in the middle of its own run is not modelled.
- `Json.ToJson`: the `json` and `__json__` hooks, DOM nodes, and number formatting (the text of a number is given). Object keys are the strings that enumeration yields.
- `Json.ReadsBack`: `fromJson` calls `eval`; the model is a reader of literals without layout, as the fifth edition of the ECMAScript standard reads them. Third-edition engines drop format-control characters such as U+00AD first, browsers from the 2015 edition on take a key `__proto__` for the prototype, and the 2019 edition accepts U+2028 and U+2029: these are not modelled, nor are other expressions that `eval` accepts.
- `Json.JsonRoundTrip`: holds for the same edition; in others a key `__proto__` or a format-control character may not come back although `Clean` holds.
- `QueryString.QueryRoundTrip`: the component codec is any pair of functions of which the second undoes the first, with neither & nor = in the output; names that every object inherits, and values other than strings and arrays of strings, are left out.
- `DotSegments.Flatten`: the rest of the URL constructor (scheme, authority, query and fragment, and where the base path is cut).
- `NthChild.LinearIsSelected`: the splitting of the text "an+b" into numbers (a "+" before the n gives no number at all in the source).
- `NthChild.Parent.GetNodeIndex`: a cached number is returned unchecked after siblings have been swapped without a change of their number; then it may be wrong, and the contract only says that it is the cached one. An element without a parent, or of a parent without children, is not modelled.
- `Socks5.Handler.SendData`: replies that arrive in several reads or are longer than the 128 bytes read at once; an endless series of empty reads. Exceptions are one outcome; their texts are left out. A length or port that does not fit raises, as in current versions of Python 2.
- `Socks5.HandshakeSafe`: SOCKS 4 with its name resolution, and the HTTP handlers, which the source marks as incomplete.
- `WeightedSelect.SelectServer`: floating point is replaced by exact arithmetic, and weights are not negative. A total weight of zero is taken as in PHP 5 and 7, where the division warns and no comparison succeeds; PHP 8 raises an error.
- The rest of the repository: Django, Facebook, RSS and calendar pages, sessions, daemons, MogileFS, the query engine of dojo beyond `:nth-child`, the Gantt chart. It is input and output, user interface and database plumbing.
