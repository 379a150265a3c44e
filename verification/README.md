# hyLISP: a verified model of its algorithmic cores

hyLISP is an edge router for the Locator/ID Separation Protocol: a control plane
(`hylisp-cp`), a hypervisor that shares one LISP socket between control planes
(`hylisp-hv`), and a data plane in the kernel (`hylisp-dp/core.patch`). This
project models the algorithms under the sockets and proves what they promise.

* **The prefix database** (`Bits`, `Prefix`, `Views`, `Shapes`, `Theory`,
  `Trie`, `Lookup`, `Walk`, `Hole`). A Patricia trie of EID prefixes on the heap,
  with parent pointers and reference counts. A prefix is a bit string, and
  what a table stores is a map from bit strings to entries. The stored keys are
  exactly the meets (pairwise longest common prefixes) of the locked keys, so
  getting and releasing a prefix are functions of that map (`AfterGet`,
  `AfterUnlock`), and every method is proved to compute them. `Shapes` keeps the
  pointers apart from the contents: a snapshot of all links is a value, and the
  updates of the structure are proved on snapshots.
* **Map-Register** (`Register`, `MapServer`, `Databases`, `MapRegister`, `Sites`,
  `Service`): what a message does to the contents of a table, as a theory of
  contents; the code on the tries of both address families, with the hash that
  recognises a message sent again; the configuration that sets up the sites; and
  a server over its whole life, a configuration and then any messages.
* **The thread pool** (`Pool`, `ThrPool`): a step system whose steps are the
  critical sections, with the choices of the scheduler in the events; and the
  code, one method for each critical section, proved to make those steps.
* **SHA-1 and HMAC** (`Sha1Spec`, `Sha1Known`, `Sha1Transform`, `Sha1`, `Hmac`, `KeyLoss`): the
  definitions of FIPS 180-4 and RFC 2104 on one side, tied to their origins and
  to a known answer; on the other the
  sixteen-word ring, the rotating register names, the streaming context and
  the HMAC context; and what hashing in place does to the key of a site.
* **Control messages** (`Wire`, `Requests`, `HvParser`, `Resolver`, `List`): how an
  encapsulated Map-Request is written and read, the hypervisor's second
  parser, and the DDT lookup over its linked list.
* **The hypervisor's choice** (`Sorting`): the linear longest-prefix scan.
* **Arithmetic and locators** (`Checksum`, `Rlocs`): three Internet
  checksums, the TTL rewrite, and the sorted locator chain of the kernel.

Where the code does not do what one would expect, the model follows the code, and
a lemma says exactly when the expected property holds: `Holes.RightExactlyUpTo6`
and `Holes.HoleRight` (the negative prefix of longer nodes and of requests shorter
than an address), `Checksums.WordBound` (two folds),
`Checksums.CopyBackKeepsValid` (the TTL rewrite), `Requests.PacketBack` (more than
32 ITRs), `Requests.InnerSum` (the inner IP checksum goes through `htons` once
too often), `HvParser.ParsersAgree` (mask lengths in eight bits),
`PoolSteps.WokenCountsAsIdle` (a job behind a worker that is waking up),
`Rlocs.BitsBeyond` (more than 32 locators), `Rlocs.ChoiceIsLeast` (no usable
locator), `Sites.AddSite` and `Sites.EidsSurvive` (nested EID prefixes of two
sites), `KeyLoss.KeySurvives` (keys of 128 characters or more: `SHA1_Update`
compresses the whole blocks of the key where they lie, so the second hashing of a
message is already under another key).

Verify with `dafny verify dfyconfig.toml`.

## Model

| member | source | states |
|---|---|---|
| Prefixes.PrefixMatch | hylisp-cp/radix/db_table.c:118-142 | true exactly when the bit string of n is a prefix of that of p, whatever the host bits are |
| Prefixes.RouteCommon | hylisp-cp/radix/db_table.c:248-275 | on a node that does not cover p: a prefix whose bit string is the longest common prefix of the two |
| Prefixes.CommonBits | hylisp-cp/radix/db_table.c:265-273 | the one-bit mask stops at the first bit where the two bytes differ, or at the end of the prefix |
| Prefixes.CheckBit | hylisp-cp/radix/db_table.c:280-292 | bit i of the address, which is bit i of the bit string as far as that goes |
| Prefixes.BitsWeigh | hylisp-cp/radix/db_table.c:280-292 | a byte is the number that its bits stand for, the first bit weighing most |
| Prefixes.PrefixCopy | hylisp-cp/radix/db_table.c:98-114 | the copy has the same family and the same bit string, though an IPv4 copy takes four bytes |
| Prefixes.ApplyMask | hylisp-cp/radix/db_prefix.c:205-280 | the bit string stays, every bit of the address behind it is cleared, bytes beyond the family's address are not touched |
| Prefixes.MaskedDifference | hylisp-cp/radix/db_prefix.c:91 | a masked difference of two bytes is zero exactly when the masked leading bits agree, for each of the nine masks |
| Bits.BeforeMeans | hylisp-cp/radix/db_table.c:538-573 | in the order of the walk a proper prefix comes first, and otherwise the prefix with a zero where the two part |
| Bits.BeforeTotal | hylisp-cp/radix/db_table.c:538-612 | the order in which a trie is walked is total, asymmetric and irreflexive |
| Bits.BeforeTransitive | hylisp-cp/radix/db_table.c:538-612 | and transitive |
| Bits.AscendingUnique | hylisp-cp/db.c:169-179 | two ascending walks over the same prefixes are the same sequence |
| Views.MeetsBound | hylisp-cp/radix/db_table.c:429-480 | n prefixes have at most n - 1 branching points: at most 2n - 1 meets |
| Views.MeetsClosed | hylisp-cp/radix/db_table.c:247-275 | the common prefix of two stored prefixes is stored |
| Views.LockedAfterGet | hylisp-cp/radix/db_table.c:429-480 | a get adds exactly the requested prefix to the locked set, keeps every stored prefix and keeps the canonical form |
| Views.GetByCanonical | hylisp-cp/radix/db_table.c:429-480 | a canonical table that differs by one locked prefix and at most one stub is `AfterGet`: the contents do not depend on the order of operations |
| Views.LockIsGet | hylisp-cp/radix/db_table.c:308-313 | the lock that a lookup takes on a stored node, stubs included, is a get of its prefix: such locks are steps of the runs below |
| Views.LockedAfterUnlock | hylisp-cp/radix/db_table.c:317-323 | a release removes exactly the prefix whose last lock went from the locked set, and keeps the canonical form |
| Views.GetUndone | hylisp-cp/radix/db_table.c:429-522 | a release undoes a get: the contents are what they were, branching points included |
| Views.UnlockEntries | hylisp-cp/radix/db_table.c:317-323 | a release writes to no other entry |
| Views.RunBound | hylisp-cp/radix/db_table.c:429-522 | over every run of gets, releases and writes the stored prefixes are the meets of the locked ones, at most 2 * locked - 1, and none when nothing is locked |
| Shapes.AttachLeaf | hylisp-cp/radix/db_table.c:457-462 | hanging a leaf into the empty slot where the descent ended keeps the trie: links and parents inverse, children longer and on their side, unique keys, routing |
| Shapes.AttachBranch | hylisp-cp/radix/db_table.c:463-478 | splitting an edge with a branching node keeps the trie |
| Shapes.SpliceOut | hylisp-cp/radix/db_table.c:492-514 | taking out a node with at most one child, the child moving up, keeps the trie |
| Theory.MeetBelow | hylisp-cp/radix/db_table.c:463-478 | the longest common prefix of two stored prefixes is stored |
| Theory.StubIsMeet | hylisp-cp/radix/db_table.c:492-493 | a node without locks is the meet of two locked prefixes, one on either side |
| Theory.StoredAreMeets | hylisp-cp/radix/db_table.c:429-522 | a trie whose stubs all branch stores exactly the meets of its locked prefixes |
| Theory.ConsistentCanonical | hylisp-cp/radix/db_table.c:429-522 | the structural invariant implies the canonical form of the contents |
| Tries.Table.constructor | hylisp-cp/radix/db_table.c:151-161 | an empty, well-formed table |
| Tries.Table.Descend | hylisp-cp/radix/db_table.c:440-449 | the walk ends at the node of p, or at the one slot where p belongs |
| Tries.Table.GetLeaf | hylisp-cp/radix/db_table.c:451-456 | a new locked leaf; the table is well formed again and has this one entry more |
| Tries.Table.GetBranch | hylisp-cp/radix/db_table.c:458-468 | a new stub whose key is the longest common prefix, with the side of p open |
| Tries.Table.GetEdge | hylisp-cp/radix/db_table.c:458-476 | the branching node is the node of p, or p becomes its second child; `count` grows by one or two |
| Tries.Table.Get | hylisp-cp/radix/db_table.c:429-480 | `db_node_get`: well-formed before and after, the node of p is returned, the contents become `AfterGet` |
| Tries.Table.Lock | hylisp-cp/radix/db_table.c:308-313 | the lock count of one node grows by one |
| Tries.Table.Delete | hylisp-cp/radix/db_table.c:483-522 | terminates up the parents; only entries without locks go, nothing else changes, a branching node stays; well formed afterwards |
| Tries.Table.Unlock | hylisp-cp/radix/db_table.c:316-323 | `db_unlock_node`: the contents become `AfterUnlock`; a release that is not the last, or of a two-child stub, changes nothing but the count |
| Tries.Table.SetInfo | hylisp-cp/radix/db_table.c:621-633 | the information of one locked entry is replaced, the old one returned |
| Tries.CountWithin | hylisp-cp/radix/db_table.c:473-480 | `count` is the number of stored prefixes, within 2 * locked - 1 |
| Lookups.MatchPrefix | hylisp-cp/radix/db_table.c:354-376 | the longest stored prefix that covers p, locked once; none if none covers it |
| Lookups.Match | hylisp-cp/radix/db_table.c:326-351 | the same among prefixes with information |
| Lookups.MatchExact | hylisp-cp/radix/db_table.c:407-427 | found exactly when p itself is stored with information |
| Lookups.Target | hylisp-cp/db.c:159-166 | the longest typed prefix covering the node, or the top |
| Lookups.TypedMeans | hylisp-cp/db.c:159-166 | a node counts as typed if its flags hold some role |
| Lookups.TargetIsLongest | hylisp-cp/db.c:159-166 | a longest match followed by `ms_get_target` is the longest match among the typed prefixes and the top |
| Lookups.GetKeepsLookups | hylisp-cp/radix/db_table.c:429-480 | a get changes neither what is found by information nor what is found by type |
| Lookups.UnlockKeepsMatch | hylisp-cp/radix/db_table.c:483-522 | a release keeps the longest match of every query whose match stays; the others find the longest of its prefixes that stay; no information is lost |
| Lookups.NewDb | hylisp-cp/db.c:32-57 | a new table: the root prefix of length 0 is stored, locked and on top |
| Lookups.RootOnTop | hylisp-cp/db.c:32-57 | as long as the root prefix is stored it is the top |
| Walks.Successor | hylisp-cp/radix/db_table.c:539-573 | the first child, or the right sibling on the way up, is the next stored prefix in lexicographic order; none exactly when there is none |
| Walks.Next | hylisp-cp/radix/db_table.c:575-612 | the lock moves to the next prefix at or below the limit; nothing else changes unless the last lock of a leaf goes |
| Walks.Visit | hylisp-cp/radix/db_table.c:526-612 | from the top or from a node to the end: every node at or below visited once, in order, and contents, links, top and locks are as before |
| Walks.GetTree | hylisp-cp/db.c:169-179 | appends exactly the nodes of the types at or below the node, in lexicographic order |
| Walks.TypeMeans | hylisp-cp/db.c:123 | a node is of the types asked for if its flags hold one of them |
| Walks.TreeIsWalk | hylisp-cp/db.c:169-179 | the recursive `ms_get_tree` lists what the walk by `db_route_next_until` lists, filtered by type |
| Walks.Free | hylisp-cp/radix/db_table.c:203-243 | frees every node exactly once, and none before those below it |
| Holes.Search | hylisp-cp/server.c:414-428 | the first length at which each child has been left behind, in the bits the code actually compares |
| Holes.DiffersBits | hylisp-cp/server.c:401-435 | which bits of the request and of a child each step compares, for nodes of every length; behind a node that ends one bit before a byte does, all steps but the first are a byte late |
| Holes.AnswerIs | hylisp-cp/server.c:419-455 | one answer for every request: cut at the first length, up to the end of the request or of the longest child, at which all children have been left; nothing if there is none |
| Holes.GetHole | hylisp-cp/server.c:372-458 | for every request a node covers, of either family and any length: the node itself if it has no children; or else the request cut at that length, nothing if there is none, or a masking loop that runs away exactly when the cut lies eight or more bits behind the request; and when the octet behind the address is overwritten |
| Holes.HoleRight | hylisp-cp/server.c:362-458 | at a node without children, for every request of either family, and at a node of length at most 6: the answer holds the request, lies inside the node, overlaps no child and is the shortest such prefix, exactly when no child lies below the request |
| Holes.AddressHasNoneBelow | hylisp-cp/server.c:362-367 | below the request of a whole address there is never a child |
| Holes.HoleWrong | hylisp-cp/server.c:401-435 | for every length from 7 to the last, in both families, the request of an address and a child on which the answer is not right |
| Holes.RightExactlyUpTo6 | hylisp-cp/server.c:401-435 | of the lengths of a node with children, in both families, exactly those up to 6 are right for every request with no child below it |
| Holes.NegativePrefix | hylisp-cp/server.c:516-529 | on a table of either family, for a request of any length that stops at a leaf or at a node of length at most 6: the answer holds it, lies inside its longest match, is the shortest such prefix and overlaps no stored prefix below the match, exactly when nothing stored lies below the request |
| PoolSteps.StepInv | hylisp-cp/thr_pool/thr_pool.c:30-296 | every critical section, with every choice of the scheduler, keeps the invariant |
| PoolSteps.RunInv | hylisp-cp/thr_pool/thr_pool.c:30-296 | over every run: counters count, the active list is exactly the executing workers, jobs are first in first out, waiters are announced, and no wakeup is lost |
| PoolSteps.NextJobStarts | hylisp-cp/thr_pool/thr_pool.c:94-140 | while a job is queued some worker is not asleep, and its very next critical section starts the first job |
| PoolSteps.TimeoutKeepsMinimum | hylisp-cp/thr_pool/thr_pool.c:149-156 | a step other than a thread's exit never takes the number of workers below the minimum |
| PoolSteps.IdleWorker | hylisp-cp/thr_pool/thr_pool.c:94-158 | a worker without a job sleeps for good up to the minimum; above it sleeps for its time, and leaves when that is over or there is none |
| PoolSteps.WhoTimesOut | hylisp-cp/thr_pool/thr_pool.c:108-130 | only a worker that sleeps with a time limit times out |
| PoolSteps.SubmissionGrows | hylisp-cp/thr_pool/thr_pool.c:268-280 | a job that comes while nobody is idle and the pool is not full gets a worker of its own, if a thread can be created; in no other case does a submission add one, it wakes one that sleeps |
| PoolSteps.ExitReplaces | hylisp-cp/thr_pool/thr_pool.c:30-43 | a worker that goes with its job is replaced exactly if jobs wait and a thread can be created |
| PoolSteps.OthersDoNotGrow | hylisp-cp/thr_pool/thr_pool.c:94-158 | nothing else adds a worker |
| PoolSteps.BurstGrows | hylisp-cp/thr_pool/thr_pool.c:268-280 | n jobs that come while nobody is idle bring n workers, up to the maximum |
| PoolSteps.WokenCountsAsIdle | hylisp-cp/thr_pool/thr_pool.c:276-280 | a run that ends with a job waiting behind another, one worker, and room for nine more: a woken worker counts as idle until it has the mutex |
| PoolSteps.WaitersWoken | hylisp-cp/thr_pool/thr_pool.c:45-52 | a blocked caller has the flag set and work remaining, and the event that ends the work wakes every caller |
| PoolSteps.WaitReturns | hylisp-cp/thr_pool/thr_pool.c:286-296 | a caller returns exactly when nothing is queued and nothing executes |
| PoolSteps.StartsHead | hylisp-cp/thr_pool/thr_pool.c:124-140 | a worker that gets the mutex while jobs wait starts exactly the head of the queue; no other step starts anything |
| PoolSteps.RunStarts | hylisp-cp/thr_pool/thr_pool.c:94-158 | over every run exactly as many jobs are started as there were such steps, in the order in which they came |
| PoolSteps.QueuedJobStarts | hylisp-cp/thr_pool/thr_pool.c:94-158 | over every run the k-th of the waiting jobs is started exactly when k such steps have happened |
| PoolSteps.InitialInv | hylisp-cp/thr_pool/thr_pool.c:198-253 | the invariant holds of a new pool |
| ThrPools.Pool.Append | hylisp-cp/thr_pool/thr_pool.c:268-274 | the job is behind all others in the linked queue, whether it was empty or not |
| ThrPools.Pool.Pop | hylisp-cp/thr_pool/thr_pool.c:127-132 | the first job leaves the linked queue, and with the last one the tail |
| ThrPools.Pool.JobCleanup | hylisp-cp/thr_pool/thr_pool.c:57-75 | the thread's entry leaves the active list; the last one wakes the waiters |
| ThrPools.Pool.WorkerCleanup | hylisp-cp/thr_pool/thr_pool.c:30-43 | one thread less, and a new one if jobs wait and there is room |
| ThrPools.Pool.Loop | hylisp-cp/thr_pool/thr_pool.c:94-158 | from getting the mutex to giving it up the loop takes the first job, or sleeps, or leaves: exactly the decision of the specification |
| ThrPools.Pool.Proceed | hylisp-cp/thr_pool/thr_pool.c:94-158 | a worker that starts or wakes up makes the step of the specification and keeps the invariant |
| ThrPools.Pool.Return | hylisp-cp/thr_pool/thr_pool.c:57-158 | so does a worker whose job returns |
| ThrPools.Pool.ThreadExit | hylisp-cp/thr_pool/thr_pool.c:22-43 | so does a worker whose job calls `pthread_exit` |
| ThrPools.Pool.Enqueue | hylisp-cp/thr_pool/thr_pool.c:255-284 | so does `thr_pool_queue` |
| ThrPools.Pool.AwaitAll | hylisp-cp/thr_pool/thr_pool.c:286-296 | so does `thr_pool_wait`, which is done only with queue and active list empty |
| ThrPools.Execute | hylisp-cp/thr_pool/thr_pool.c:22-296 | the code makes every possible run of the step system, in any interleaving of its threads |
| Sha1Known.RoundConstants | hylisp-cp/hmac/sha.c:47-50 | the constants are the integer parts of 2^30 times the square roots of 2, 3, 5 and 10 |
| Sha1Known.InitialBytes | hylisp-cp/hmac/sha.c:103-107 | the bytes of the initial value count up, down, and up again |
| Sha1Known.RotationBy1 | hylisp-cp/hmac/sha.c:29 | a rotation by one bit as a multiplication with what has gone over added |
| Sha1Known.RotationBy5 | hylisp-cp/hmac/sha.c:29 | the same for five bits |
| Sha1Known.RotationBy30 | hylisp-cp/hmac/sha.c:29 | the same for thirty bits |
| Sha1Known.PaddedIs | hylisp-cp/hmac/sha.c:132-143 | a padded message is the message, a one bit, the fewest zeros, and the length field |
| Sha1Known.LengthDigits | hylisp-cp/hmac/sha.c:136-139 | the length field holds the digits, to the base 256, of the length in bits modulo 2^64 |
| Sha1Known.AbcDigest | hylisp-cp/hmac/sha.c:132-156 | the known answer: SHA-1 of abc, step by step |
| Sha1Known.HmacIs | hylisp-cp/hmac/hmac_sha.c:133-179 | HMAC of section 2 of RFC 2104 octet by octet, for keys up to one block |
| Sha1Known.HmacLongKey | hylisp-cp/hmac/hmac_sha.c:79-131 | a longer key stands for its hash |
| Sha1Rounds.SwappedIsBigEndian | hylisp-cp/hmac/sha.c:34-39 | the byte swap of a little-endian read is the big-endian word |
| Sha1Rounds.ChooseIsCh | hylisp-cp/hmac/sha.c:45-46 | the rewritten choice is Ch of section 4.1.1 of FIPS 180-4 |
| Sha1Rounds.MajorityIsMaj | hylisp-cp/hmac/sha.c:48 | the rewritten majority is Maj |
| Sha1Rounds.RingNext | hylisp-cp/hmac/sha.c:41-42 | the in-place update of the sixteen-word ring gives the next word of the 80-word schedule and keeps the last sixteen |
| Sha1Rounds.Round | hylisp-cp/hmac/sha.c:45-49 | a round macro makes one step of section 6.1.2 with renamed variables |
| Sha1Rounds.FiveRounds | hylisp-cp/hmac/sha.c:69-88 | after five rounds the variables have their own names back and are five steps further |
| Sha1Rounds.Transform | hylisp-cp/hmac/sha.c:57-97 | the compression of section 6.1.2 on every state and block; the block is left holding words 64 to 79 of its schedule, and no byte outside it changes |
| Sha1Stream.CountUpCounts | hylisp-cp/hmac/sha.c:116-117 | two 32-bit words with a carry count the bit length modulo 2^64 |
| Sha1Stream.LengthBytes | hylisp-cp/hmac/sha.c:136-139 | their eight bytes are the length field of section 5.1.1 |
| Sha1Stream.ShaCtx.Update | hylisp-cp/hmac/sha.c:112-128 | the context stands for the message and the new data, however the message was split; what becomes of the data in memory, octet by octet |
| Sha1Stream.ShaCtx.Pad | hylisp-cp/hmac/sha.c:140-143 | the padding loop ends with the least number of zeros |
| Sha1Stream.ShaCtx.Final | hylisp-cp/hmac/sha.c:132-156 | the digest is SHA-1 of everything hashed; the context is wiped |
| HmacSha1.HmacCtx.UpdateKey | hylisp-cp/hmac/hmac_sha.c:79-131 | the context stands for the whole key so far, kept up to 64 bytes and hashed beyond, wherever a piece crosses the limit; what becomes of the key in memory |
| KeyLoss.OnlyZerosStay | hylisp-cp/hmac/sha.c:57-97 | no block of data but that of zeros holds the same octets after it has been compressed in place |
| KeyLoss.KeySurvives | hylisp-cp/udp.c:2743 | a key in memory is the same string after it has been hashed exactly if it has less than 128 characters |
| HmacSha1.HmacCtx.EndKey | hylisp-cp/hmac/hmac_sha.c:133-159 | both pads hold the key block of section 2 of RFC 2104, although only the bytes of the key are combined |
| HmacSha1.HmacCtx.StartMessage | hylisp-cp/hmac/hmac_sha.c:161-164 | the inner hash has absorbed the inner pad; the pad is not lost |
| HmacSha1.HmacCtx.UpdateMessage | hylisp-cp/hmac/hmac_sha.c:166-168 | the message grows by the data; what becomes of the data in memory |
| HmacSha1.HmacCtx.EndMessage | hylisp-cp/hmac/hmac_sha.c:170-179 | the output is HMAC-SHA1 of the message under the key, and the context can start another message |
| Checksums.Checksum | hylisp-hv/src/controlpackets/inject.c:159-177 | the complement of the ones'-complement sum of RFC 1071, for any number of words |
| Checksums.IpChecksum | hylisp-cp/udp.c:1366-1377 | the complement of two folds of the sum, which wraps at the width of `unsigned long` |
| Checksums.WrapMeans | hylisp-cp/udp.c:1366-1377 | a sum stays as it is while it fits the machine width, and starts again at zero behind the last number |
| Checksums.ChecksumsAgree | hylisp-cp/udp.c:1366-1377 | both are the checksum of RFC 1071 for up to 65537 words |
| Checksums.WordBound | hylisp-cp/udp.c:1366-1377 | the length bound is exact: 65537 words with a 32-bit sum, 65538 with a 64-bit one |
| Checksums.FilledIsValid | hylisp-hv/src/controlpackets/inject.c:75 | a header with the checksum filled in sums to minus zero |
| Requests.TtlIsFirstOctet | hylisp-dp/core.patch:5544-5545 | the TTL is the first octet of its word, in either byte order |
| Checksums.CopyBackTtl | hylisp-dp/core.patch:5544-5552 | word for word what the TTL rewrite leaves in the header, in either byte order |
| Checksums.CopyBackFields | hylisp-dp/core.patch:5544-5545 | the TTL that was saved is in the header; protocol and all other words but the checksum stay |
| Checksums.CopyBackKeepsValid | hylisp-dp/core.patch:5544-5552 | a valid header stays valid exactly when the inner TTL is at least the outer one |
| Rlocs.OrderAddr | hylisp-dp/core.patch:3450-3523 | on different addresses: IPv4 before IPv6, then lexicographic in the address bytes |
| Rlocs.OrderIsStrict | hylisp-dp/core.patch:3585-3589 | priority, family, address is a strict order, total on different addresses |
| Rlocs.InsertedSorted | hylisp-dp/core.patch:3585-3615 | insertion of a new address keeps the chain strictly sorted and adds exactly that locator |
| Rlocs.SortedMeans | hylisp-dp/core.patch:3451-3483 | in a sorted chain priorities do not fall; of one priority IPv4 comes before IPv6, and each family in the order of the first byte that differs |
| Rlocs.Chain.Insert | hylisp-dp/core.patch:3526-3618 | a known address is refused and nothing changes; a new one goes into its place in the linked chain |
| Rlocs.SetRlocs | hylisp-dp/core.patch:3646-3705 | succeeds exactly on different addresses (and no nonce in a database entry), with a sorted permutation of the input and its status bits |
| Rlocs.Chain.CopyLsBits | hylisp-dp/core.patch:3621-3643 | the bits of the locators that are up are added, up to the 33rd |
| Rlocs.BitsExact | hylisp-dp/core.patch:3621-3643 | for at most 32 locators bit i is set exactly when the i-th is up |
| Rlocs.BitsBeyond | hylisp-dp/core.patch:3631-3638 | beyond, bit 0 is right exactly when the 33rd is not up or the first is |
| Rlocs.Chain.SelectDst | hylisp-dp/core.patch:2875-2899 | the first locator that is up or has priority 255, and its hit count goes up by one; none exactly when there is none; no other hit count changes |
| Rlocs.ChoiceIsLeast | hylisp-dp/core.patch:2875-2899 | on a sorted chain it is the least usable locator whenever there is a usable one, and otherwise one of priority 255 |
| Rlocs.ChoiceFields | hylisp-dp/core.patch:2875-2899 | by the fields: the choice is up and of a priority below 255 exactly if some locator is, and then none that is up has a lower priority |
| Lists.List.Insert | hylisp-cp/list/list.c:19-53 | the value goes before the first entry it does not follow, or to the end without a comparison; all pointers stay inverse |
| Lists.PlaceMeans | hylisp-cp/list/list.c:32-44 | behind all that the value is greater than and before its equals; without a comparison at the end |
| Lists.List.Remove | hylisp-cp/list/list.c:80-97 | exactly this entry leaves the list |
| Lists.List.Search | hylisp-cp/list/list.c:117-131 | the first entry that compares equal, none if there is none |
| Lists.InsertKeepsOrder | hylisp-cp/list/list.c:30-41 | with an order as comparison an ordered list stays ordered |
| Resolver.Slot.constructor | hylisp-cp/udp.c:3765-3785 | a new lookup holds copies of the node's locators, the last one next |
| Resolver.Slot.Send | hylisp-cp/udp.c:3587-3654 | a delivered request takes the last locator off the list; the next one is its predecessor, or none exactly when the list is empty |
| Resolver.Slot.Read | hylisp-cp/udp.c:3887-3986 | record by record: ended, ignored, refused as a loop, or accepted with its locators; then the next send |
| Resolver.Session | hylisp-cp/udp.c:3587-3986 | the code makes every run of the lookup |
| Resolver.RecordKeepsInv | hylisp-cp/udp.c:3921-3981 | a record keeps the chain of accepted prefixes nested and the account of locators |
| Resolver.RecordDecides | hylisp-cp/udp.c:3921-3981 | a record ends the lookup exactly if it is a Map-Server acknowledgement, a delegation hole, not authoritative, or a referral outside the last one; a node or Map-Server referral strictly inside is followed, its locators behind the others; all else changes nothing |
| Resolver.LookupRun | hylisp-cp/udp.c:3587-3986 | over every run the accepted referrals are a strictly nested chain of at most 129 prefixes, and locators asked plus locators left are those learned |
| Resolver.LookupFollows | hylisp-cp/udp.c:3887-3986 | over every run exactly the referrals that descend are followed, in order, up to the answer that ends the lookup |
| Resolver.NewestFirst | hylisp-cp/udp.c:3600-3652 | the locators of the latest referral are asked first, the last of them before the others; earlier ones are kept |
| Resolver.FailedSend | hylisp-cp/udp.c:3601-3634 | a request that does not go out loses no locator and is counted; with none left the lookup is beyond its limit |
| Requests.RequestAdd | hylisp-cp/udp.c:1380-1544 | the packet, octet for octet: encapsulation, inner IP header of the EID's family with its checksum, UDP, Map-Request |
| Requests.PutItrs | hylisp-cp/udp.c:1458-1476 | the ITRs one behind the other, counted in five bits |
| Requests.PrcRequest | hylisp-cp/udp.c:2257-2400 | what the advancing cursors of `udp_prc_request` collect is the recursive reading of the message |
| Requests.RequestBack | hylisp-cp/udp.c:2257-2400 | a Map-Request is read back exactly when it has 1 to 32 ITRs |
| Requests.AnyRequestBack | hylisp-cp/udp.c:2257-2400 | every well-formed Map-Request is read as it was meant: with or without a source EID, 1 to 32 ITRs, any number of records, instance identifiers in front of their addresses |
| Requests.PreparseMeans | hylisp-cp/udp.c:2087-2173 | exactly which packets are accepted, by their octets |
| Wire.LongOctetsAreShorts | hylisp-cp/udp.c:1448-1449 | the nonce goes out with its high octets first |
| Wire.LongIsShorts | hylisp-cp/udp.c:2164-2165 | and is read so |
| Wire.ZerosBehind | hylisp-cp/udp.c:2257-2400 | nor do they behind a message |
| Requests.PacketBack | hylisp-cp/udp.c:2087-2173 | the whole packet: nonce, D bit, security bit and all flags always come back, ITRs in order and EID exactly for 1 to 32 ITRs; in between stand IP and UDP headers with the given addresses and port, the LISP control port, and the lengths of what follows |
| Requests.InnerSum | hylisp-cp/udp.c:1530 | the inner IPv4 checksum is valid exactly on a big-endian machine or if its octets are equal |
| HvParser.ExtractRequest | hylisp-hv/src/controlpackets/parsedatagram.c:80-120 | what one advancing offset finds: both source EID and ITRs skipped, every couple ending before the datagram, then the first record |
| HvParser.ExtractEid | hylisp-hv/src/controlpackets/parsedatagram.c:55-148 | through any nesting of encapsulations; the recursion ends |
| HvParser.MessageKind | hylisp-hv/src/controlpackets/parsedatagram.c:55-78 | for every message: the type inside all encapsulations decides whether it is for everybody, for its EID, or for nobody |
| HvParser.RequestKind | hylisp-hv/src/controlpackets/parsedatagram.c:84-118 | a Map-Request whose source EID and ITRs lie one behind the other inside the datagram gives what the AFI of its first record says |
| HvParser.RequestMalformed | hylisp-hv/src/controlpackets/parsedatagram.c:90-108 | and it is malformed exactly if there are no such places |
| HvParser.RequestsAgree | hylisp-hv/src/controlpackets/parsedatagram.c:80-120 | on a Map-Request both parsers accept they find the same first EID, IPv4 mapped with length + 96, exactly when that fits eight bits |
| HvParser.ParsersAgree | hylisp-hv/src/controlpackets/parsedatagram.c:55-148 | the same for a message bare or in one encapsulation |
| HvParser.PacketUnderstood | hylisp-hv/src/controlpackets/parsedatagram.c:55-148 | end to end: from the packet that `udp_request_add` makes with 1 to 32 ITRs the hypervisor takes the EID that was asked for, exactly when an IPv4 mask length is below 160 |
| Sorting.Test | hylisp-hv/src/controlplanes/sorting.c:80-104 | whole octets and leftover bits: the assignment's bits are a prefix of those asked for |
| Sorting.FlexSort | hylisp-hv/src/controlplanes/sorting.c:51-121 | the special cases, and otherwise the assignee of the longest match, the last of its length, or the default; and the clamped length that the caller gets back |
| Sorting.ClampedMeans | hylisp-hv/src/controlplanes/sorting.c:51-121 | the length that comes back is that of the bits that were compared |
| Sorting.ScanIsLongest | hylisp-hv/src/controlplanes/sorting.c:106-110 | the scan's choice is the longest match over the same prefixes, and no later entry has the same prefix |
| Sorting.SameMatch | hylisp-hv/src/controlplanes/sorting.c:51-121 | a longest-prefix match on the same prefixes, as a table computes it, and the scan agree; there is none exactly when the scan takes the default |
| Registers.CleanKeepsCanonical | hylisp-cp/udp.c:3013-3053 | cutting off everything strictly below a locked prefix leaves exactly the meets of the locked prefixes that remain |
| Registers.CleanAllEffect | hylisp-cp/udp.c:3013-3053 | cleaning a site removes exactly what lies strictly below its prefixes, resets those, and leaves every other entry as it is |
| Registers.RecordsEffect | hylisp-cp/udp.c:3112-3124 | all records of a message: exactly their prefixes become mappings, nothing outside the site's prefixes is stored or written, every configured prefix keeps its site |
| Registers.RegisterEffect | hylisp-cp/udp.c:2679-2698 | after an update the mappings inside the site's prefixes, and the entries with locators, are exactly those of the message; what else is there carries nothing; configured nodes keep roles and site; everything outside is as it was; the table is canonical |
| MapRegister.LastStands | hylisp-cp/udp.c:3112-3347 | of several records for one prefix the last one's locators and flags are stored |
| MapRegister.CarriesStands | hylisp-cp/udp.c:3113-3124 | a stored mapping by the fields of its record: act, A bit, version, ttl, proxy bit, locators |
| Registers.CollectLeast | hylisp-cp/udp.c:3309-3343 | the locator list of a mapping: each address once, with the least priority it came with |
| Registers.CollectCondenses | hylisp-cp/udp.c:3309-3343 | exactly: for every address of the record one locator, the first of those with the least priority, in the order in which the addresses turn up |
| Registers.SiteUnique | hylisp-cp/udp.c:2839-2864 | the site of an address prefix is determined |
| Registers.SiteOfMeans | hylisp-cp/udp.c:2839-2864 | a site is found exactly if the longest configured prefix above, the root excepted, points to it |
| Registers.SiteIsInside | hylisp-cp/udp.c:2839-2864 | what validation attributes to a site lies inside one of the site's prefixes |
| MapServer.CutTrie | hylisp-cp/udp.c:2966-3010 | the pointers left after cutting off all that is below a node form a trie again |
| MapServer.CutConsistent | hylisp-cp/udp.c:3013-3053 | and they agree with the contents left: branching nodes still branch |
| MapServer.CleanNode | hylisp-cp/udp.c:3027-3050 | one node of a site: the new contents of its table, and which nodes stay |
| Databases.CleanSite | hylisp-cp/udp.c:3013-3053 | the loop over the site's nodes, of both tables, makes all the cuts; every node not below one of them stays |
| MapServer.Climb | hylisp-cp/udp.c:2843-2849 | up the parents to the longest configured prefix that covers the node, the top excepted |
| MapServer.ValidateEid | hylisp-cp/udp.c:2839-2864 | the site of the longest configured prefix that covers the address prefix; only a lock is added |
| MapServer.AddEntry | hylisp-cp/udp.c:3315-3325 | the search and what follows add one locator to the list |
| MapServer.ProcessRecord | hylisp-cp/udp.c:3112-3347 | one record: the new contents of the table |
| MapServer.BlankIs | hylisp-cp/udp.c:2721-2733 | what is hashed is the packet with zeros for the authentication data, and for the nonce if it is not to count, octet by octet |
| MapRegister.SameBlank | hylisp-cp/udp.c:2721-2740 | the same is hashed without nonce exactly for messages that differ in nonce and authentication data only |
| MapServer.RecalHashing | hylisp-cp/udp.c:2715-2757 | as much of the HMAC of the blanked message as the authentication data has room for, under the string that the key is; and the string that is left of the key |
| MapServer.StrLen | hylisp-cp/udp.c:2743 | the string that lies in memory, up to the first zero |
| MapServer.ShortKeyStays | hylisp-cp/udp.c:2927-2961 | under a key of less than 128 characters a message is known, or else accepted exactly if it is authentic, and the key stays |
| MapServer.SameAsItself | hylisp-cp/udp.c:2936 | a string comparison of a buffer with itself succeeds, zeros included |
| MapServer.SameUpToMeans | hylisp-cp/udp.c:2936 | two strings compare equal exactly if they agree up to a common zero or to the end |
| MapServer.SameUpToZeros | hylisp-cp/udp.c:2936 | zeros behind a string make no difference |
| MapServer.SignedIsAccepted | hylisp-cp/udp.c:2946-2961 | a new message with the HMAC that a holder of the key computes over it is an update |
| Databases.OneSite | hylisp-cp/udp.c:2906-2925 | a site is found exactly when there are records and all their prefixes, of both families, belong to it |
| MapServer.Compare | hylisp-cp/udp.c:2927-2961 | 0 exactly if the message has the stored hash, otherwise 1 exactly if it is authentic under what the first hashing has left of the key; the hash is stored only for an update; what becomes of the key |
| Databases.ValidateRegister | hylisp-cp/udp.c:2872-2963 | the site that all prefixes belong to decides and is the only one whose record changes; -1 for every other message; the tables change in locks only |
| MapRegister.UpdateEffect | hylisp-cp/udp.c:2679-2698 | an update of one table as a whole: inside the site's prefixes exactly the message's mappings and no other locators, outside nothing but locks has changed, configured prefixes keep roles, site and locks, the last record for a prefix is stored field by field |
| MapRegister.ProcessAll | hylisp-cp/udp.c:2689-2695 | the loop over the records, each going to the table of its family: for each table what its records do one after the other |
| MapRegister.Update | hylisp-cp/udp.c:2679-2698 | old mappings go, new ones come, in both tables; every configured node stays in its table |
| MapRegister.Register | hylisp-cp/udp.c:2654-2712 | for every message and every key: the verdict of the validation; after an update both tables are those of `Replaced` and `Carried`, otherwise they change in locks only; what the configuration set up holds again afterwards, for every site |
| MapRegister.UpdateIsCurrent | hylisp-cp/udp.c:2946-2961 | an update is the last one of its site under the key it has afterwards, if that has less than 128 characters |
| MapRegister.ResentVerdict | hylisp-cp/udp.c:2927-2944 | the last update sent again with another nonce is answered 0 exactly if its hash under the present key is that under the key it was accepted with |
| MapRegister.Resend | hylisp-cp/udp.c:2679-2710 | the last update of a site, under its present key, sent again with another nonce is answered 0; locks change, and the key of that site if it has 128 characters or more, and nothing else |
| Sites.NewServer | hylisp-cp/db.c:32-57 | two new tables with their roots and no site: what every Map-Register needs holds from the start |
| Sites.AddSite | hylisp-cp/parser.c:1071-1165 | a site joins exactly when the test accepts all its prefixes; with its key as a string; what every Map-Register needs still holds exactly when they are disjoint from each other and from all others |
| Sites.ValidPrefix | hylisp-cp/parser.c:148-193 | the test of a delegated prefix: stored already, or below the top or a delegable range; its match stays locked |
| Sites.AddEid | hylisp-cp/parser.c:1150-1160 | a configured prefix, if the test accepts it: its node, locked, marked and pointing to its site |
| Sites.EidFields | hylisp-cp/parser.c:1150-1160 | a configured prefix: one role more, its site, nothing else in its flags, its information left alone |
| Sites.NearestDecides | hylisp-cp/parser.c:178-184 | the nearest node with flags above a prefix decides: if it is not the root it must be a GEID or an EID |
| Sites.FreeOrStored | hylisp-cp/parser.c:148-184 | a prefix that is stored, or has no node with flags above it but the root, is accepted |
| Sites.EidsSurvive | hylisp-cp/udp.c:2679-2698 | an update, whatever its records, leaves all configured prefixes in the table exactly when none lies strictly below one of the site's |
| Sites.NestedAccepted | hylisp-cp/parser.c:178-184 | the configuration accepts a site inside another site's prefix |
| Sites.NestedIsLost | hylisp-cp/udp.c:2679-2698 | every update of the outer site then takes the inner site's prefix out of the table |
| Service.RunShowsLast | hylisp-cp/udp.c:2654-2712 | over every run of Map-Registers each site shows the last update accepted for it: its mappings are exactly those of that message, and its hash is stored, whatever else came since |
| Service.RunMatch | hylisp-cp/radix/db_table.c:326-351 | over every run a lookup inside a prefix of the last update finds the longest of that message's prefixes, with what its last record for it carries |
| Service.RunElsewhere | hylisp-cp/udp.c:2654-2712 | over every run nothing but locks changes outside the prefixes of the sites that were updated |
| Service.RunKnowsLast | hylisp-cp/udp.c:2927-2944 | that update sent again with another nonce, at any later time, is answered 0 and changes locks only, if the site's key has less than 128 characters |
| Service.RunKeepsKeys | hylisp-cp/udp.c:2743 | a key of less than 128 characters is never changed |
| Service.Serve | hylisp-cp/udp.c:2654-2712 | any sequence of Map-Registers makes such a run, and what the configuration set up holds at its end |
| Service.Configure | hylisp-cp/parser.c:1071-1165 | a whole configuration without overlapping prefixes: done exactly when the test accepts all of them; then every Map-Register may come, and nothing is registered yet |
| Service.Live | hylisp-cp/udp.c:2654-2712 | from an empty server: a configuration, any messages, and at the end every site shows its last update; short keys are those of the configuration |

## Left out

- Sockets, polling, signals, logging, command line, XML configuration, mbufs and sysctl: input and output; a send succeeds or fails by a parameter.
- `thr_pool_destroy`: the pool is modelled while it is in use.
- WorkerCleanup: without the `POOL_DESTROY` branch, which only a pool being destroyed takes.
- Loop: without the `POOL_DESTROY` exits, for the same reason.
- `ipq_no` back-pressure in `udp_start_communication`: an unguarded wait outside the pool.
- Table.Get: lock counts and `count` are unbounded; the source's `unsigned int` and `unsigned long` do not wrap in the model.
- Prefix: a prefix length is at most 32 for IPv4 and 128 for IPv6. The control messages' mask lengths are stored unchecked (udp.c:2372, 2445, 2787, 3110 and 3918); malformed ones are left out, and the bound of 129 accepted referrals in LookupRun depends on it.
- CheckBit: bit 128 of an IPv6 host prefix, which the source reads one byte past the address, is taken as 0; the node asked about has no links.
- GetHole: where the masking loop runs away the model stops and says so; what lies more than one octet behind the prefix is not modelled. The node covers the request, as every caller's match does.
- Free: the counter goes down with every node, where the source frees the table and leaves the counter.
- Pool: the active list, which the source links through the stacks of the workers, is a sequence.
- ShaCtx.Update: a single piece is at most 2^32 - 64 bytes, since `i + 63` and `j + len` wrap in the source beyond.
- UpdateKey: a single piece of a key is at most 2^32 - 128 bytes, for the same reason.
- UpdateMessage: a single piece of a message is at most 2^32 - 64 bytes, for the same reason.
- SHA1_Transform: a little-endian machine, on which the block is turned into its schedule by `blk0`.
- HMAC_SHA1_Done and the wiping of local variables: nothing is computed.
- Chain.Insert: memory is always available; addresses have port 0, so that two socket addresses differ exactly when their addresses do.
- Rlocs: weights, MTU and nonces are carried along in the source and decide nothing here.
- Slot.Read: the EID prefix and the locators of a referral are what the code has decoded; `_process_referral_record` and its database write are not part of this model, nor is the slot table with its retries on a clock.
- PrcRequest: octets behind a message read as zero, as in the zeroed receive buffer; the hypervisor's parser is given the same.
- RequestAdd: the packet fits its buffer.
- Register: the records of a message are given as decoded, so that records of an unsupported family do not occur; the Map-Notify that follows is not sent.
- ValidateEid: locks the node that matches and never releases it, as the source does, so that "no change" is always up to lock counts.
- RecalHashing: at most 20 octets of authentication data, the length of the HMAC; behind them the source takes octets of an uninitialised buffer.
- SameUpTo: octets behind a stored hash that is shorter than the new one read as zero.
- Detach: `table->count` is not maintained by the source when a site is cleaned; the ghost field `lost` says by how much it is off. The freeing of the subtrees cut off is not repeated.
- AddSite: the `active` flag, names and contacts of a site are not part of this model, every site has a key, and a refused prefix, which ends the program, ends the configuration.
- Configure: prefixes that overlap, which the source accepts, end what is known of the server; AddSite, EidsSurvive and NestedIsLost say when and how.
- ProcessRecord: LISP-TE locators are left out, and the record is given as decoded.
- Map-Reply, Map-Referral and Map-Register octets, LISP-TE locators and instance identifiers other than the 12 octets skipped in a request.
- `add_assignment`, `remove_assignment` and the management of control planes in the hypervisor.
- Choosing a source locator, encapsulation and decapsulation in the kernel: routing and mbufs.
