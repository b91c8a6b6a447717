# Verified core of the packet desynchroniser

This is a Dafny 4.11 model of the algorithmic cores of the program: the data structures and engines under
the packet plumbing. `dafny verify dfyconfig.toml` checks all of it.

Code that works in place is modelled in place. Nodes, handles, buffers and queues are classes and arrays whose
fields the methods overwrite in the order of the original, and each method is proved against a specification
on values: the order of a tree, the words of a buffer, the overlay of some pieces. Operating system, Lua
interpreter, memory and clock appear as parameters, which may take any value at all.

| files | what they model |
|---|---|
| `AvlTree`, `AvlSteps`, `KavlNodes`, `KavlErase`, `Kavl`, `KavlIterator` | the in-place AVL tree with its path arrays, and its iterator |
| `Prefix`, `PrefixIndex` | prefixes as intervals of addresses, the index that evicts covered prefixes, the address sets |
| `QuickSort` | the quicksort with an explicit stack and unguarded scans |
| `Ip2net`, `Addr6` | deduplication and greedy grouping into networks; comparison and masks of 128-bit addresses |
| `HashTable` | the chained hash table with its two linked structures, doubling and roll back |
| `QuicFrames`, `QuicDefrag`, `QuicHello` | CRYPTO frames, their defragmentation, and the client hello in them |
| `TlsHello`, `HelloEncoding` | search in a hello and replacement of the server name; hello messages as they are written |
| `Timers` | timers whose callbacks change the pool |
| `Reassembly`, `DelayQueue`, `DelayRun` | TCP reassembly modulo 2^32, the delayed queue and its replay, whole hellos in several packets |
| `Checksum` | the Internet checksum with deferred carries |
| `Ip6ExtHdr` | the builder and the three walkers of IPv6 extension headers |
| `AesField`, `AesTables`, `Aes` | the field, the tables, both key schedules and both directions of the cipher |
| `AesBytes`, `AesBox`, `AesExample` | the cipher byte by byte as FIPS 197 defines it, its printed box and its example |
| `Bytes`, `Wrappers` | bytes, powers of two, division; `Option` |

How the proofs of the tree work: while the methods overwrite nodes, a ghost map mirrors the fields of all nodes,
and a ghost tree says what they form. All reasoning about shape, order, balance and size is about these two
values. The same division, a short method and lemmas on values, is used everywhere.

## Findings

Where the code does not do what its name or its documentation promises, the model follows the code; one lemma
states exactly when the promise holds, and another gives an input for which it does not.

- `from64to16` (`nfq2/checksum.c:8-12`) folds twice and drops the carry of the second fold. It is wrong exactly
  when the sum of the four halfwords is 0x1FFFF, 0x2FFFE or 0x2FFFF (`Checksum.From64Exact`). This is reached by
  `do_csum` (`Checksum.DropExample`), by an ordinary IPv4 header of 20 bytes (`Checksum.HeaderDrops`) and by a UDP
  datagram with its pseudo header (`Checksum.DatagramDrops`): the checksum stored then does not verify.
  `Checksum.CsumExact`, `Checksum.Ip4FixChecksum` and `Checksum.FixChecksum` give the exact condition.
- `udp4_fix_checksum` and `udp6_fix_checksum` (`nfq2/checksum.c:141-150`) store 0 where RFC 768 asks for 0xFFFF:
  `Checksum.UdpStoredZero` says exactly when, `Checksum.UdpZeroExample` gives a datagram.
- `QUICDefragCrypto` (`nfq2/protocol.c:1279`) checks for room before it looks for a repetition, so that any frame
  after the 128th different one is refused, even a repetition (`QuicDefrag.RepetitionRefused`). A cutting is
  accepted if and only if fewer than 128 different frames come before the last one (`QuicDefrag.AnyCutting`).
- The play function for UDP (`nfq2/desync.c:1857-1871`) starts no session for a packet that holds only the first
  bytes of a client hello, without a gap and fewer than six, because it does not recognise them
  (`QuicHello.StartsSession`, with the input `QuicHello.ShortStart`).
- `TLSMod` (`nfq2/protocol.c:818-823`) does not check that the lengths stay in range. The name is found again if and
  only if neither the record length nor the handshake length wraps (`TlsHello.RenameAccepted`);
  `TlsHello.WrapExample` is a hello for which one does. It also reads byte 43 of the buffer before it knows that the
  hello is so long (`nfq2/protocol.c:782`), which `TlsHello.ShortHello` is not.
- `ip2net` prints networks "where at least mul/div addresses are filled" (`docs/manual.en.md:4629`). The number it asks
  for is that share of a network exactly if the product of 32 bits does not wrap and the division leaves no remainder
  (`Ip2net.WantedExact`): half of a network is printed where two thirds are asked for (`Ip2net.FillExample`), and a
  quarter of 2^31 addresses is enough for three quarters (`Ip2net.ShareWraps`).
- `proto_skip_ipv6` (`nfq2/darkmagic.c:441`) is documented to give type 0 on an error; the code leaves the type of
  the first header, also behind a later fragment and behind a header without a next one. It gives 0 exactly if the
  first header is hop-by-hop (`Ip6ExtHdr.SkipIpv6`); `Ip6ExtHdr.BareHeader` is a packet with another type.
- `TimerPoolNext` and `TimerPoolRun` (`nfq2/timer.c:76`) give 2^63 - 1 if all timers are due later than that; the
  result is a next time if and only if some timer is due by then (`Timers.MinNextLeast`, `Timers.MinNextExample`).
- `kavl_bit_delete` (`nfq2/pools.c:454`) takes out the prefix it is given if and only if that is stored; otherwise it
  may take out one that covers it or is covered by it (`PrefixIndex.BitDelete`, `PrefixIndex.DeleteExample`). The
  program only calls it with a stored one.

## Model

| member | source | states |
|---|---|---|
| KavlNodes.Rotate1 | nfq2/kavl.h:112-121 | turns a linked tree into its single rotation, order and sizes right, and touches no other node |
| KavlNodes.Rotate2 | nfq2/kavl.h:123-140 | the same for the double rotation, with the three balances it assigns |
| AvlTree.SingleRepairs | nfq2/kavl.h:179-182 | a single rotation makes a subtree that has become two too high on one side valid again, with its order, one lower unless the heavy child was level |
| AvlTree.DoubleRepairs | nfq2/kavl.h:182-182 | a double rotation does so if the heavy child leans the other way, whatever the balance of the node that comes up |
| AvlSteps.Absorbs | nfq2/kavl.h:174-184 | the lowest unbalanced node on the way absorbs the growth: after the rotation its subtree is as high as before the insertion |
| AvlSteps.InsertionOk | nfq2/kavl.h:166-186 | sizes, balances and one rotation after an insertion leave every balance equal to the difference of heights and within -1..1, and every size equal to the count |
| AvlSteps.SettledOk | nfq2/kavl.h:246-266 | each round of the walk back up after a removal leaves a valid subtree that is as high as before, and then stops, or one lower, and then goes on |
| AvlSteps.StaleReplace | nfq2/kavl.h:246-266 | putting the settled subtree back keeps exactly the balances above it right or out by the one level the next round repairs |
| AvlSteps.HeightBound | nfq2/kavl.h:69-79 | while the 32-bit size does not wrap a tree is at most 45 high, so that every path fits into 64 places with room for the fake root |
| KavlNodes.InsertPlace | nfq2/kavl.h:152-168 | the place the search ends at is the only one that keeps the order |
| Kavl.KavlTree.Find | nfq2/kavl.h:81-95 | returns a node that compares equal exactly if there is one, and its rank or the number of smaller nodes |
| Kavl.KavlTree.Insert | nfq2/kavl.h:143-186 | keeps the whole invariant; adds exactly the node at its place in order and counts the nodes before it, or returns an equal node and changes nothing |
| Kavl.KavlTree.Erase | nfq2/kavl.h:189-269 | keeps the whole invariant; takes out exactly the node that compares equal, or the first one without a key, in all three shapes, with its rank; or changes nothing |
| KavlErase.UnlinkLast | nfq2/kavl.h:216-217 | first shape: what is linked afterwards is the tree with the left child in place of the node |
| KavlErase.UnlinkNear | nfq2/kavl.h:218-225 | second shape: the right child moves up, and the path for the walk back is right |
| KavlErase.UnlinkFar | nfq2/kavl.h:226-244 | third shape: the successor takes the place of the node, its right subtree takes its own, all sizes on the way are one less |
| KavlErase.EraseOrder | nfq2/kavl.h:216-245 | in all three shapes the order is the old one without the node |
| KavlErase.Climb | nfq2/kavl.h:246-266 | the walk back up ends with a valid tree with the same nodes in the same order |
| KavlIterator.Iterator.First | nfq2/kavl.h:289-293 | stands on the first node in order, if there is one |
| KavlIterator.Iterator.Next | nfq2/kavl.h:307-322 | goes one place further in order in the direction given, exactly if there is one; the stack of 64 nodes is never exceeded |
| KavlIterator.Iterator.Visit | nfq2/pools.c:526-543 | first and next until the end visit all nodes, each once, in order |
| Prefix.MemCmpVal | nfq2/pools.c:433-444 | memcmp and the compare of part of a byte compare the leading bits as numbers |
| Prefix.CmpInterval | nfq2/pools.c:433-444 | the comparator is negative, positive or 0 exactly if the interval of addresses lies before, behind, or one prefix covers the other |
| Prefix.CoversInterval | nfq2/pools.c:433-444 | a prefix covers another exactly if its interval of addresses includes the other's |
| PrefixIndex.PrefixFreeCut | nfq2/pools.c:433-445 | on a list without nested prefixes any prefix meets the comparator in the order a search tree needs, though it is not transitive |
| PrefixIndex.InsertKeepsPrefixFree | nfq2/pools.c:478-483 | an insertion that finds nothing equal keeps the list free of nested prefixes |
| PrefixIndex.BitAdd | nfq2/pools.c:470-488 | ends, since each round removes a stored prefix; evicts exactly the stored prefixes the new one covers, or none if a stored one covers it; the list stays free of nested prefixes |
| PrefixIndex.BitDelete | nfq2/pools.c:454-460 | takes out one stored prefix that covers the key or is covered by it, and nothing if there is none; it is the key exactly if the key is stored |
| PrefixIndex.DeleteExample | nfq2/pools.c:454-460 | 10.1.0.0/16 is to be deleted, and 10.0.0.0/8 goes |
| PrefixIndex.BitGet | nfq2/pools.c:489-495 | finds a stored prefix that covers the key or is covered by it, exactly if there is one |
| PrefixIndex.IpSet.Add | nfq2/pools.c:497-525 | refuses lengths beyond the address, and otherwise the set has the address and the length besides all before |
| PrefixIndex.IpSet.Check | nfq2/pools.c:517-520 | over any run of additions an address is found exactly if, as a number in network order, it has the first bits of an address that was added, as many as that was added with; for a shorter prefix as many as both have |
| PrefixIndex.MeetsNested | nfq2/pools.c:433-445 | a stored prefix is nested with a searched one exactly if the first bits that both addresses have make the same number |
| Prefix.ValLeading | nfq2/pools.c:497-508 | the bits of a prefix copied from an address are its leading bits in network order |
| QuickSort.MedianOfThree | ip2net/qsort.c:121-131 | afterwards the pivot is between the two ends, and the range is a permutation of what it was |
| QuickSort.Scan | ip2net/qsort.c:141-145 | the two unguarded scans stay inside the range, stopped by elements known from before |
| QuickSort.Collapse | ip2net/qsort.c:139-164 | one round keeps the pivot tracked, the two sides on their sides of it, and the range a permutation |
| QuickSort.Partition | ip2net/qsort.c:121-164 | everything up to the right wall is at most the pivot and everything from the left wall on at least |
| QuickSort.StackRoom | ip2net/qsort.c:54-59 | for any width of `size_t` the stack of as many places never overflows, since each pending part is at most half of the one it was cut from |
| QuickSort.QuickPhase | ip2net/qsort.c:101-196 | no element is left more than four places before a smaller one; the loop ends |
| QuickSort.PlaceSentinel | ip2net/qsort.c:206-221 | after the first phase the least of the first five is the least of all and stands first |
| QuickSort.InsertionPhase | ip2net/qsort.c:223-248 | the unguarded scan stops at the sentinel; the result is sorted |
| QuickSort.GnuQuicksort | ip2net/qsort.c:89-250 | sorts any array into a sorted permutation under any total preorder |
| Ip2net.Unique | ip2net/ip2net.c:54-66 | the front of a sorted array becomes the strictly increasing list of its values |
| Ip2net.Search | ip2net/ip2net.c:474-501 | finds the acceptable network with the most addresses, and of those the smallest, in wrapping 32-bit arithmetic, though it breaks off early |
| Ip2net.AcceptableEarlier | ip2net/ip2net.c:480-486 | a network acceptable at one address was acceptable at any earlier address inside it |
| Ip2net.NoneBefore | ip2net/ip2net.c:469-510 | a network chosen later holds no address of an earlier line |
| Ip2net.DisjointCover | ip2net/ip2net.c:469-510 | the lines are disjoint and increasing, and each holds exactly its own slice of the input |
| Ip2net.Group | ip2net/ip2net.c:469-510 | the slices follow one another without gap and each line is the best choice at its first address |
| Ip2net.Aggregate | ip2net/ip2net.c:466-510 | from unsorted input with repetitions: every address is in a line, the lines are disjoint, and none covers what it does not stand for |
| Ip2net.LineFill | ip2net/ip2net.c:472-500 | a printed network holds at least two of the addresses, v6 at least the threshold, and v4 less than one below mult/div of it if the product does not wrap |
| Ip2net.WantedExact | ip2net/ip2net.c:475-488 | the number asked for is at least mult/div of the network if and only if the product does not wrap and the division leaves no remainder |
| Ip2net.TooHighMeans | ip2net/ip2net.c:475-481 | the shortcut passes over an address if and only if fewer than mult/div of its network are left from it on |
| Ip2net.FillExample | ip2net/ip2net.c:475-500 | two of four addresses are printed as a network with 2/3 |
| Ip2net.ShareWraps | ip2net/ip2net.c:475-488 | with 3/4 a quarter of 2^31 addresses is enough |
| Addr6.Cmp6Order | ip2net/ip2net.c:73-108 | comparing two 64-bit words in network order compares the 128-bit numbers |
| Addr6.Cmp6Bytes | ip2net/ip2net.c:109-119 | the loop over bytes for other machines gives the same result |
| Addr6.Ip6And | ip2net/ip2net.c:181-190 | the conjunction of words, of 64 or of 128 bits, is that of the bytes |
| Addr6.MaskMake | ip2net/ip2net.c:132-143 | each byte of the mask for a number of zero bits |
| Addr6.MaskedStart | ip2net/ip2net.c:388-391 | an address under that mask is, as a number, the start of its network |
| Bytes.MaskIsRemainder | nfq2/uthash.h:430-433 | under `num_buckets - 1` for a power of two the bucket is the remainder |
| HashTable.BktSplits | nfq2/uthash.h:850-870 | doubling sends the elements of a bucket to that bucket or to the one `num_buckets` further |
| HashTable.Hash.ExpandBuckets | nfq2/uthash.h:833-883 | every element is in the bucket of its hash value for twice as many buckets, counts and links are right, the order is untouched; without memory nothing changes |
| HashTable.Hash.Find | nfq2/uthash.h:153-163 | an element with the key, exactly if there is one |
| HashTable.FindInBkt | nfq2/uthash.h:745-764 | the walk along a chain finds the key exactly if an element of the chain has it |
| HashTable.Hash.Add | nfq2/uthash.h:396-415 | the element comes last in the order and into its bucket; if memory is short order, contents and counts are as before |
| HashTable.Hash.AddToTable | nfq2/uthash.h:313-333 | the same for the element already linked into the order, whatever doubling does |
| HashTable.Hash.Rollback | nfq2/uthash.h:138-146 | removal from the bucket, restored count and deletion together undo the addition exactly |
| HashTable.Hash.Delete | nfq2/uthash.h:450-477 | the element leaves order, chain and counts, and nothing else does; the table goes with the last one |
| HashTable.CutList | nfq2/uthash.h:459-467 | unlinking one element leaves a doubly linked list of the others in order |
| HashTable.CutChain | nfq2/uthash.h:789-802 | the same for a bucket chain |
| QuicFrames.ParseEncoding | nfq2/protocol.c:1266-1293 | every encoding of frames, with any widths, is read back; the widths are those of `VarintForms` |
| QuicFrames.EncodingOfParse | nfq2/protocol.c:1269-1310 | whatever is read is such an encoding |
| QuicFrames.VarintForms | nfq2/protocol.c:963-987 | size and value of a variable-length integer by its first byte, for all four sizes |
| QuicFrames.VarintExamples | nfq2/protocol.c:963-987 | the examples of appendix A.1 of RFC 9000 |
| QuicFrames.CutsRestore | nfq2/protocol.c:1290-1308 | any cutting of a stream, overlapping, repeated and in any order, overlays to the stream without gap |
| QuicDefrag.Merge | nfq2/protocol.c:1318-1332 | merging the sorted ranges in place keeps exactly the positions covered and leaves no overlap |
| QuicDefrag.OneRange | nfq2/protocol.c:1345-1345 | one merged range at offset 0 means that every position below the greatest end is covered |
| QuicDefrag.ReadFrames | nfq2/protocol.c:1269-1310 | stays in bounds; each position holds the last write that was not a duplicate, and each gap zero |
| QuicDefrag.QUICDefragCrypto | nfq2/protocol.c:1254-1349 | accepts exactly the packets described; leaves one frame at offset 0 with the overlay; `bFull` exactly if no position is missing |
| QuicDefrag.AnyCutting | nfq2/protocol.c:1254-1349 | every cutting of a stream that fits gives the stream back, complete; it is accepted if and only if fewer than 128 different frames come before the last one |
| QuicDefrag.FewPieces | nfq2/protocol.c:1266-1279 | fewer than 128 different frames are always accepted with any repetitions, and 128 unless the last one is a repetition |
| QuicDefrag.RepetitionRefused | nfq2/protocol.c:1279-1293 | 128 different frames that cut a stream and one repetition are refused |
| QuicDefrag.WholeAgain | nfq2/protocol.c:1337-1345 | defragmenting an output gives it back, complete |
| QuicHello.WholeHello | nfq2/protocol.c:989-1003 | in what defragmentation leaves, a hello is recognised exactly if the bytes put together begin like one, and it is all of them |
| QuicHello.RecordHello | nfq2/protocol.c:486-513 | a record is accepted as a client hello exactly if it announces what it holds and holds a complete one |
| QuicHello.Look | nfq2/desync.c:1850-1859 | what is made of decrypted bytes: refused, with gaps, no hello, an incomplete or a complete hello |
| QuicHello.HelloComplete | nfq2/desync.c:1850-1859 | parts of a client hello in the frames of any packets show a complete hello if and only if they are accepted and no byte is missing, and then it is this hello |
| QuicHello.StartsSession | nfq2/desync.c:1855-1914 | a packet with parts of a client hello starts a session if and only if a byte is missing and it is not only the first five bytes or fewer |
| QuicHello.ShortStart | nfq2/desync.c:1866-1871 | five bytes of a hello start no session |
| TlsHello.TLSFindExt | nfq2/protocol.c:634-645 | reads in bounds and gives the data of the first extension of the type in the list of complete extensions of a complete hello, exactly if there is one; for that list see `HelloEncoding.MessageRead` |
| TlsHello.ModSni | nfq2/protocol.c:777-839 | replaces the name exactly if the hello is complete, has a name and the buffer room; otherwise nothing changes |
| TlsHello.ChangeFields | nfq2/protocol.c:818-823 | six updates in place, each of which reads its field again, change all six fields by the same amount |
| TlsHello.RenameKeeps | nfq2/protocol.c:797-839 | if no length wraps the result is accepted, its host is the new name in lower case, and every other extension is unchanged and in place |
| TlsHello.RenameAccepted | nfq2/protocol.c:818-823 | a name of up to 65535 bytes is found again if and only if neither the record nor the handshake length wraps |
| TlsHello.WrapExample | nfq2/protocol.c:818-823 | a hello with handshake length 0 is accepted, and with a shorter name no name is found in it |
| TlsHello.ShortHello | nfq2/protocol.c:782-782 | a hello of eleven bytes is accepted before byte 43 is read |
| HelloEncoding.EncodedRange | nfq2/protocol.c:486-574 | a hello of a client or a server, with any version, session id, suites and compression methods, and lengths that leave room, is accepted, and its extensions are where they were written |
| HelloEncoding.RangeEncoded | nfq2/protocol.c:486-574 | whatever is accepted is such a hello |
| HelloEncoding.MessageRead | nfq2/protocol.c:575-645 | the extensions found are exactly those that were written, and a search gives the data of the first one of the type |
| HelloEncoding.MessageHost | nfq2/protocol.c:646-690 | the host is the name in the first server name extension, in lower case |
| HelloEncoding.NewName | nfq2/protocol.c:805-823 | replacing the name in the data of such an extension gives the data for the new name |
| Timers.TimerPool.Add | nfq2/timer.c:42-53 | appends the timer as a new instance, due one period from now |
| Timers.TimerPool.FireTimer | nfq2/timer.c:96-141 | after a callback that did anything to the pool the fired instance is gone, or still there and set to its next time; the pool is marked exactly if a call took effect |
| Timers.TimerPool.Sweep | nfq2/timer.c:84-164 | the firings of one pass are the next ones of the reference; it breaks off exactly when the callback just run has made a call that took effect, and otherwise nothing is due any more |
| Timers.TimerPool.Run | nfq2/timer.c:84-164 | whatever the callbacks add, delete or replace it ends, with the firings and the pool of the reference, for which see the rows below; nothing is due any more; the result is the least next time, or 0 for an empty pool |
| Timers.DrainOutcome | nfq2/timer.c:84-164 | over a whole run no instance fires twice, only those due at the start fire, and the rest of the pool is as callbacks left it |
| Timers.DueFires | nfq2/timer.c:84-164 | an instance that was due has fired exactly once unless a callback deleted or replaced its name; if it repeats and its callback did not fail it is left with its next time, with the same exception |
| Timers.NotDueStays | nfq2/timer.c:84-164 | an instance that was not due does not fire, and is left unchanged unless a callback deleted or replaced its name |
| Timers.EndedGone | nfq2/timer.c:96-141 | an instance whose name a callback deletes or replaces, or whose callback fails, or that fires once only, does not fire any more after that and is not left |
| Timers.MinNextLeast | nfq2/timer.c:70-82 | the result is the least of the next times, exactly if one of them is at most 2^63 - 1, and otherwise that number |
| Timers.MinNextExample | nfq2/timer.c:76-82 | a timer that is due later than the result |
| Timers.TimerPool.TimerSet | nfq2/lua.c:3827-3889 | afterwards there is one timer of the name, the last, due one period from now and never fired, and all others are there in order; nothing happens for a period below 10 ms; the pool is marked exactly otherwise |
| Timers.TimerPool.TimerDel | nfq2/lua.c:3890-3905 | afterwards there is no timer of the name and all others are there in order; it is told whether there was one, and the pool is marked exactly then |
| Reassembly.TruePlace | nfq2/conntrack.c:410-415 | the comparison modulo 2^32 puts a segment at its true place across any wrap-around, and passes it exactly if it starts at the end or up to 2^20 before |
| Reassembly.TrimBytes | nfq2/conntrack.c:417-427 | of a segment that starts before the session the bytes from place 0 on are kept, each at its place |
| Reassembly.Reassemble.Feed | nfq2/conntrack.c:408-432 | takes exactly the segments that leave no gap and fit; the buffer is the overlay of all taken, a later one over earlier ones; `seq` is start plus length; a refused one changes nothing |
| Reassembly.StreamRestored | nfq2/conntrack.c:425-430 | segments of one stream put together its beginning |
| Reassembly.RunRestores | nfq2/conntrack.c:408-432 | over any run of lost, repeated, reordered and overlapping segments of a stream the buffer is a beginning of the stream, and each segment that leaves no gap and fits extends it to its end |
| DelayQueue.RawPacketQueue.Queue | nfq2/packet_queue.c:30-79 | refuses a packet when 64 wait; whoever enters is behind all before |
| DelayQueue.RawPacketQueue.Dequeue | nfq2/packet_queue.c:17-23 | the one that has waited longest leaves |
| DelayQueue.Track.ReplayQueue | nfq2/desync.c:2204-2249 | each waiting packet goes once through the play function, in order, numbered, with the whole stream in its place; for TCP its offset is its place in the stream; nothing enters and no session changes |
| DelayQueue.ReplayPlace | nfq2/desync.c:2216-2224 | the difference of sequence numbers modulo 2^32 is the place in the stream |
| DelayQueue.PayloadPlace | nfq2/desync.c:2216-2246 | for UDP it is the length of the payloads before |
| DelayQueue.Track.Delay | nfq2/desync.c:1583-1602 | a packet is queued, or the queue is sent and the session ended; a complete session is replayed and ended |
| DelayQueue.Track.TcpPacket | nfq2/desync.c:1434-1625 | without a track, as in every replay, nothing is queued and no session changes; with one, exactly the packets that continue or start a session are delayed, and the replay comes exactly when all bytes are there |
| DelayQueue.Track.UdpPacket | nfq2/desync.c:1793-1955 | the same for QUIC, whose bytes are all those decrypted since the start of the session: a session goes on as long as they defragment, and is replayed exactly when they show a complete client hello; a delayed packet is dropped, or changed if it is the first of its connection on Linux and fits |
| DelayQueue.Track.CollectTcp | nfq2/desync.c:1525-1613 | the part of the play function for a payload on a track: fed, delayed, or the end of the session |
| DelayQueue.Track.CollectQuic | nfq2/desync.c:1832-1937 | the part for decrypted bytes: fed if there is room, then defragmented and delayed |
| DelayQueue.HelloReplayed | nfq2/desync.c:1822-1826 | once the packets show a complete hello each is replayed with just this hello |
| DelayQueue.Verdicts | nfq2/desync.c:611-643 | a packet that is not delayed is dropped, changed or let through exactly as the strategy says, except that on Linux the first packet of a connection is changed instead of being dropped if it fits |
| DelayRun.RecordArrives | nfq2/desync.c:1518-1615 | a record of a client hello in any segments without a gap: each is dropped and waits, and with the last one all are replayed in order with the whole record |
| DelayRun.HelloArrives | nfq2/desync.c:1815-1937 | a client hello in the frames of several QUIC packets, cut and ordered in any way: each waits, and with the last one all are replayed in order with the hello |
| DelayQueue.Track.Destroy | nfq2/conntrack.c:38-45 | with its track every waiting packet leaves, and only by destruction |
| DelayQueue.Track.Stop | nfq2/desync.c:587-608 | ends the session and sends every waiting packet as it is, in order |
| Checksum.From64Exact | nfq2/checksum.c:8-12 | right for all 64-bit numbers except exactly when the sum of the halfwords is 0x1FFFF, 0x2FFFE or 0x2FFFF |
| Checksum.SumDwords | nfq2/checksum.c:59-71 | the deferred carry of the loop over 64-bit words loses nothing: the result is the sum with end-around carry |
| Checksum.DoCsum | nfq2/checksum.c:17-96 | reads every byte once, in words at their natural alignment, for every length and every alignment of the start |
| Checksum.AccSum | nfq2/checksum.c:17-91 | what is accumulated is the sum of the 16-bit words modulo 65535 and needs less than 35 bits |
| Checksum.FoldedSum | nfq2/checksum.c:92-95 | swapping the bytes at the end undoes the shift of an odd start |
| Checksum.CsumExact | nfq2/checksum.c:17-96 | the result is the one's complement sum of the words if and only if the last fold drops no carry |
| Checksum.CsumOff | nfq2/checksum.c:8-12 | a dropped carry makes it too small by one, or by 256 for an odd start |
| Checksum.DropExample | nfq2/checksum.c:8-96 | twelve bytes with the sum 1 for which the result is 0 |
| Checksum.Ip4FixChecksum | nfq2/checksum.c:109-113 | the header verifies if and only if no carry is dropped |
| Checksum.HeaderDrops | nfq2/checksum.c:109-113 | an ordinary header of 20 bytes for which a carry is dropped |
| Checksum.PseudoWords | nfq2/checksum.c:100-121 | what is added for the pseudo header is the sum of its 16-bit words modulo 65535 |
| Checksum.FixChecksum | nfq2/checksum.c:123-168 | segment and pseudo header verify if and only if neither of the two folds drops a carry |
| Checksum.UdpStoredZero | nfq2/checksum.c:141-150 | the stored word is 0 exactly if the second sum drops no carry and is all ones; if the first drops none either, exactly if the words sum up to all ones without it |
| Checksum.UdpZeroExample | nfq2/checksum.c:141-145 | a datagram for which the stored word is 0 |
| Checksum.DatagramDrops | nfq2/checksum.c:141-145 | a datagram for which the second sum drops a carry |
| Ip6ExtHdr.Reconstruct | nfq2/lua.c:1894-1971 | succeeds exactly if every entry can be written and there is room; then the chain is in place and announced, and nothing else in the packet has changed |
| Ip6ExtHdr.LenByteFits | nfq2/lua.c:1894-1971 | the length byte never overflows and gives the length back |
| Ip6ExtHdr.ChainLayout | nfq2/lua.c:1894-1971 | every byte of a chain: type of the next header, length in units of eight or four bytes, data |
| Ip6ExtHdr.FragmentField | nfq2/darkmagic.c:469-476 | the offset is the 13-bit field times eight, and the flag the last bit |
| Ip6ExtHdr.PushExtHdrs | nfq2/lua.c:1520-1590 | lists the headers up to the payload, to something incomplete or to a later fragment |
| Ip6ExtHdr.SkipIpv6 | nfq2/darkmagic.c:441-500 | stands behind the same headers; the protocol is that of the payload if there is one, and otherwise that of the first header, 0 only if that is hop-by-hop; offset and flag are those of the last fragment header |
| Ip6ExtHdr.BareHeader | nfq2/darkmagic.c:439-454 | a packet without payload whose type is not 0 |
| Ip6ExtHdr.FindExtHdr | nfq2/darkmagic.c:501-551 | finds the first header of the type exactly if it is in that list |
| Ip6ExtHdr.WalkChain | nfq2/darkmagic.c:441-551 | a walk over a chain and what follows gives first the headers of the chain |
| Ip6ExtHdr.RoundTrip | nfq2/lua.c:1520-1590 | walking gives back types and data of what was built if and only if the headers can be followed and nothing behind them looks like one more |
| Ip6ExtHdr.BuiltPacket | nfq2/darkmagic.c:441-551 | for a packet whose payload length, next header and bytes are those of a chain that was built and a payload, the list has the entries back and the walk ends on the payload with its protocol |
| Ip6ExtHdr.BuiltFound | nfq2/darkmagic.c:501-551 | in such a packet a type is found exactly if an entry has it, at its first header, or if it is that of the payload, at its first byte |
| AesField.RowInverse | nfq2/crypto/aes.c:181-204 | the matrix with 14, 11, 13 and 9 undoes the matrix with 2, 3, 1 and 1 |
| AesField.NoShorterPeriod | nfq2/crypto/aes.c:150-156 | the powers of 3 have the period 255 and no shorter one |
| AesField.Generates | nfq2/crypto/aes.c:150-156 | every byte but 0 is a power of 3, so that the logarithm table has no holes |
| AesField.MulTimes | nfq2/crypto/aes.c:129-129 | the product by logarithms is the product in the field for the factors of the reverse tables |
| AesField.MulProduct | nfq2/crypto/aes.c:129-129 | for any two bytes the product by logarithms is the product of polynomials of section 4.2 of FIPS 197 |
| AesField.InverseExact | nfq2/crypto/aes.c:163-178 | the table lookup gives the one factor that makes the product 1 |
| AesField.SubMeaning | nfq2/crypto/aes.c:163-178 | the box is the affine map of the inverse in the field (section 5.1.1 of FIPS 197) |
| AesField.SubInjective | nfq2/crypto/aes.c:163-178 | no two bytes have the same image, so that no entry of the reverse box is overwritten |
| AesTables.InitKeygenTables | nfq2/crypto/aes.c:144-208 | all tables are right: forward tables give the box times its matrix column, reverse tables its inverse |
| Aes.ForwardTables | nfq2/crypto/aes.c:76-97 | four lookups are substitution and MixColumns of a column |
| Aes.ReverseTables | nfq2/crypto/aes.c:99-120 | four lookups are the inverse substitution and the inverse of MixColumns |
| Aes.KeyTables | nfq2/crypto/aes.c:325-332 | the box and then the reverse tables are the inverse of MixColumns on a round key |
| Aes.SetEncryptionKey | nfq2/crypto/aes.c:223-304 | fills the buffer with the key expansion for all three lengths; for its bytes see `AesBytes.KeyWordBytes` |
| Aes.AesContext.SetDecryptionKey | nfq2/crypto/aes.c:305-336 | the reversed schedule with the inner keys through the inverse of MixColumns |
| Aes.AesContext.Cipher | nfq2/crypto/aes.c:386-482 | in each direction the cipher, or the equivalent inverse cipher, with the keys in the buffer |
| Aes.DecryptInverts | nfq2/crypto/aes.c:386-482 | the equivalent inverse cipher undoes the cipher, for any keys and any number of rounds |
| AesBytes.RoundTrip | nfq2/crypto/aes.c:220-482 | for every key of 16, 24 or 32 bytes and every block the cipher text is that of FIPS 197, and deciphering gives the block back |
| AesBytes.KeyWordBytes | nfq2/crypto/aes.c:220-304 | every byte of the key expansion by the indices of section 5.2 of FIPS 197, with powers of 2 in the field |
| AesBytes.CipherBytes | nfq2/crypto/aes.c:386-482 | every byte of the cipher text by the indices of section 5.1 of FIPS 197, with the product of the field |
| AesBox.Figure7 | nfq2/crypto/aes.c:163-178 | all 256 entries of the box as figure 7 of FIPS 197 prints them |
| AesExample.FirstExpanded | nfq2/crypto/aes.c:234-240 | the first expanded word of appendix A.1 of FIPS 197 |
| AesExample.Output | nfq2/crypto/aes.c:386-482 | the cipher text of appendix B of FIPS 197 |

## Left out

Simplifications inside the modelled code:

- Kavl.KavlTree.Insert: requires that the number of nodes stays below 2^32, as the 32-bit size fields do.
- Kavl.KavlTree.Erase: requires a tree that is not empty if no key is given; the original then takes the fake root for the node to delete, and its callers guard against it (`nfq2/kavl.h:209-217`, `nfq2/pools.c:463`).
- KavlIterator.Iterator.Next: the iterator started by a search (`kavl_itr_find`) is not modelled, nor are `kavl_interval` and `kavl_free`.
- QuickSort.GnuQuicksort: the moves of an element byte by byte are moves of whole elements.
- Ip2net.Search: the loops for v4 and v6 are one, in which v6 addresses are numbers; `Addr6` shows that masks and comparison by words and bytes are those of the numbers, and `unique6` is modelled as `unique`.
- Ip2net.Aggregate: requires fewer than 2^32 addresses, the range of the 32-bit counters.
- HashTable.Hash.Add: in-order insertion, sort, select, replacement by key and the bloom filter are not modelled; the counts are unbounded where the original has 32 bits; every element refers to the one table instead of keeping a pointer to it.
- HashTable.Hash.ExpandBuckets: what the statistics on the evenness of chains decide later (`noexpand`) is not specified, only that it changes no contents.
- QuicDefrag.QUICDefragCrypto: the call of the C library's `qsort` is modelled by the quicksort of `ip2net`, and the buffer is shorter than 2^62.
- TlsHello.ModSni: of the modifications only a given server name is modelled; random names, random bytes, the session id of the payload and padding to its length are not.
- TlsHello.TLSFindExt: hellos accepted although they are incomplete are not modelled.
- Timers.TimerPool.Run: instances are told apart by their numbers, which do not wrap; memory for the copy of a name is always there.
- DelayQueue.Track.TcpPacket: the probes, the search for track and profile, decryption and the verdict of the strategy are arbitrary inputs; the pool of tracks and its time limits are not modelled.
- Reassembly.RunRestores: for streams shorter than 2^32 - 2^20 bytes, whose places differ modulo 2^32, and segments of at most 2^20 bytes, more than a packet holds.
- Checksum.FixChecksum: for little-endian machines, and for segments whose length fits the pseudo header.
- Ip6ExtHdr.Reconstruct: Lua tables are sequences of records whose fields may be missing.
- Aes.SetEncryptionKey: words of 32 bits are four bytes, and the three unrolled loops for the key lengths are one loop over the words of a pass.

Parts of the program that are not modelled:

- The decryption of QUIC packets.
- Galois/counter mode, hashes, key derivation, and everything about secrecy.
- `ReasmResize`, the pool of tracks, host lists, the caches of addresses and host names.
- The signatures by which protocols are recognised.
- The stack discipline of the Lua interface, the Lua scripts, and the strategies themselves.
- Queues and sockets of the operating systems, capabilities, daemons, logs, files and command lines.
- Failing allocation of memory, except in the hash table and in the packet queue.
- Lists that are only copied or printed, filter matching and the merging of verdicts.
