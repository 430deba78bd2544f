# Verified models of the lwIP core and of the LAN865x receive paths

Dafny models, with proofs, of the data-structure and protocol core of the TCP/IP stack that this
repository bundles, and of the repository's two receive state machines on top of it.

| files | what they model |
|---|---|
| `HeapSpec`, `HeapLinks`, `Heap` | the first-fit heap of `mem.c`: block lists and client runs; chains of headers in bytes; the class `Arena` that rewrites those bytes |
| `Select` | the wake-up protocol of `lwip_select` and `event_callback` over any number of threads |
| `SocketUse` | the use count that delays the freeing of a socket slot |
| `Checksum` | the three checksum loops of `inet_chksum.c`, chains of pbufs, pseudo headers, partial sums |
| `Timers` | the timeout list under wrapping 32-bit time, `sys_check_timeouts`, and runs of the main loop |
| `PbufGraph`, `PbufSpec`, `PbufData`, `Pbuf` | reference-counted packet buffers: the graph and its counts; what the operations do to it; flat contents; the class `Pbufs` with the operations |
| `Recv` | `lwip_recv_tcp` with its mailbox, `lastdata`, the end of the stream, pending errors and the window credit |
| `DnsSpec`, `Dns`, `DnsName` | the DNS resolver's tables, timer, receive function and queue; the name encoder |
| `Tc6` | reassembly of Ethernet frames from TC6 slices |
| `Http` | the HTTP request collected over TCP segments and its request line |
| `Bytes` | octets, little-endian fields, rounding |

Code that updates fields or buffers in place is a class whose methods are proved against functions
and relations on values; protocols with several threads are state machines whose steps are the
regions the source runs under a lock. 8-, 16- and 32-bit widths are written out wherever a value can
wrap. The shipped options choose the C library's malloc (`src/lib/liblwip/cfg/lwipopts.h:84`) and
leave sockets and DNS off; those parts are modelled as the code stands in the other build branches.

## Where the code and its own assertions disagree

- `mem_trim` asserts that the block it cuts is not the last one. The assertion fails exactly when the
  last block is cut in two, which the code below it handles (`Heap.Arena.MemTrim`); it does when the
  whole heap is allocated and trimmed (`Heap.TrimWholeHeap`).
- `alloc_socket` takes the lock only to claim a slot, and writes its event fields after letting go of
  it. A thread can select the number of the slot in between, mark it and go
  to sleep; the write then makes it writable and tells nobody, and the assertion that nobody waits
  fails (`Select.MarkedSleeperIsNotTold`). In every run in which these writes find nobody waiting, no
  wake-up is lost (`Select.BlockedIsTold`); otherwise exactly those are that had not been given before
  (`Select.RaisingTellsNobody`).
- `sock_inc_used_locked` asserts that a slot whose free is pending is in use. After the deferred free
  the pending mark stays set on an empty slot (`SocketUse.PendingAssertionExact`).
- `inet_cksum_pseudo_partial_base` asserts that fewer than 0x7fff bytes are left; the exact condition
  is part of `Checksum.InetChksumPseudoPartial`, a datagram that fails it is in
  `Checksum.DeleteMeFails`.
- `pbuf_dechain` learns from an 8-bit count whether the tail is gone. It returns the address of a
  deallocated pbuf exactly if the number deallocated is a positive multiple of 256
  (`Pbuf.Pbufs.Dechain`), as for a chain of 257 (`Pbuf.DechainDangles`).
- `pbuf_add_header` guards the 16-bit `tot_len` but not `len`. Revealing and hiding a header is a round
  trip exactly if `len` does not wrap (`PbufSpec.GrowThenStrip`), which the guard gives whenever `len`
  is at most `tot_len`. A chain longer than 65535 bytes breaks that (`Pbuf.HeaderWraps`).
- A TC6 frame that finds no memory and is then cut off leaves an invalid mark without a buffer; the
  next frame is lost, the one after it is not (`Tc6.OneFrameLost`, `Tc6.SecondAttempt`).
- The name encoder of `dns_send` accepts labels that RFC 1035 does not allow; a query carries its name
  exactly if all labels have 1 to 63 bytes (`DnsName.RoundTrip`). A dot at the end of any name breaks it
  (`DnsName.TrailingDot`).
- `lwip_recv_tcp` returns the data it has when a fetch fails, and trusts that the next call gets the
  same error. It does if the message of `err_tcp` was posted (`Recv.Socket.RecvTcp`). If the mailbox was
  full, a receive that runs dry clears the pending error together with the data it returns, exactly
  when no message about the end stands in the mailbox, and the next call reports something else
  (`Recv.ResetIsLost`).
- `dns_enqueue` looks for the oldest answer by an 8-bit age. An answer asked for exactly 256 requests ago
  counts as new, and a request can be refused although it could be dropped (`Dns.OldAnswerIsKept`).
- What the HTTP server dispatches depends on how TCP cuts the stream, unless the header fixes the
  request line. The exact condition on the header is in `Http.CutsAgreeExactly`, a header that fails it
  in `Http.HeaderWithoutSpace`.

## Model

| member | source | states |
|---|---|---|
| `HeapSpec.InitialIsGood` | src/lib/liblwip/core/mem.c:514-545 | the heap that mem_init leaves is well formed and has no live block |
| `HeapSpec.RoundedFacts` | src/lib/liblwip/core/mem.c:844-856 | the rounded request is aligned and at least the minimum; a request is accepted exactly if it fits the heap, even when rounding wraps |
| `HeapSpec.AllocKeepsGood` | src/lib/liblwip/core/mem.c:886-927 | taking a fitting block keeps the heap well formed and aligned, adds exactly that live block and its size |
| `HeapSpec.AllocGrants` | src/lib/liblwip/core/mem.c:866-927 | mem_malloc by the live blocks alone: the block lies in the lowest gap between live blocks that is large enough, is exactly as long as asked, and longer only if what is left could not hold a header and the smallest block; nothing is granted exactly if no gap is large enough |
| `HeapSpec.GapsAreFreeBlocks` | src/lib/liblwip/core/mem.c:473-510 | the free blocks of a well-formed heap are exactly the gaps between live blocks |
| `HeapSpec.FreeKeepsGood` | src/lib/liblwip/core/mem.c:473-510 | releasing and coalescing keeps the heap well formed, removes exactly that live block and its size |
| `HeapSpec.TrimKeepsGood` | src/lib/liblwip/core/mem.c:698-820 | trimming keeps the heap well formed, shortens exactly that live block |
| `HeapSpec.TrimShortens` | src/lib/liblwip/core/mem.c:728-812 | where the trimmed block ends, by the live blocks alone: at the new size if what follows is free or holds a block of its own, otherwise where it ended before |
| `HeapSpec.LiveBlocksDisjoint` | src/lib/liblwip/core/mem.c:566-610 | live blocks do not overlap |
| `HeapSpec.LiveBlocksDetermineHeap` | src/lib/liblwip/core/mem.c:473-510 | two well-formed heaps with the same live blocks are the same list of blocks |
| `HeapSpec.MallocThenFreeRestores` | src/lib/liblwip/core/mem.c:490-508 | mem_malloc followed at once by mem_free gives back the very same block list |
| `HeapSpec.FreeOrderIrrelevant` | src/lib/liblwip/core/mem.c:473-510 | releasing two live blocks gives the same heap in either order |
| `HeapSpec.FirstFitIsLowest` | src/lib/liblwip/core/mem.c:870-887 | the scan finds the lowest block that fits, and fails exactly if none fits |
| `HeapSpec.SpaceIsConserved` | src/lib/liblwip/core/mem.c:566-610 | used and free bytes always add up to the heap |
| `HeapSpec.RunsStaySound` | src/lib/liblwip/core/mem.c:473-976 | every legal sequence of calls keeps the heap and the client's pointers in agreement |
| `HeapSpec.EveryRunIsSound` | src/lib/liblwip/core/mem.c:473-976 | after any legal sequence of malloc, free and trim the client owns exactly the live blocks, each payload is aligned, holds its requested bytes, wastes less than a header and the smallest block, and ends before the next header |
| `HeapLinks.RelinkedIsLinked` | src/lib/liblwip/core/mem.c:480-509 | rewriting the headers around a place replaces exactly those blocks of the linked list |
| `HeapLinks.SearchFromLowestFree` | src/lib/liblwip/core/mem.c:870-887 | a search that starts at lfree agrees with a full scan |
| `HeapLinks.NothingFitsNearTheEnd` | src/lib/liblwip/core/mem.c:870-871 | stopping the search when too few bytes are left misses no block |
| `HeapLinks.PlugIsFree` | src/lib/liblwip/core/mem.c:473-510 | clearing the flag and plugging both holes is releasing the block |
| `HeapLinks.AllocAndLowestFree` | src/lib/liblwip/core/mem.c:931-950 | where lfree has to go after a block is taken |
| `HeapLinks.ReleaseAndLowestFree` | src/lib/liblwip/core/mem.c:669-675 | where lfree has to go after a block is released |
| `HeapLinks.TrimAndLowestFree` | src/lib/liblwip/core/mem.c:753-805 | where lfree has to go after a block is trimmed |
| `Heap.Arena.constructor` | src/lib/liblwip/core/mem.c:514-545 | the bytes written by mem_init represent one free block |
| `Heap.Arena.Search` | src/lib/liblwip/core/mem.c:866-887 | the loop over header bytes finds what the full first-fit scan of the block list finds |
| `Heap.Arena.Take` | src/lib/liblwip/core/mem.c:886-927 | splitting or taking the block makes the bytes represent the allocated list; no other live payload byte changes |
| `Heap.Arena.AdjustLowestFree` | src/lib/liblwip/core/mem.c:931-950 | the loop leaves lfree at the lowest free block |
| `Heap.Arena.MemMalloc` | src/lib/liblwip/core/mem.c:830-976 | NULL exactly for zero, an oversized request, or when no gap between the live blocks is large enough; otherwise the new live block is the one the gaps determine, and the used counter grows by its size; lfree and all live payloads stay right |
| `Heap.Arena.PlugHoles` | src/lib/liblwip/core/mem.c:473-510 | merges with free neighbours on both sides and keeps lfree the lowest free block |
| `Heap.LiveIsReleasable` | src/lib/liblwip/core/mem.c:550-564 | the checks let every live pointer through |
| `Heap.ForeignIsRefused` | src/lib/liblwip/core/mem.c:622-667 | an unaligned pointer, one outside the heap, or one before which no used header stands is refused |
| `Heap.Arena.MemFree` | src/lib/liblwip/core/mem.c:616-686 | removes exactly the block of a live pointer from the live blocks and its size from the used counter, refuses and counts a pointer that fails the checks, changes no live payload; freeing the same pointer again at once is refused |
| `Heap.Arena.Write` | src/lib/liblwip/core/mem.c:822-829 | a client that writes inside its own live block leaves the heap well formed and every other live byte as it was, so that calls and writes may be mixed |
| `Heap.Arena.Shrink` | src/lib/liblwip/core/mem.c:728-812 | the three ways of trimming, by the block list; the prefix kept by the caller is unchanged; when the assertion on the next block holds |
| `Heap.Arena.MemTrim` | src/lib/liblwip/core/mem.c:698-820 | the live block has the new end that its neighbours determine, no other live block changes, the used counter shrinks by the difference; NULL exactly when the new size is larger than the block; the argument checks and error results of the whole call |
| `Heap.TrimWholeHeap` | src/lib/liblwip/core/mem.c:785-812 | in every heap with room for two blocks, allocating all of it and trimming makes the assertion on the next block fail |
| `Select.StepKeeps` | src/lib/liblwip/api/sockets.c:1963-2092 | every step of select, event callback, close and allocation keeps list and counts right, and loses no wake-up unless alloc_socket makes a slot writable while somebody waits for it |
| `Select.RunKeeps` | src/lib/liblwip/api/sockets.c:2483-2654 | so does every interleaving |
| `Select.BlockedIsTold` | src/lib/liblwip/api/sockets.c:2035-2092 | no lost wake-up: in every interleaving in which alloc_socket finds nobody waiting when it makes the slot writable, a thread blocked on a ready socket, marked or not, is signalled or still due to be signalled by a callback past its update |
| `Select.QuiescentMeansSignalled` | src/lib/liblwip/api/sockets.c:2483-2654 | with no callback under way, no such thread sleeps on |
| `Select.UpdateTells` | src/lib/liblwip/api/sockets.c:2522-2566 | skipping the waiter check for events that do not cross the ready edge misses nobody |
| `Select.ArrivalsAddUp` | src/lib/liblwip/api/sockets.c:2525-2536 | over every run rcvevent is the number of arrivals less the receipts since it was last cleared |
| `Select.LastWriteCounts` | src/lib/liblwip/api/sockets.c:2537-2545 | over every run sendevent is what was last written to it |
| `Select.ErrorsStay` | src/lib/liblwip/api/sockets.c:2546-2548 | over every run errevent is set exactly if an error came since it was last cleared |
| `Select.EventTells` | src/lib/liblwip/api/sockets.c:2522-2566 | in every guarded run an event makes its condition hold, and everybody blocked on it is signalled or due to be signalled |
| `Select.UpdateWalks` | src/lib/liblwip/api/sockets.c:2522-2566 | a callback goes through the list exactly if somebody waits for the socket and the event makes a condition hold that did not, or is an error |
| `Select.WalkTells` | src/lib/liblwip/api/sockets.c:2582-2654 | the list walk that lets go of the lock and restarts forgets nobody |
| `Select.SignalIsEarned` | src/lib/liblwip/api/sockets.c:2582-2654 | in every run a signalled thread waits for a condition that some socket of its sets had at some point of the run |
| `Select.ScanReports` | src/lib/liblwip/api/sockets.c:1834-1895 | a scan reports a descriptor exactly if a condition it is asked for holds, or unread data is left from an earlier receive |
| `Select.ScanEnds` | src/lib/liblwip/api/sockets.c:1994-2090 | the first scan ends the call exactly if it found something or must not wait, the second makes the thread sleep exactly if it found nothing; other descriptors are passed over |
| `Select.SleepsOnlyAfterScan` | src/lib/liblwip/api/sockets.c:2035-2092 | a thread sleeps only after a second scan that found nothing, and wakes only when signalled or out of time |
| `Select.NobodyIsStuck` | src/lib/liblwip/api/sockets.c:1963-2156 | in every run each thread can take a step, except exactly those blocked without a signal and without their time being over |
| `Select.SelectEnds` | src/lib/liblwip/api/sockets.c:1963-2156 | every step of a select call takes it nearer to its end, and no step of another thread takes it back |
| `Select.SelectIsBounded` | src/lib/liblwip/api/sockets.c:1963-2156 | in every run a select call returns or has taken no more steps of its own than a bound set by its largest descriptor |
| `Select.WaitingFits` | src/lib/liblwip/api/sockets.c:2044-2056 | in every run the 8-bit select_waiting does not overflow |
| `Select.UsesAddUp` | src/lib/liblwip/api/sockets.c:1905-1958 | in every run fd_used is the number of marks and uses of the slot that are in progress |
| `Select.ConnectionEnds` | src/lib/liblwip/api/sockets.c:377-402 | a connection and its unread data leave a slot in the step that ends the last use of a closed slot and in no other; a close that is not the last use leaves the slot marked until it is allocated anew |
| `Select.LastdataMoves` | src/lib/liblwip/api/sockets.c:501-570 | unread data appears only when a receive leaves it, and goes when a receive takes it, with the connection, or when the slot is initialised |
| `Select.ClosedIsGone` | src/lib/liblwip/api/sockets.c:377-611 | in every run a slot whose free is pending and that nobody uses has no connection |
| `Select.RaisingTellsNobody` | src/lib/liblwip/api/sockets.c:527-531 | after the unlocked write of sendevent no wake-up is lost exactly if everybody waiting to write had been told before; nobody waiting is enough, and a waiter nobody was about to signal sleeps on |
| `Select.MarkedSleeperIsNotTold` | src/lib/liblwip/api/sockets.c:501-538 | a run that reaches this with a descriptor the sleeper has marked, and in which the assertion fails |
| `Select.AllocAssertionExact` | src/lib/liblwip/api/sockets.c:523-526 | the assertion on select_waiting, evaluated after the lock is gone, holds exactly if no select call stands between counting the slot and uncounting it |
| `SocketUse.StepKeepsInv` | src/lib/liblwip/api/sockets.c:335-451 | every locked region keeps count, holders and connections in agreement |
| `SocketUse.EveryRunCounts` | src/lib/liblwip/api/sockets.c:335-451 | in every interleaving fd_used is the number of holders, and each connection is in exactly one slot or was handed to exactly one freer |
| `SocketUse.SlotStableWhileHeld` | src/lib/liblwip/api/sockets.c:548-611 | a held slot is neither freed nor reallocated; a connection leaves in the step that ends the last use |
| `SocketUse.SlotStableOverRun` | src/lib/liblwip/api/sockets.c:501-611 | the same over whole runs |
| `SocketUse.PendingAdmitsNobody` | src/lib/liblwip/api/sockets.c:335-370 | no new use starts once a free is pending, until the slot is allocated anew after the last use |
| `SocketUse.CloseFreesOrMarks` | src/lib/liblwip/api/sockets.c:548-611 | a close hands out the connection in that step exactly if no other use is in progress; otherwise it leaves the connection and marks the slot |
| `SocketUse.DoneFreesOnlyLast` | src/lib/liblwip/api/sockets.c:375-402 | ending a use hands out the connection exactly if it was the last and the slot is marked |
| `SocketUse.AllocThenClose` | src/lib/liblwip/api/sockets.c:501-611 | who allocates a slot may close it, and doing so at once hands out the connection and restores the slots up to a cleared mark |
| `SocketUse.GetThenDone` | src/lib/liblwip/api/sockets.c:335-402 | a use begins exactly if no free is pending, and ending it at once restores the state |
| `SocketUse.EveryCloseIsHonoured` | src/lib/liblwip/api/sockets.c:335-611 | after a close, in every interleaving, the connection has been handed out or waits for a use that was in progress at the close |
| `SocketUse.PendingAssertionExact` | src/lib/liblwip/api/sockets.c:357-369 | the assertion on a pending slot holds exactly unless the deferred free has completed |
| `SocketUse.PendingAssertionFails` | src/lib/liblwip/api/sockets.c:357-369 | a run in which it fails |
| `Checksum.ReferenceIsCanon` | src/lib/liblwip/core/inet_chksum.c:79-114 | the end-around-carry sum of section 1 of RFC 1071 is the canonical residue of the octets' weight modulo 0xffff |
| `Checksum.Chksum1` | src/lib/liblwip/core/inet_chksum.c:79-114 | version 1 is the RFC 1071 sum in host order |
| `Checksum.Chksum2` | src/lib/liblwip/core/inet_chksum.c:132-173 | so is version 2, at every address and up to 0x20000 octets without wrapping its accumulator |
| `Checksum.Chksum3` | src/lib/liblwip/core/inet_chksum.c:188-255 | so is version 3, at every address and for every length |
| `Checksum.InetChksum` | src/lib/liblwip/core/inet_chksum.c:554-558 | the complement of that sum |
| `Checksum.SumChain` | src/lib/liblwip/core/inet_chksum.c:259-280 | the chain loop accumulates the flat octets, odd and empty pieces included |
| `Checksum.InetChksumPbuf` | src/lib/liblwip/core/inet_chksum.c:567-588 | however the octets are cut into pbufs, the checksum is that of the flat octets |
| `Checksum.InetChksumPseudo` | src/lib/liblwip/core/inet_chksum.c:259-327 | the checksum of the pseudo header followed by the flat octets |
| `Checksum.SumPartial` | src/lib/liblwip/core/inet_chksum.c:406-429 | the partial loop covers exactly the first octets, even when it stops inside a pbuf |
| `Checksum.InetChksumPseudoPartial` | src/lib/liblwip/core/inet_chksum.c:398-473 | the same with the pseudo header, and exactly when the assertion in the loop holds |
| `Checksum.DeleteMeFails` | src/lib/liblwip/core/inet_chksum.c:406-429 | a datagram of 0x8000 octets with one octet in its first pbuf: the assertion fails and the checksum is right |
| `Timers.BeforeIsLess` | src/lib/liblwip/core/timeouts.c:73 | the wrapped comparison is the true one for times less than 2^31 ms apart |
| `Timers.BeforeExact` | src/lib/liblwip/core/timeouts.c:73 | for times less than 2^32 ms apart it is right exactly if they are at most 2^31 apart, 2^31 itself only if the first is the earlier |
| `Timers.InsertIsStable` | src/lib/liblwip/core/timeouts.c:179-221 | insertion keeps the queue sorted, adds exactly the entry, first-in-first-out among equal times |
| `Timers.InsertDue` | src/lib/liblwip/core/timeouts.c:179-221 | what an insertion does to the entries due |
| `Timers.OpsTail` | src/lib/liblwip/core/timeouts.c:179-341 | setting later timeouts and cancelling acts on what is not due exactly by the calls that are not spent on a due entry |
| `Timers.ApplyConserves` | src/lib/liblwip/core/timeouts.c:179-341 | over any calls, what was waiting or set is waiting or was cancelled, each entry once |
| `Timers.Timeouts.SysTimeoutAbs` | src/lib/liblwip/core/timeouts.c:179-221 | the loop on wrapped times inserts at the place that true time gives |
| `Timers.Timeouts.SysTimeout` | src/lib/liblwip/core/timeouts.c:289-306 | the entry is due that many ms after the clock read |
| `Timers.Timeouts.SysUntimeout` | src/lib/liblwip/core/timeouts.c:316-341 | removes exactly the first entry of the handler and gives its element back |
| `Timers.Timeouts.SleepTime` | src/lib/liblwip/core/timeouts.c:425-443 | exactly the time until the head is due |
| `Timers.Timeouts.Restart` | src/lib/liblwip/core/timeouts.c:403-420 | the head becomes due now, all distances stay |
| `Timers.Timeouts.TcpTimerNeeded` | src/lib/liblwip/core/timeouts.c:165-176 | sets the TCP timer one interval ahead exactly if there are connections, it is off and the pool has an element; it is on the list at most once |
| `Timers.Timeouts.CyclicTimer` | src/lib/liblwip/core/timeouts.c:232-261 | after what the handler sets and cancels, the timer is inserted one interval after the time it was due, or one interval from now if that has passed, exactly if the pool has an element left; nothing else changes in the queue |
| `Timers.Timeouts.TcpTimer` | src/lib/liblwip/core/timeouts.c:143-158 | the timer is on exactly if there are connections after tcp_tmr, and then back one interval ahead unless the pool is empty |
| `Timers.Timeouts.CheckTimeouts` | src/lib/liblwip/core/timeouts.c:351-396 | ends although handlers put themselves back; runs, in order, everything due at its start except what handlers cancel before its turn, then at most one more turn of cyclic timers; what was not due is changed by the calls of the handlers only; every cyclic timer that ran is back at its next turn unless more entries were set than the pool had; the list is then right for the next 2^31 ms |
| `Timers.Timeouts.Serve` | src/lib/liblwip/core/timeouts.c:343-396 | over any number of checks, across wraps of the 32-bit time, every timeout runs at the first check at or after its time, and every timeout ever set has run once, was cancelled or is still waiting |
| `Timers.AtMostTwiceInOrder` | src/lib/liblwip/core/timeouts.c:351-396 | each timer runs at most twice per call and handlers run in the order of their times, also when handlers cancel |
| `PbufGraph.ReleaseKeepsOk` | src/lib/liblwip/core/pbuf.c:745-795 | deallocating a node turns its link into a reference to be given up; all counts stay right and no cycle appears |
| `PbufGraph.CutKeepsOk` | src/lib/liblwip/core/pbuf.c:911-930 | cutting a link turns it into an outside reference |
| `PbufGraph.HookKeepsOk` | src/lib/liblwip/core/pbuf.c:868-875 | hooking a chain turns an outside reference into a link |
| `PbufGraph.ReleasedExactly` | src/lib/liblwip/core/pbuf.c:725-800 | pbuf_free deallocates exactly the maximal head run whose count reaches zero, and takes one reference from the next node |
| `PbufGraph.SurvivorsKeepChains` | src/lib/liblwip/core/pbuf.c:725-800 | a node that survives keeps its whole chain, contents and lengths |
| `PbufSpec.NoLeaks` | src/lib/liblwip/core/pbuf.c:690-800 | when the last outside reference is gone, no node is left and the pool is full |
| `PbufSpec.RetailTot` | src/lib/liblwip/core/pbuf.c:860-870 | exchanging a tail and correcting the 16-bit lengths before it keeps every tot_len right modulo 2^16 |
| `PbufSpec.GrownPayload` | src/lib/liblwip/core/pbuf.c:473-530 | revealing a header puts the bytes in front exactly if len does not wrap |
| `PbufSpec.GrowFailsExactly` | src/lib/liblwip/core/pbuf.c:473-510 | revealing a header is refused exactly if there is no room in front or the total would not fit 16 bits |
| `PbufSpec.GrowThenStrip` | src/lib/liblwip/core/pbuf.c:473-613 | revealing and hiding a header restores the pbuf, or hiding is refused, exactly by whether len wraps |
| `PbufSpec.StripThenGrow` | src/lib/liblwip/core/pbuf.c:473-613 | hiding and revealing restores the pbuf, or revealing is refused, exactly by tot_len |
| `Pbuf.Pbufs.Free` | src/lib/liblwip/core/pbuf.c:725-800 | gives up one reference; the graph's counts stay right and the 8-bit result is the run length modulo 256 |
| `Pbuf.Pbufs.Ref` | src/lib/liblwip/core/pbuf.c:829-838 | adds one reference |
| `Pbuf.Pbufs.Cat` | src/lib/liblwip/core/pbuf.c:853-875 | concatenates the contents, keeps the lengths right modulo 2^16, moves the caller's reference into the link, touches no other node |
| `Pbuf.Pbufs.ChainTo` | src/lib/liblwip/core/pbuf.c:895-901 | the same with the caller keeping a reference |
| `Pbuf.Pbufs.Dechain` | src/lib/liblwip/core/pbuf.c:911-940 | cuts off the tail; when the result is NULL, the live tail, or a deallocated address |
| `Pbuf.DechainDangles` | src/lib/liblwip/core/pbuf.c:911-940 | allocating a chain of 257 pbufs and cutting it returns a deallocated address |
| `Pbuf.Pbufs.AddHeader` | src/lib/liblwip/core/pbuf.c:473-530 | is refused exactly if there is no room in front or tot_len would wrap; keeps the graph in order |
| `Pbuf.Pbufs.RemoveHeader` | src/lib/liblwip/core/pbuf.c:582-613 | succeeds exactly if the node is long enough |
| `Pbuf.HeaderWraps` | src/lib/liblwip/core/pbuf.c:473-613 | behind a pbuf of 65535 bytes one more byte makes tot_len 0; revealing ten bytes then leaves a pbuf of nine and hiding them is refused |
| `Pbuf.Pbufs.FreeHeader` | src/lib/liblwip/core/pbuf.c:670-688 | drops exactly the prefix: gives up the pbufs that it fills, each of them needed for it, and strips the next; keeps lengths right and moves the reference to the rest |
| `Pbuf.Pbufs.Realloc` | src/lib/liblwip/core/pbuf.c:401-459 | leaves exactly the prefix with right lengths even when the old ones had wrapped, in the shortest front of the chain that holds it, cuts the block of a heap pbuf that became shorter, frees the tail, touches no node outside the chain |
| `Pbuf.Pbufs.AllocPool` | src/lib/liblwip/core/pbuf.c:235-272 | a fresh chain of exactly the requested length, the header space in front of its first pbuf and none in the others, all but the last filled; or every element given back, and exactly when |
| `PbufSpec.AllocatedHasRoom` | src/lib/liblwip/core/pbuf.c:235-272 | on a chain allocated like this, revealing a header that the header space holds succeeds if the total fits 16 bits |
| `Pbuf.Pbufs.AllocRam` | src/lib/liblwip/core/pbuf.c:273-297 | one pbuf of exactly the length behind the header space, NULL exactly if the heap has no block or the size does not fit; every other pbuf is unchanged |
| `PbufSpec.SizeWrapsExactly` | src/lib/liblwip/core/pbuf.c:274-283 | the two comparisons with the rounded length notice exactly the sizes that do not fit mem_size_t |
| `Pbuf.Pbufs.CopyPartial` | src/lib/liblwip/core/pbuf.c:1060-1091 | copies exactly the slice of the flat contents and returns its length |
| `Pbuf.Pbufs.Skip` | src/lib/liblwip/core/pbuf.c:1186-1200 | finds the node and offset of a byte, NULL exactly if the chain is too short |
| `Pbuf.Pbufs.Take` | src/lib/liblwip/core/pbuf.c:1230-1260 | lays the data over the start of the contents and changes no other byte |
| `Pbuf.Pbufs.TakeAt` | src/lib/liblwip/core/pbuf.c:1274-1296 | lays the data over the contents at the offset, or changes nothing; it succeeds exactly if the pbuf that holds the offset counts enough bytes from there, below 64K exactly if the data fits the contents |
| `PbufData.TakeThenCopy` | src/lib/liblwip/core/pbuf.c:1061-1296 | copying back what was taken returns the data; all other bytes are unchanged |
| `Pbuf.Pbufs.CopyPartialPbuf` | src/lib/liblwip/core/pbuf.c:988-1046 | between two differently cut chains, lays the source's prefix over the target at the offset; ERR_ARG exactly for the range checks; no ERR_VAL unless a node looks like the end of a packet |
| `PbufData.NoQueueExactly` | src/lib/liblwip/core/pbuf.c:1030-1042 | below 64K no pbuf but the last looks like the end of a packet exactly if there is only one or the last is not empty |
| `Pbuf.Pbufs.Split64k` | src/lib/liblwip/core/pbuf.c:1147-1181 | front and rest concatenate to the original, the front is the longest of at most 65535 bytes and its lengths are exact whatever has wrapped; the rest gets a reference and the FIN flag |
| `PbufData.SplitLengths` | src/lib/liblwip/core/pbuf.c:1168-1173 | taking the rest's length off wrapped lengths leaves exact ones |
| `Recv.Socket.Arrive` | src/lib/liblwip/api/api_msg.c:293-343 | data and the end are posted in order, nothing behind the end or without the control block |
| `Recv.Socket.Fail` | src/lib/liblwip/api/api_msg.c:432-474 | the control block is gone, the error is pending, and its message is behind everything else if there was room |
| `Recv.Socket.Fetch` | src/lib/liblwip/api/api_lib.c:578-772 | takes messages in order and reports the end only when all data has been consumed, setting it aside otherwise; with nothing to take it reports the pending error; without one, and with no end, exactly whether it may wait decides between a timeout and would-block; what it reports once err_tcp has run |
| `Recv.Socket.DoRecv` | src/lib/liblwip/api/api_msg.c:1592-1608 | the 16-bit credits add up to the length |
| `Recv.Socket.RecvTcp` | src/lib/liblwip/api/sockets.c:917-1018 | consumed bytes followed by lastdata and the mailbox are always the posted bytes; data that is ready is returned as far as it fits; a call that stops short has consumed everything posted; a peek returns the front of lastdata and consumes nothing; the credit is the bytes consumed; a call without data, end or failure fails with the error that its flags determine; 0 only at the end of the stream, and the end is not lost; an error whose message was posted is what the next call without data reports, and exactly when a call with data swallows one that was not |
| `Recv.ResetBehindEnd` | src/lib/liblwip/api/api_lib.c:743-766 | data, the end and a reset: the data is returned, then the reset instead of the end |
| `Recv.ResetIsLost` | src/lib/liblwip/api/sockets.c:948-966 | a reset that finds the mailbox full is not reported after the data |
| `DnsSpec.ExactlyOnce` | src/lib/liblwip/core/dns.c:942-995 | every ticket is waiting in one slot or has been called back once |
| `DnsSpec.TickDown` | src/lib/liblwip/core/dns.c:1070-1106 | each timer tick takes an asking entry exactly one step down servers, retries and timer |
| `DnsSpec.AsksToTheEnd` | src/lib/liblwip/core/dns.c:1070-1106 | with all servers configured and silent, an entry asks for exactly the ticks it has left |
| `DnsSpec.RetriesOnTime` | src/lib/liblwip/core/dns.c:1070-1106 | without answers the retries of an entry come after 1, 1, 2, 3 ... ticks |
| `DnsSpec.ServerGivenUp` | src/lib/liblwip/core/dns.c:1070-1106 | after the last of them the entry goes on with the next server if one is configured, and ends otherwise |
| `Dns.AnswerKept` | src/lib/liblwip/core/dns.c:1107-1163 | an answer is kept for exactly the ticks of the smaller of its time to live and DNS_MAX_TTL, then the entry is free |
| `DnsSpec.IdleNone` | src/lib/liblwip/core/dns.c:942-995 | no request slot points to an unused or answered entry |
| `DnsSpec.CalledInTime` | src/lib/liblwip/core/dns.c:1047-1131 | over any run, a waiting request is called back before the ticks its entry had left have passed |
| `DnsSpec.CalledWithinLongest` | src/lib/liblwip/core/dns.c:1047-1131 | every request is called back within the ticks of all servers and retries, whatever packets and calls come in between |
| `Dns.Resolver.CallFound` | src/lib/liblwip/core/dns.c:942-995 | calls back and drops exactly the requests of the entry, with or without an address |
| `Dns.Resolver.CreateTxid` | src/lib/liblwip/core/dns.c:1000-1018 | ends, with an id no asking entry uses |
| `Dns.Resolver.Send` | src/lib/liblwip/core/dns.c:748-772 | exactly without a server the entry ends, with its callbacks made; otherwise nothing changes |
| `Dns.Resolver.CheckEntry` | src/lib/liblwip/core/dns.c:1047-1118 | the entry after a check, field by field; ids stay distinct, timers run, requests stay on asking entries; its callbacks are made exactly when it stops asking |
| `Dns.Resolver.Tick` | src/lib/liblwip/core/dns.c:1124-1131 | every entry takes its step; every waiting request is one tick nearer to its callback, or it is made |
| `Dns.Resolver.CorrectResponse` | src/lib/liblwip/core/dns.c:1137-1163 | keeps the answer for its capped time to live and makes the callbacks |
| `Dns.Resolver.Receive` | src/lib/liblwip/core/dns.c:1170-1363 | by the fields of the reply and the old table alone: exactly when it is ignored, sends the entry to the next server, drops it, or fills it, and the entry that results; no packet makes a request wait longer or loses it; addresses go out exactly with an accepted answer |
| `Dns.Resolver.Enqueue` | src/lib/liblwip/core/dns.c:1375-1503 | ERR_INPROGRESS gives a ticket that waits for an entry asking for that name, or was called back at once; the entry taken is unused, or the oldest answer; ERR_MEM exactly when, and it changes nothing; nobody else is touched |
| `Dns.Resolver.FindEntry` | src/lib/liblwip/core/dns.c:1414-1444 | an unused entry, else the oldest answer; which answers an 8-bit age overlooks |
| `Dns.AgeCounts` | src/lib/liblwip/core/dns.c:1424-1430 | after k requests an entry is k old, except that every 256 requests it counts as new |
| `Dns.OldAnswerIsKept` | src/lib/liblwip/core/dns.c:1414-1444 | a run after which a table with a finished answer refuses a request |
| `DnsName.RoundTrip` | src/lib/liblwip/core/dns.c:791-809 | decoding by section 3.1 of RFC 1035 gives back the labels exactly if each has 1 to 63 bytes |
| `DnsName.NameRoundTrip` | src/lib/liblwip/core/dns.c:791-809 | the same for host names |
| `DnsName.TrailingDot` | src/lib/liblwip/core/dns.c:791-809 | a name with a dot behind it is encoded with one zero too many and reads as the name without the dot |
| `DnsName.Query.PutName` | src/lib/liblwip/core/dns.c:774-809 | the loop writes exactly the encoded name and uses exactly the room asked for |
| `DnsName.QueryWithDot` | src/lib/liblwip/core/dns.c:774-809 | the query for "a." is the bytes 1, 97, 0, 0, which read as "a" |
| `Tc6.EveryRunIsOk` | src/microchip/TC6_Arduino_10BASE_T1S.cpp:380-491 | over any callbacks each pbuf allocated has been freed exactly once, handed over exactly once or is the one held, and no other has |
| `Tc6.FirstAttempt` | src/microchip/TC6_Arduino_10BASE_T1S.cpp:380-491 | after any interruption a frame of acceptable length that finds memory is delivered as sent, exactly unless an invalid mark is left without a pbuf |
| `Tc6.SecondAttempt` | src/microchip/TC6_Arduino_10BASE_T1S.cpp:387-399 | the second attempt always gets through |
| `Tc6.PacketDelivers` | src/microchip/TC6_Arduino_10BASE_T1S.cpp:429-491 | the end of a frame delivers the bytes of the pbuf exactly if the frame is reported good, no slice was refused, the slices have the reported length together and it is at least 42; otherwise the pbuf is freed and nothing is delivered |
| `Tc6.FrameFate` | src/microchip/TC6_Arduino_10BASE_T1S.cpp:380-491 | every frame, after whatever went before, is delivered once as sent exactly if it has 42 to 1536 bytes, finds memory in one piece, and no invalid mark is left without a pbuf |
| `Tc6.OneFrameLost` | src/microchip/TC6_Arduino_10BASE_T1S.cpp:409-414 | a run after which one frame is lost |
| `Tc6.Receiver.OnRxSlice` | src/microchip/TC6_Arduino_10BASE_T1S.cpp:380-427 | the callback does what the state function says and keeps the ownership invariant |
| `Tc6.Receiver.OnRxPacket` | src/microchip/TC6_Arduino_10BASE_T1S.cpp:429-491 | the same at the end of a frame |
| `Http.AtMostOnce` | src/Arduino_10BASE_T1S_HTTP.cpp:302-366 | at most one request is dispatched per connection, none before the end of the header |
| `Http.ParsePrefix` | src/Arduino_10BASE_T1S_HTTP.cpp:323-358 | text behind the second space or a NUL plays no part in the request line |
| `Http.TwoSpacesStop` | src/Arduino_10BASE_T1S_HTTP.cpp:323-341 | two spaces without a NUL before them are enough for that |
| `Http.SegmentsDoNotMatter` | src/Arduino_10BASE_T1S_HTTP.cpp:302-366 | when the header ends within 511 bytes and text behind it does not change the request line, the dispatched method, path and query are those of the header alone, however the stream is cut |
| `Http.RequestIsDispatched` | src/Arduino_10BASE_T1S_HTTP.cpp:302-366 | a request line of a method, a path and perhaps a query, in a header that an empty line ends within 511 bytes, dispatches exactly these words, cut to 7, 127 and 63 bytes, whatever follows and however the stream is cut |
| `Http.EndIsBlankLine` | src/Arduino_10BASE_T1S_HTTP.cpp:312-318 | the header ends exactly with CR LF CR LF or LF LF |
| `Http.NothingBeforeBlankLine` | src/Arduino_10BASE_T1S_HTTP.cpp:302-320 | nothing is dispatched before that |
| `Http.SameDispatch` | src/Arduino_10BASE_T1S_HTTP.cpp:302-366 | two ways of cutting a stream dispatch the same |
| `Http.CutsAgreeExactly` | src/Arduino_10BASE_T1S_HTTP.cpp:302-366 | all ways of cutting all streams that start with a header dispatch the same exactly if the header fills the buffer, stops the parser, or has a space and a query field that is full, or a full path field with one byte of room left |
| `Http.SettledExactly` | src/Arduino_10BASE_T1S_HTTP.cpp:323-358 | the same condition says exactly when no text behind the header changes the request line |
| `Http.HeaderWithoutSpace` | src/Arduino_10BASE_T1S_HTTP.cpp:323-328 | the header "G", newline, newline without a space, for which the way of cutting matters |
| `Http.Connection.MemFind` | src/Arduino_10BASE_T1S_HTTP.cpp:27-36 | the first occurrence, or none exactly if there is none or the needle is empty |
| `Http.Connection.OnRecv` | src/Arduino_10BASE_T1S_HTTP.cpp:272-369 | the callback on the fixed buffer does what the connection function says |

## Left out

- Guard bytes around heap blocks, the free-from-interrupt restart loop of `mem_malloc`, statistics, and the pool and C-library variants of `mem.c`.
- Heap.Arena.MemFree: a pointer that is not live although the bytes before it pass every check is excluded, since the source documents no outcome for it.
- Heap.Arena.MemTrim: a pointer into the heap that is not live is excluded, since the source asks for one from `mem_malloc` and checks the range only.
- `lwip_poll`, the 16-bit wrap of `rcvevent`, the 8-bit wrap of `fd_used` and the wrap of `select_cb_ctr`, timeouts of a blocked select, and wake-ups by data another thread leaves in `lastdata`; what the last scan of select finds does not enter its model.
- Timers.Timeouts.CheckTimeouts: handlers set timeouts with positive delays only; a handler that sets itself with delay 0 can keep the source's loop from ending. They cancel timeouts of the application only, since the handlers of the cyclic timers and of TCP are private to `timeouts.c`.
- IPv6 and multicast pseudo headers, and copying with checksum.
- Custom pbufs, PBUF_REF and PBUF_ROM (memory of the caller shared with a pbuf), `pbuf_coalesce`, `pbuf_clone`, and the search and compare helpers.
- Pbuf.Pbufs.Realloc: the pbuf loses the bytes that `mem_trim` cuts off; that the heap gets them back is stated in `Heap`.
- Pbuf.Pbufs.CopyPartialPbuf: asks that the offset lies in the first target pbuf, because the source's size_t subtraction goes wrong otherwise, and that the chains share no node; for ERR_VAL it does not say how much was copied.
- Recv.Socket.RecvTcp: a pbuf is its flat contents; that the pbuf calls act on them as prefixes is proved in `Pbuf`. The overflow branch at `SSIZE_MAX` is not written out, since the bytes received and left never exceed it together. Looking into an empty mailbox and reading the pending error is one step. Closing by another thread, and reading the pending error with `getsockopt`, are left out.
- Dns.Resolver.Receive: parsing of the reply is left out; a reply is any combination of what the resolver reads from it, and name comparison is a flag of the reply.
- Dns.Resolver.Send: the UDP packet and its result, which the resolver ignores, are left out; the name part is in `DnsName`.
- Dns.Resolver.CreateTxid: random ids are left out, ids come from the counter, so that the search ends.
- `dns_gethostbyname` in front of the queue (address literals, finished answers), DNS local host lists, multicast DNS, the fallback between IPv4 and IPv6, random source ports, and callbacks that enter the resolver again.
- Tc6.Receiver.OnRxPacket: the stack's `input` always takes the frame over, as the source says of `ethernet_input`.
- Http.Connection.OnRecv: closing by the peer, errors and the poll timeout only end the connection; handlers and responses are left out.
- The TC6 library, SPI and register access, `tcp.c`, `udp.c`, `etharp.c`, the forwarding layers, and start-up code.
