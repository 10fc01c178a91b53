# Guest memory, XMA packets, and the small structures under them

A Dafny model of the parts of the Xenia emulator in which most can go wrong, with proofs about it.
`dafny verify dfyconfig.toml` checks the whole project.

**Guest memory** (`src/xenia/memory.cc`). `GuestHeap.BaseHeap` is the page-table allocator with its
loops; `PageSearch` holds its two scans, `PageTable` and `HeapSpec` say what each operation does to
the table as a value, `HeapBytes` and `RangeBytes` what it does to the bytes that it is given, and
`HeapRuns` and `HostRuns` prove the invariants of table and host pages over whole runs.
`PhysicalMemory.PhysicalHeap` is one of the three views of physical memory, with the bits that watch
for guest writes. `WriteWatch` keeps these bits in step with the protection of the host pages,
`UnwatchRange` does the arithmetic of the range that is given up, `WatchBytes` says which pages that
are, `Coupling` ties the views to the parent heap they share, `ViewRuns` shows when pinning in the
view can fail, `ViewCalls` what placement at a fixed address does to both, `MachineRuns` puts the
parts together over runs, `ViewSteps` shows which calls on the views are steps of such a run,
`WatchSteps` what they do to the watch bits, and `Startup` where runs begin. `HeapImage` saves and
restores heaps. Operations under the global critical region are atomic. Host protection is an array
of one access per host page; whether the host agrees to a call is a parameter.

**XMA audio** (`src/xenia/apu`). `BitStreams` is the bit cursor, `XmaPackets` the chain of frames in
a packet, `XmaWalkers` the five walkers over it, `XmaCursor` the reading position that `Decode`
moves through two input buffers, `XmaContext` the decoder itself with its output ring
(`RingBuffers`), `XmaLaws` what a call does in the bits of the input buffers, and `XmaLoops` runs
with loops. The audio library is a parameter: any function from the bytes of one frame to samples.

**Small structures** (`src/xenia/base`). `LogRing` and `Logger`: the log ring with any number of
producers. `BitRange` and `BitMap`: bits in 64-bit words (`Words`), the latter with any number of
threads. `Arena`: blocks in a list of chunks. `TomlStrings` and `Cvar`: configuration values as TOML
strings, where `TomlStrings` is the reader that section "String" of TOML v1.0.0 describes.
`LittleEndians`, `Hexadecimal` and `Arith` hold number formats and 32-bit arithmetic.

Where a property fails for some inputs, the model keeps the code as it is, and the lemma says for
which inputs exactly it holds. The main such places, and those where code and comments differ:

- `BaseHeap::AllocFixed` (memory.cc:930) compares with `>` and so accepts a range that ends one page
  behind the table; the model answers such calls with `OutOfBounds`.
- `BaseHeap::AllocRange` tests the page count before it rounds the upper end down (memory.cc:1027 and
  1042): a request longer than the rounded range makes the first base wrap.
- A size within one page of 4 GB rounds to no page: `AllocRange` then succeeds without taking any
  (`HeapSpec.NoPageNothingTaken`).
- Fixed placement may cut the region of a neighbour (`HeapRuns.FixedStepExactly`), and a release of
  the free page 0 wraps (`HeapRuns.StepExactly`).
- The comment at memory.cc:1540 says that the pin cannot fail. It fails when the window, rounded up to
  the alignment, ends behind the view; and when it succeeds with a rounded size that is no multiple of
  the alignment, the view holds more than the parent gave (`ViewRuns.PinExactly`). The search over a
  whole view can reach past it only for the one at 0xE0000000 and alignments between one page and 4 MB
  (`ViewRuns.WholeViewEInsideExactly`, `ViewRuns.ViewELosesPages`); `Memory::Initialize` reserves the
  physical pages from 0x1FCB0000 on (`Startup.InitializeSound`), so that windows behind the view are
  free only once that region has been released.
- Placement at a fixed address chooses its allocation type in each heap by itself: a commit through a
  view may take pages that another view holds (`Coupling.FixedKeepsExactly`,
  `ViewCalls.CommitTakesPages`).
- `PhysicalHeap::Protect` takes watch bits away before it may be refused
  (`WriteWatch.RefusedProtectExactly`), placement over watched pages leaves them
  (`WriteWatch.AllocViewExactly`), and release through a wrong view takes another view's pages
  (`ViewSteps.ReleaseCallExactly`).
- `BaseHeap::Restore` and `Reset` leave the cached count of free pages alone, so that it is right
  afterwards exactly when as many pages are free as before (`HeapImage.HeapMemory.Restore`,
  `HeapImage.HeapMemory.Reset`).
- The new XMA decoder gives up a whole buffer when no frame header fits at the first offset of its first
  packet, or when the header there is zero or the marker 0x7FFF
  (`XmaCursor.BufferDroppedExactly`), spins when only the other buffer is valid
  (`XmaCursor.NoProgressExactly`), never ends its walk over a packet with a frame of size zero behind a
  set bit (`XmaWalkers.WalkEndsExactly`), and leaves the stream behind a packet without frames that
  skips one with frames, because it tries the packets one by one (`XmaCursor.RouteInStreamExactly`).
- `BitStream::Copy` mirrors the masks of the first and of the last byte of its destination, and so does
  not merge into what was there (`BitStreams.CopyMergesExactly`, `BitStreams.CopyDoesNotMerge`); a
  destination of zeros comes to no harm (`BitStreams.CopiedIntoZero`).
- The logger looks for the last character of a line in front of its ring when the text ends exactly at
  the end of the ring (`LogRing.ReadsBackExactly`).
- `bit_range::SetRange` fills blocks in between with `CHAR_MAX` (`BitRange.SetRangeExactly`).
- `EscapeMultilineBasicString` lets a dropped carriage return join quotes
  (`Cvar.EscapeStringExactly`), and `EscapeString` never takes its literal forms, because its set of
  escape characters begins with a NUL and is empty.

## Model

| member | source | states |
|---|---|---|
| PageSearch.SearchTopDown | src/xenia/memory.cc:1044-1080 | The downward scan returns the greatest stride-aligned base whose whole window is free inside the range, and fails only when no such window exists; no window is lost by going on below the page that blocks it. It leaves the table only when the request is longer than the rounded upper end. |
| PageSearch.SearchBottomUp | src/xenia/memory.cc:1081-1120 | The upward scan returns the least such base when it starts at a multiple of the stride. From any other page it goes on by whole strides while it meets taken pages, and keeps to aligned bases once it is blocked behind a free page, so that it may pass a window by; and it leaves the table exactly when the request is longer than the rounded upper end and no window is met before. |
| HeapSpec.AlignedBaseStartsAligned | src/xenia/memory.cc:1015-1020 | In every heap whose first address is aligned the upward scan starts at a multiple of its stride, so that trying an unaligned lower end first never matters. |
| HeapSpec.SearchIsBest | src/xenia/memory.cc:1027-1120 | A request for which the rounded range has room, with an upward scan that starts aligned, gets the best free window there is, or a refusal when there is none. |
| Arith.PageCountCoversExactly | src/xenia/memory.cc:1016-1017 | The page count of a request covers its bytes exactly when rounding up to pages does not wrap on 32 bits; the sizes that escape, those within one page of 4 GB, are given no page at all. |
| PageTable.RegionsDisjoint | src/xenia/memory.h:82-99 | In a consistent page table the regions of any two pages are the same or share no page. |
| PageTable.AllocatedKeepsExactly | src/xenia/memory.cc:981-996 | Writing the entries of a reservation keeps every other region whole exactly when neither end of the range cuts a region in two, for any earlier contents of the range. |
| PageTable.CommitKeeps | src/xenia/memory.cc:981-996 | Committing pages that are all reserved moves no region. |
| PageTable.ReleasedKeeps | src/xenia/memory.cc:1246-1262 | Releasing the region that starts at a page frees its pages, all of which were taken, and leaves every other region whole. |
| GuestHeap.BaseHeap.AllocFixed | src/xenia/memory.cc:920-998 | Both loops together do what fixed placement should: refuse a reserve of a taken page, turn a commit of unreserved pages into a reservation, otherwise give every page of the range the same region, and count down exactly the pages that were free. |
| HostRuns.FixedHost | src/xenia/memory.cc:920-998 | When it succeeds every field of the entries of its range is set, the region only by a reservation, and exactly the host pages under the range get the access of the protection, unless it only reserves. |
| HeapSpec.EndsBehindExactly | src/xenia/memory.cc:929-933 | A range gets past the test for its end although it leaves the table exactly when it ends one page behind it. |
| GuestHeap.BaseHeap.AllocRange | src/xenia/memory.cc:1009-1157 | Places the window that the scan returns, for every table and every request, in either direction and from any start; refuses when the page count does not fit; answers out of bounds where the scan leaves the table. |
| HostRuns.RangeHost | src/xenia/memory.cc:1009-1157 | A placement in a range sets every field of the entries of its window and of no others, and gives exactly the host pages under the window the access of the protection, unless it only reserves. |
| RangeBytes.ScanExactly | src/xenia/memory.cc:1015-1042 | In bytes: the search begins with the page that does not end in front of the lower address, rounded up to the alignment, and ends with the one that begins at or before the upper address, rounded up as well; it goes on by the alignment. |
| RangeBytes.RangeInBytes | src/xenia/memory.cc:1009-1157 | The window that is given lies between these addresses and begins at a multiple of the alignment from the heap base on. |
| HeapSpec.NoPageNothingTaken | src/xenia/memory.cc:1016-1157 | A size that rounds to no page takes no page, though the call may succeed with the address of a free one. |
| PageSearch.SearchNoPage | src/xenia/memory.cc:1044-1120 | The two scans for a page count of zero, where the last page number wraps at page 0: any other free base serves at once, and page 0 sends the scan behind, or back to, the first taken page. |
| GuestHeap.BaseHeap.Decommit | src/xenia/memory.cc:1177-1206 | From the bytes given: as many bytes from the start of the page of the address on are meant; exactly the pages with one of them lose their commit bit, and nothing else of any entry changes. Behind the heap the last page is meant; a size that wraps to no page means all pages from the first one, and none from any other. |
| HeapBytes.DecommitReachesExactly | src/xenia/memory.cc:1177-1206 | These are all pages that the bytes from the address on touch exactly when rounding the size up to pages reaches the last one; for the address of a page it always does. |
| HeapBytes.DecommittedIsRefused | src/xenia/memory.cc:1267-1355 | A protection change of bytes that touch a decommitted page is refused. |
| HostRuns.UncommittedStays | src/xenia/memory.cc:1177-1355 | A page that is not committed stays so over release, decommit and protection changes. |
| GuestHeap.BaseHeap.Release | src/xenia/memory.cc:1208-1265 | Frees the region that starts at the address, hands its pages back to the count, and refuses an address inside a region; the free page 0 of a heap above address 0 is out of bounds. |
| GuestHeap.BaseHeap.Protect | src/xenia/memory.cc:1267-1355 | From the bytes given: agrees exactly when they lie in the heap, all pages that they touch are committed and of one region, and the host agrees; then exactly these pages have the new protection and nothing else of any entry changes. |
| GuestHeap.BaseHeap.QueryRegionInfo | src/xenia/memory.cc:1357-1412 | Reports the longest run of pages with the attributes of the first page, which never leaves the region of that page. |
| HeapRuns.FixedStepExactly | src/xenia/memory.cc:920-998 | Fixed placement keeps the table consistent exactly when it does not cut a region; the cached count stays right in any case. |
| HeapRuns.RangeStep | src/xenia/memory.cc:1009-1157 | A reservation in a range takes a window that was free, at the best place there is, keeps the invariant and lowers the count by the size of the window; it fails for want of pages only when no window fits. |
| HeapRuns.ReleaseStep | src/xenia/memory.cc:1208-1265 | Release keeps the invariant, frees the entries of exactly one region and hands their number back to the count. |
| HeapRuns.ProtectStep | src/xenia/memory.cc:1267-1355 | Protect keeps the invariant, whether it succeeds or not. |
| HeapRuns.StepExactly | src/xenia/memory.cc:920-1355 | A call of any kind keeps the invariant and stays inside the table exactly when it meets a condition that the caller can check first, or is refused. |
| HeapRuns.EveryRunKeeps | src/xenia/memory.cc:920-1355 | After every run of safe calls the page table is consistent and `unreserved_page_count_` is the number of free pages. |
| HeapRuns.EveryRunDisjoint | src/xenia/memory.cc:920-1355 | After every such run no page lies in two regions. |
| HostRuns.EveryRunHostRight | src/xenia/memory.cc:920-1355 | After every such run of a heap that nothing watches, the host page of every committed page is read-write when its entry allows reading and writing, read-only when it allows reading alone, and without access otherwise. |
| HeapRuns.ReleaseUndoesPlacement | src/xenia/memory.cc:1122-1157 | Releasing a region placed in a free window gives back the table and the count as they were. |
| WriteWatch.FlushRun | src/xenia/memory.cc:1818-1841 | Changing the protection of whole runs of host pages at once leaves every host page as one call for each page would. |
| WriteWatch.EnableKeeps | src/xenia/memory.cc:1749-1842 | Starting to watch keeps host protection and bits in step. |
| WriteWatch.TriggerKeeps | src/xenia/memory.cc:1959-2012 | Unwatching any range keeps them in step. |
| WriteWatch.DecommitViewKeeps | src/xenia/memory.cc:1637-1650 | Decommitting keeps them in step, because the bits of the range are taken away first. |
| WriteWatch.ReleaseViewKeeps | src/xenia/memory.cc:1652-1676 | Releasing a region leaves no freed page with a bit. |
| WriteWatch.ProtectViewExactly | src/xenia/memory.cc:1678-1695 | A protection change that succeeds keeps them in step exactly when no page that becomes writable keeps its bit; for whole guest pages that is always so. |
| WriteWatch.RefusedProtectExactly | src/xenia/memory.cc:1678-1695 | A protection change that is refused has taken the bits already: the view is out of step exactly when the request was for writing and a page of the range was being watched for a guest that may write it. |
| WriteWatch.AllocViewExactly | src/xenia/memory.cc:1512-1628 | Placement keeps them in step exactly when it does not commit, for writing, a page that is still being watched. |
| MachineRuns.WatchingIsSafe | src/xenia/memory.cc:1637-2014 | Over every allowed run of watch, trigger, protect, decommit, release and fresh placement: the host page of a committed page that the guest may write is writable exactly when its bit is clear, and free pages carry no bit. |
| MachineRuns.RunKeeps | src/xenia/memory.cc:1637-2014 | The invariant behind that, for whole runs. |
| Words.TestBlockBit | src/xenia/memory.cc:1881-1893 | The masks at both ends of the 64-bit block test leave exactly the pages of the range. |
| Words.ClearBlockBit | src/xenia/memory.cc:2001-2012 | The masks of the clearing loop clear exactly the pages of the range. |
| UnwatchRange.ClipIsIntersection | src/xenia/memory.cc:1706-1721 | Clipping a physical range to a view keeps exactly the bytes that lie in both. |
| UnwatchRange.WidenedContains | src/xenia/memory.cc:1904-1958 | Whatever the callbacks answer, the range finally unwatched contains the requested pages, is in order, stays inside the heap and inside the 4 MB blocks that the request touches. |
| WatchBytes.WidenedExactly | src/xenia/memory.cc:1904-1958 | The range finally unwatched is the requested pages, the pages in front of them in the same 4 MB block that do not end in front of any answer, and the pages behind them in the same block that do not begin behind any answer; an empty answer counts as one byte. |
| PhysicalMemory.PhysicalHeap.EnableAccessCallbacksInner | src/xenia/memory.cc:1749-1842 | The run-coalescing loop sets the bit of, and makes read-only, exactly the pages in the range that the guest may write and that are not watched yet. |
| PhysicalMemory.PhysicalHeap.EnableAccessCallbacks | src/xenia/memory.cc:1697-1747 | From a physical byte range: exactly the host pages with a byte in the range and in the view which the guest may write get a bit, and become read-only if they had none. |
| PhysicalMemory.PhysicalHeap.TriggerCallbacks | src/xenia/memory.cc:1844-2014 | From a byte range: does nothing when no page with one of the bytes is watched. Otherwise exactly these pages, and around them those that every callback allows, lose their bit, and those of them that were watched for a guest that may write become writable. |
| Coupling.FreeBelowIsFreeAbove | src/xenia/memory.cc:1533-1549 | What the comment "Shouldn't be possible for it to be allocated already" claims: where the parent is free, so are the pages of every view above it. |
| Coupling.PlacedKeepsExactly | src/xenia/memory.cc:1553-1628 | One reservation in a view and in the parent keeps views and parent coupled exactly when it cuts no region of the parent and takes no page that another view holds. |
| Coupling.FixedKeepsExactly | src/xenia/memory.cc:1553-1587 | Fixed placement in both heaps, each with the allocation type that it chooses for itself: the coupling stays exactly when the view only commits, or no other view holds a page of the range and the parent either reserves it without cutting a region or has it as one region already. |
| Coupling.ParentPlacedKeepsExactly | src/xenia/memory.cc:1553-1587 | A reservation that only the parent takes keeps the coupling exactly when it cuts no region and touches no region of a view but one of its own extent. |
| ViewCalls.FixedThroughViewExactly | src/xenia/memory.cc:1553-1587 | `PhysicalHeap::AllocFixed` at an address of a page, whatever the heaps answer: when both accept, the coupling stays exactly under that condition; when only the parent accepts, the view is as before, and the coupling stays exactly when the parent only committed or reserved without harm to a region. |
| ViewCalls.CommitTakesPages | src/xenia/memory.cc:1553-1587 | A commit of free pages of a view over pages that another view holds is accepted by both heaps and breaks the coupling. |
| Coupling.PlacedInFreeKeeps | src/xenia/memory.cc:1512-1628 | Over free pages of the parent it always does, and the pages of the view are free. |
| Coupling.FreedKeeps | src/xenia/memory.cc:1652-1676 | Releasing a region of a view meets the start of one region of the parent of the same byte extent, and freeing both keeps the coupling. |
| Coupling.WrongViewRelease | src/xenia/memory.cc:1652-1676 | A region of the parent that any view holds cannot be released in the parent alone without breaking the coupling. |
| Coupling.ParentReleasedExactly | src/xenia/memory.cc:1652-1676 | A release in the parent alone keeps the coupling exactly when no view has a region there. |
| ViewRuns.ExtentsAgreeExactly | src/xenia/memory.cc:1512-1628 | The parent and the view get the same bytes exactly when the rounded size is a multiple of the alignment: only the view rounds the size up to it. |
| ViewRuns.PinNeverFails | src/xenia/memory.cc:1512-1551 | Pinning what the parent gave cannot fail, and keeps parent and views coupled, when both get the same bytes and the search ends inside the view. |
| ViewRuns.PinExactly | src/xenia/memory.cc:1512-1628 | For every window that the parent gives: the pin succeeds and keeps the coupling exactly when the rounded size is a multiple of the alignment and the window ends inside the view; it succeeds exactly when the pages of the view exist and, for a plain reservation, are free; and when it fails the view is as before and the pages of the parent are lost. |
| ViewRuns.PinFailsOutside | src/xenia/memory.cc:1589-1628 | When the last window of a search range that reaches past the view is free in the parent, a search from the top gets it, the view refuses it, and exactly its pages are lost. |
| ViewRuns.ViewELosesPages | src/xenia/memory.cc:1512-1551 | Such a request: two pages at an alignment of two pages in the view at 0xE0000000, while the two pages at 0x1FD00000 are free. |
| ViewRuns.WholeViewEInsideExactly | src/xenia/memory.cc:1512-1551 | For the view at 0xE0000000 a search over the whole view ends inside it exactly for alignments of one page and of 4 MB and more. |
| ViewRuns.WholeViewsInside | src/xenia/memory.cc:1512-1551 | For the views at 0xA0000000 and 0xC0000000 it always does. |
| PhysicalMemory.PhysicalHeap.Alloc | src/xenia/memory.cc:1512-1551 | Parent and view after an allocation over the whole view, which always searches from the top. |
| PhysicalMemory.PhysicalHeap.AllocRange | src/xenia/memory.cc:1589-1628 | Parent and view after an allocation in a range; when the view refuses, what the parent gave stays taken. |
| RangeBytes.ViewScanExactly | src/xenia/memory.cc:1589-1628 | The parent is searched over the physical bytes under the part of the range that lies in the view, with the alignment rounded to pages of the view. |
| RangeBytes.ViewAddressExactly | src/xenia/memory.cc:1589-1628 | The address returned is the one in the view of the window that the parent gave, the best that there was for the request. |
| PhysicalMemory.PhysicalHeap.AllocFixed | src/xenia/memory.cc:1553-1587 | Parent and view after placement at an address: the function of both heaps about which `ViewCalls.FixedThroughViewExactly` and `ViewSteps.CallExactly` are proved. |
| PhysicalMemory.PhysicalHeap.Release | src/xenia/memory.cc:1652-1676 | Parent, view and bits after a release: the parent first, then the bits of exactly the bytes of the region, then the region. |
| PhysicalMemory.PhysicalHeap.Decommit | src/xenia/memory.cc:1637-1650 | Parent, bits and view after a decommit of any bytes: on both sides exactly the pages meant by the bytes lose their commit bit, and exactly the host pages with one of the bytes their watch bit. |
| PhysicalMemory.PhysicalHeap.Protect | src/xenia/memory.cc:1678-1695 | Bits, parent and view after a protection change of any bytes: when writing is asked for exactly the host pages with one of the bytes lose their bit, before either heap has agreed; the change is made, on both sides, exactly when both agree. |
| PhysicalMemory.ProtectByPages | src/xenia/memory.cc:1678-1695 | For bytes of the view that is, in pages, the change that the lemmas on watch bits are about. |
| MachineRuns.EveryReachableConsistent | src/xenia/memory.cc:1512-1676 | In every state reached by placements in a window or at an address, releases, placements and releases in the parent alone, commits, decommits and protection changes, each region of a view is one region of the parent of the same byte extent, and no physical page belongs to two views. |
| MachineRuns.StartConsistent | src/xenia/memory.cc:1487-1510 | Empty tables are coupled, whatever the views map. |
| MachineRuns.ParentPlacementKeeps | src/xenia/memory.cc:139-249 | A region placed in free pages of the parent alone, as for the last 64 KB of memory, is such a step and keeps the coupling. |
| MachineRuns.ReleaseThroughView | src/xenia/memory.cc:1652-1676 | Releasing a region through the view that holds it frees it on both sides, takes its bits away, and keeps everything else in step. |
| ViewSteps.FixedCallExactly | src/xenia/memory.cc:1553-1587 | A call of `AllocFixed` on a view keeps the coupling exactly under a condition on the tables before the call, and then it is a step of the machine. |
| ViewSteps.RangeCallExactly | src/xenia/memory.cc:1512-1628 | A call of `AllocRange` on a view breaks the coupling exactly when the rounded size is no multiple of the alignment, the parent has a window and the view accepts the pages over it; otherwise it is a step, also when the parent alone keeps the window. |
| ViewSteps.ReleaseCallExactly | src/xenia/memory.cc:1652-1676 | A release at an address of a page, whoever holds it: the coupling stays exactly when the parent refuses, or the region starts in this view, or in no view; then it is a step. |
| ViewSteps.DecommitCallKeeps | src/xenia/memory.cc:1637-1650 | A decommit of any bytes is a step, and keeps tables and counts of both heaps right. |
| ViewSteps.ProtectCallKeeps | src/xenia/memory.cc:1678-1695 | So is a protection change of any bytes, agreed to or not. |
| ViewSteps.CallExactly | src/xenia/memory.cc:1512-2014 | Every call on a view, through any of them: afterwards parent and views are coupled, every table is consistent and every cached count right, exactly when the call meets the condition of its kind. |
| ViewSteps.EveryRunSound | src/xenia/memory.cc:1512-2014 | That state is kept by every run of such calls, in any order and through all views. |
| WatchSteps.FixedWatchExactly | src/xenia/memory.cc:1553-1587 | Placement at a fixed address keeps bits and host pages in step exactly when it is refused by one of the heaps or does not commit, for writing, a page that is being watched. |
| WatchSteps.RangeWatchKeeps | src/xenia/memory.cc:1512-1628 | Placement in a range that keeps the coupling keeps them in step: the pages of the view over a free window are free and carry no bit. |
| WatchSteps.ReleaseWatchKeeps | src/xenia/memory.cc:1652-1676 | So does every release at an address of a page, whoever holds it. |
| WatchSteps.DecommitWatchKeeps | src/xenia/memory.cc:1637-1650 | So does every decommit, of any bytes. |
| WatchSteps.ProtectWatchExactly | src/xenia/memory.cc:1678-1695 | A protection change of any bytes keeps them in step exactly when both heaps agree and no page that becomes writable is watched outside of the bytes, or one refuses and no page of the bytes was watched for a guest that may write it. |
| WatchSteps.TriggerWatchExactly | src/xenia/memory.cc:1844-2014 | Unwatching any bytes keeps them in step; taking bits away without giving back write access does so exactly when no page of the bytes was watched for a guest that may write it. |
| WatchSteps.WatchExactly | src/xenia/memory.cc:1512-2014 | Of the calls that keep the coupling exactly these keep bits and host pages of all views in step. |
| WatchSteps.EveryViewIsSafe | src/xenia/memory.cc:1512-2014 | Over every run of such calls through all views: the host page of a committed page that the guest may write is writable exactly when its bit is clear, and free pages carry no bit. |
| WatchSteps.EmptyWatching | src/xenia/memory.cc:1487-1510 | Empty heaps are in step. |
| Startup.FirstIsSound | src/xenia/memory.cc:185-203 | After the last 64 KB are taken in the parent and while all views are empty, every table, count and bit is right. |
| Startup.InitializeSound | src/xenia/memory.cc:202-232 | The placements through the views at 0xC0000000 and 0xA0000000 are a run in which all of this is kept; both succeed, and the physical pages from 0x1FCB0000 to the end are taken. |
| HeapImage.QwordRoundTrip | src/xenia/memory.h:82-99 | A page entry comes back from its 64-bit word field by field, when base and count fit their 20 bits. |
| HeapImage.QwordLayout | src/xenia/memory.h:82-99 | Which bits of the word hold which field. |
| HeapImage.SavedAt | src/xenia/memory.cc:814-840 | Where the record of each page lies in the saved bytes: eight bytes of its entry, least significant first, and the contents of a committed page behind them. |
| HeapImage.ByteStream.Write | src/xenia/base/byte_stream.cc:34-38 | Replaces exactly the bytes from the offset on and advances by their number. |
| HeapImage.ByteStream.Read | src/xenia/base/byte_stream.cc:28-32 | Gives the bytes from the offset on and advances by their number. |
| HeapImage.HeapMemory.Save | src/xenia/memory.cc:814-840 | Appends the records of all pages in order, writes nothing else, and leaves every page with the access it had. |
| HeapImage.HeapMemory.Restore | src/xenia/memory.cc:842-884 | From the bytes that were saved: consumes exactly them, brings back every entry, and contents and access of every committed page; other pages keep their contents. The cached count is right afterwards exactly when as many pages are free as before. |
| HeapImage.HeapMemory.Reset | src/xenia/memory.cc:886-891 | Frees every entry and nothing else; the cached count is right afterwards exactly when nothing was taken before. |
| HeapImage.Memory.Save | src/xenia/memory.cc:686-695 | The five heaps one after the other, nothing else. |
| HeapImage.Memory.Restore | src/xenia/memory.cc:697-706 | Brings all five heaps back and consumes exactly what was written for them. |
| BitStreams.PeekIsField | src/xenia/base/bit_stream.cc:42-69 | A byte-swapped 64-bit load, a shift and a mask give the number that the wanted bits spell, most significant bit first. |
| BitStreams.InLoadedWordExactly | src/xenia/base/bit_stream.cc:50-51 | The clamped load holds the wanted bits, up to 57 of them, except exactly for bits of the last, partial byte of a stream whose size is not a whole number of bytes. |
| BitStreams.BitStream.Peek | src/xenia/base/bit_stream.cc:42-69 | Equals the plain bit-sequence reading at every offset, also at the clamped tail. |
| BitStreams.BitStream.Read | src/xenia/base/bit_stream.cc:71-76 | The same, and moves on by the bits read. |
| BitStreams.BitStream.Advance | src/xenia/base/bit_stream.cc:157-157 | The sum wraps on 64 bits and is clamped, so that a step of minus one goes back by one bit. |
| BitStreams.BitStream.Copy | src/xenia/base/bit_stream.cc:115-155 | Says for every bit of the destination what it is afterwards, returns the bit position of the copy and advances by its length; a copy that does not reach the end of the byte in which it starts runs past the buffer, because the count of bits left wraps. |
| BitStreams.CopiedIntoZero | src/xenia/base/bit_stream.cc:115-155 | In a destination of zeros the copy lies at its offset modulo 8 and no other bit is set. |
| BitStreams.CopyMergesExactly | src/xenia/base/bit_stream.cc:115-155 | The copy merges its bits into what the destination held exactly when every bit set there lies outside of the copy and is kept by the mirrored masks, or inside and is cleared or set in the stream as well. |
| BitStreams.CopyDoesNotMerge | src/xenia/base/bit_stream.cc:125-151 | Three copies that do not merge: a bit behind the copy is lost, a bit in front of it is lost, and an old bit inside it stays. |
| XmaPackets.HeaderFields | src/xenia/apu/xma_helpers.h:23-50 | The header of a packet, as bit fields: 6 bits of frame count, 15 of first offset, 3 of metadata, 8 of skip count. |
| XmaPackets.PointsLinked | src/xenia/apu/xma_context_old.cc:256-288 | The places of the frame chain are linked by the sizes read there, and the last has no successor. |
| XmaPackets.ChainInBlock | src/xenia/apu/xma_context_old.cc:835-881 | The chain walked over a whole block agrees with the chain inside the packet as long as that one lasts. |
| XmaWalkers.NextFrameInStream | src/xenia/apu/xma_context_old.cc:267-285 | One step of the old walkers, with its unsigned arithmetic: goes on exactly when the frame fits and its last bit is set. |
| XmaWalkers.ValidFrameOffset | src/xenia/apu/xma_context_old.cc:237-291 | Accepts exactly the places of the chain of the packet that holds the offset. |
| XmaWalkers.GetNextFrame | src/xenia/apu/xma_context_old.cc:777-818 | The end of a frame that another one follows, when that lies in the same packet or is the end of the block; 0 otherwise. |
| XmaWalkers.GetFrameNumber | src/xenia/apu/xma_context_old.cc:835-881 | The place of the offset in the chain, or of the last frame when it is none; -1 and -2 for the offset 0 and for one behind the block. |
| XmaWalkers.GetPacketFrameCount | src/xenia/apu/xma_context_old.cc:883-920 | The number of frames that begin in the packet, and whether the last one runs on; none when the first offset is above 16352. |
| XmaWalkers.GetPacketInfo | src/xenia/apu/xma_context_new.cc:569-623 | Counts the frames of its own walk modulo 256, and finds the index and the size of the frame at the offset, or what is left of the frame in front of the first offset; with a bound on its rounds, it is done exactly when the walk has ended by then. |
| XmaWalkers.WalkEndsExactly | src/xenia/apu/xma_context_new.cc:569-623 | The loop ends exactly when it meets no frame of size zero behind a set bit: from such a frame it steps back by one bit, reads it again, and so on for ever. |
| XmaWalkers.OldWalkersAgree | src/xenia/apu/xma_context_old.cc:237-920 | For frame k of a packet: its offset is accepted, its number is k, and the next frame is frame k + 1; after the last frame the walk never leads to a place where a header fits. |
| XmaWalkers.NewWalkerAgreesExactly | src/xenia/apu/xma_context_new.cc:569-623 | The new walk finds the frames of the old ones exactly when the last of them has not the marker size and is not a frame shorter than its header in front of another one. |
| XmaCursor.NextReadOffsetExactly | src/xenia/apu/xma_context_new.cc:531-554 | The search finds the first packet from the given one on in which a frame begins, and answers 32 exactly when there is none; 32 is never the offset of a frame found. |
| XmaCursor.InfoAt | src/xenia/apu/xma_context_new.cc:569-623 | On a frame of a well-formed packet the packet info names it, with its size, and tells the last one from the others. |
| XmaCursor.DecodeProgress | src/xenia/apu/xma_context_new.cc:288-475 | On well-formed buffers the reading position stays on a frame; a call finds the frame there, except when it runs on and what follows is missing (error status 4); and every frame found lowers loops left, buffers left and bits left in that order, unless it loops forever. |
| XmaCursor.EveryFrameOnRoute | src/xenia/apu/xma_context_new.cc:288-475 | A run over well-formed buffers that are not looped reads every frame on the way that the skip counts lead through the current buffer, each once and in order, and then those of the other buffer. |
| XmaCursor.SingleStreamRoute | src/xenia/apu/xma_context_new.cc:288-475 | In a buffer of a single stream that way passes all frames. |
| XmaCursor.RouteInStreamExactly | src/xenia/apu/xma_context_new.cc:531-554 | The way leaves its stream exactly when a packet of the stream in which no frame begins skips one in which a frame begins. |
| XmaCursor.FramesAreDrained | src/xenia/apu/xma_context_new.cc:288-475 | The frames found by any number of calls that find one are the first frames of the whole run, and all of them once a call finds none. |
| XmaCursor.CallsFindFirst | src/xenia/apu/xma_context_new.cc:288-475 | Any number of calls finds the first frames of the whole run, and all of them once no buffer is left; with loops, as long as no call but the last had to wait for the rest of a frame. |
| XmaCursor.NoProgressExactly | src/xenia/apu/xma_context_new.cc:146-167 | A call changes nothing, so that the loop around it does not end, exactly when the current buffer is not valid although the other one is, or the offset lies outside the buffer and no loop moves it; for every loop count. |
| XmaCursor.BufferDroppedExactly | src/xenia/apu/xma_context_new.cc:345-367 | At its start a whole buffer is given up, although the comment at lines 453-456 wants to go on to the next packet, exactly when no header fits at the first offset of its first packet or the 15 bits there are zero or the marker. |
| XmaContext.FrameIsTransparent | src/xenia/apu/xma_context_new.cc:390-411 | The bits in `xma_frame_` are the bits of the frame in the stream of payloads without headers. |
| XmaLaws.FoundAtSpot | src/xenia/apu/xma_context_new.cc:288-475 | In the bits of the input buffers: at offset `Max(32, loop_end)` with loops left a call reads from `Max(32, loop_start)` and uses one up, unless there are 255; elsewhere it reads where it stands. The frame there is found, with the size in its first 15 bits, unless it runs on and neither the packet that the skip count names nor another buffer is there: then the error status is 4. |
| XmaLaws.FrameBits | src/xenia/apu/xma_context_new.cc:342-411 | Every bit of the frame in `xma_frame_` is the bit of the input: up to the end of the packet, then behind the header of the packet that the skip count names, or of the first packet of the other buffer. |
| XmaLaws.LibraryGetsFrame | src/xenia/apu/xma_context_new.cc:390-424 | The bytes for the audio library: the first six bits say how many bits to drop in front and behind, and what is left is exactly these bits of the input. |
| XmaLoops.LoopedRoute | src/xenia/apu/xma_context_new.cc:479-500 | A run over a looped buffer reads the frames of its route up to the loop end, then those from the loop start to the loop end once for each loop, then the rest of the route, and then the other buffer. |
| XmaLoops.RunToLoopEnd | src/xenia/apu/xma_context_new.cc:479-500 | In any case a run is the run without loops from where it starts, up to the loop end, and begins there again with the loops that are left. |
| XmaContext.PaddingIsExact | src/xenia/apu/xma_context_new.cc:665-675 | The byte in front says how many bits to drop at both ends so that exactly the frame remains. |
| XmaContext.GoodIsReadable | src/xenia/apu/xma_context_new.cc:288-411 | On well-formed buffers no copy leaves its buffer and no walk runs forever. |
| XmaContext.Context.SwapInputBuffer | src/xenia/apu/xma_context_new.cc:251-260 | Gives up the current buffer, turns to the other one and starts at bit 32. |
| XmaContext.Context.UpdateLoopStatus | src/xenia/apu/xma_context_new.cc:479-500 | Jumps to the loop start exactly when the position is the loop end and loops are left, and uses one up unless it loops forever. |
| XmaContext.Context.Decode | src/xenia/apu/xma_context_new.cc:288-475 | Moves the position as specified, and `XmaLaws` says where that is; a frame found becomes the pending sound, which is what the library makes of the bytes that `XmaLaws.LibraryGetsFrame` describes; nothing pending is overwritten. |
| XmaContext.Context.Consume | src/xenia/apu/xma_context_new.cc:262-286 | Writes the front of the pending sound, at most `subframe_decode_count` sub-frames, and keeps the rest: nothing is lost and nothing is written twice. |
| XmaContext.Context.Work | src/xenia/apu/xma_context_new.cc:116-184 | The sound decoded is that of the frames which the calls of `Decode` find from the reading position on, each once and in order, a first part of the whole run; all of it is what was written followed by what is pending; it is written into the room that was free at the start, behind the old write offset, and nothing else in the ring changes; the loop ends when what is left of that room is too little for another round, or no buffer is left, or the rest of a frame is missing, and every round had enough. |
| XmaContext.RingExactly | src/xenia/apu/xma_context_new.cc:87-113 | Where the block offsets of the guest lie in the ring, and how much room there is between them. |
| XmaContext.CallsConserveSound | src/xenia/apu/xma_context_new.cc:116-184 | Over any number of calls, with buffers handed in between them: the sound decoded is that of the frames of each call in turn, and what is in the ring is a first part of it. |
| XmaContext.CallsAreOneRun | src/xenia/apu/xma_context_new.cc:116-184 | When the guest leaves the position alone, all calls together are one run over the frames. |
| XmaContext.CallsFindAll | src/xenia/apu/xma_context_new.cc:116-184 | The sound of all these calls is that of the first frames of the whole run, and of all its frames once no buffer is left. |
| XmaContext.UnreadSoundStays | src/xenia/apu/xma_context_new.cc:116-184 | Sound that the guest has not read yet is still in the ring afterwards. |
| RingBuffers.RingBuffer.Write | src/xenia/base/ring_buffer.cc:101-129 | Writes the bytes behind the write offset, around the end of the buffer, and nothing else. |
| RingBuffers.RingBuffer.WriteCount | src/xenia/base/ring_buffer.h:85-93 | Room for writing and bytes for reading make up the capacity; equal offsets leave the whole of it. |
| RingBuffers.OverwrittenTwice | src/xenia/base/ring_buffer.cc:101-129 | Two writes in a row are one write of both. |
| LogRing.HeaderRoundTrip | src/xenia/base/logging.cc:78-84 | Length, thread, terminate flag and prefix come back from the 16 header bytes. |
| LogRing.HeaderBytes | src/xenia/base/logging.cc:78-84 | Which of the 16 bytes hold which field. |
| LogRing.PrefixSpells | src/xenia/base/logging.cc:313-335 | The prefix is its character, "> ", the thread in eight upper-case hexadecimal digits, and a space; without a character there is none. |
| LogRing.RenderedExactly | src/xenia/base/logging.cc:302-372 | A line in the log is prefix and text, and a newline exactly when the text does not end with one. |
| LogRing.ReadsBackExactly | src/xenia/base/logging.cc:302-372 | A line in the ring comes back whole, with prefix and newline, also around the end of the ring; only for a text that ends exactly where the ring ends is the newline left to the byte in front of the ring. |
| LogRing.PutKeeps | src/xenia/base/logging.cc:406-430 | A write leaves alone what lies within a ring's length but outside of it. |
| Logger.WriteStores | src/xenia/base/logging.cc:406-430 | Producers never touch each other's bytes or blocks not yet read, in any order of their writes. |
| Logger.LineAtNext | src/xenia/base/logging.cc:289-316 | The writer thread stands at the beginning of a published line and finds that line whole. |
| Logger.LookKeeps | src/xenia/base/logging.cc:279-392 | One turn of the writer thread delivers one whole line or learns how many blocks to wait for. |
| Logger.StepKeeps | src/xenia/base/logging.cc:279-430 | Every step of every thread keeps the invariant. |
| Logger.DeliveredInOrder | src/xenia/base/logging.cc:279-430 | In every run, for every interleaving: the log holds the lines in the order of their claims, each once and byte for byte, and the next sequence is a line boundary. |
| Logger.OutputOnlyGrows | src/xenia/base/logging.cc:279-430 | What was delivered stays, and a claim keeps its place and its line. |
| Logger.ServedExactly | src/xenia/base/logging.cc:279-430 | The step that serves the next line is possible, except exactly when the line is longer than the ring and waits for its first block. |
| Logger.EveryLineCanBeWritten | src/xenia/base/logging.cc:279-430 | From every point of every run at most six steps write the line that is next, if it fits into the ring. |
| Logger.StopsExactly | src/xenia/base/logging.cc:367-376 | The writer thread stops behind the first line that asks for it, and nowhere else. |
| Logger.OversizedNeverGranted | src/xenia/base/logging.cc:406-412 | A line longer than the ring is never admitted, so that no line behind it is delivered either. |
| BitRange.NextUnsetRange | src/xenia/base/bit_range.h:26-75 | Finds the first maximal run of unset bits in the range; length 0 exactly when every bit there is set. |
| BitRange.FirstRunIsUnique | src/xenia/base/bit_range.h:26-75 | There is only one such answer. |
| BitRange.SetRange | src/xenia/base/bit_range.h:77-101 | What every block is afterwards. |
| BitRange.SetRangeExactly | src/xenia/base/bit_range.h:77-101 | The range and nothing else is set exactly when it touches two blocks at most; blocks in between are filled with `CHAR_MAX` and lose every eighth bit. |
| BitMap.Map.Acquire | src/xenia/base/bit_map.cc:56-65 | Alone, it takes the lowest free index, and fails exactly when none is free. |
| BitMap.Map.AcquireFromBack | src/xenia/base/bit_map.cc:67-79 | Alone, it takes the lowest free index of the last word that has one. |
| BitMap.Map.TryAcquireAt | src/xenia/base/bit_map.cc:28-55 | Takes the lowest free index of one word. |
| BitMap.Map.Release | src/xenia/base/bit_map.cc:81-95 | Makes its own index free and no other. |
| BitMap.Map.Resize | src/xenia/base/bit_map.cc:97-108 | Entries that stay keep their state, new ones are free. |
| BitMap.StepKeeps | src/xenia/base/bit_map.cc:28-95 | Every load and every compare-and-swap of every thread keeps one holder for each index that is not free. |
| BitMap.NeverTwoHolders | src/xenia/base/bit_map.cc:28-95 | In every run of any number of threads no index is held twice, and held and free indices together are all of them. |
| Arena.PaddingByMask | src/xenia/base/arena.cc:53-58 | The mask arithmetic gives the distance to the next multiple of the alignment. |
| Arena.Arena.Alloc | src/xenia/base/arena.cc:49-84 | The block is aligned, lies in its chunk, shares no byte with the blocks handed out since the last reset, and moves none of them. It lies at the first aligned place behind what is used, as long as there is room for it and some slack; otherwise at the start of the next chunk, whatever offset that was left with. |
| Arena.Arena.Reset | src/xenia/base/arena.cc:34-39 | No block is left, and all chunks are kept. |
| Arena.Arena.CalculateSize | src/xenia/base/arena.cc:88-99 | The length of what would be copied. |
| Arena.Arena.CloneContents | src/xenia/base/arena.cc:101-115 | The used parts of the chunks from the head to the active one, in order, and nothing of the chunks behind it. |
| Arena.BlockAdded | src/xenia/base/arena.cc:79-84 | A block behind the used part of the active chunk shares no byte with any other. |
| Cvar.EscapeBasicString | src/xenia/base/cvar.cc:106-137 | Produces the escaped text of every character in turn. |
| Cvar.BasicRoundTrip | src/xenia/base/cvar.cc:106-137 | A reader of TOML v1.0.0 gets back exactly the text from its basic string, for every text. |
| Cvar.EscapeMultilineBasicString | src/xenia/base/cvar.cc:139-189 | Writes out runs of quotes with every third one escaped, and drops carriage returns. |
| Cvar.MultilineReads | src/xenia/base/cvar.cc:139-189 | A reader gets back the text without its carriage returns, also with quotes next to the closing delimiter, when no three unescaped quotes come together. |
| Cvar.MultilineEndsEarly | src/xenia/base/cvar.cc:139-189 | Otherwise the string ends too early. |
| Cvar.NoReturnsNoTriples | src/xenia/base/cvar.cc:139-189 | Without carriage returns three unescaped quotes never come together. |
| Cvar.ReturnJoinsQuotes | src/xenia/base/cvar.cc:165-167 | Two quotes, a carriage return and a quote do bring them together. |
| Cvar.EscapeStringExactly | src/xenia/base/cvar.cc:191-217 | A value comes back as it was exactly when it holds no carriage return, and without its carriage returns exactly when these do not bring three quotes together. |
| Cvar.EscapeString | src/xenia/base/cvar.cc:191-217 | Always takes a basic form, because the set of characters to look for is empty and an empty set is always found. |

## Left out

- HeapSpec: host pages are 4 KB, as on the hosts with that page size; 16 KB and 64 KB hosts are not modelled.
- PageSearch.SearchNoPage: a downward scan that comes back to page 0 for ever is told by the same answer as one that leaves the table.
- GuestHeap.BaseHeap.AllocFixed: does not fill pages with a pattern (`scribble_heap`) and has no debug-only checks.
- GuestHeap.BaseHeap.Protect: the old protection that it may report is not an output of the model.
- PhysicalMemory.PhysicalHeap.Alloc: the search range of the parent is that of the view; system heap variants are left out.
- PhysicalMemory.PhysicalHeap.TriggerCallbacks: data providers and read watches, which the source does not implement; what the callbacks do besides answering.
- MachineRuns.WatchingIsSafe: protection changes cover whole guest pages and the host agrees to all changes; `WatchSteps` is without both restrictions.
- HeapImage.HeapMemory.Restore: the answer of the host to commit and protect; the bits of an entry behind the 64-bit word, which are always zero.
- HeapImage.Memory.Save: the five calls are written as a loop.
- BitStreams.BitStream.Copy: streams of whole bytes only; the state in which a copy is when it runs past the buffer.
- BitStreams: `Write` and `IsOffsetValid`; a comment in the source calls the former untested.
- XmaWalkers.GetPacketInfo: the number of rounds is bounded by a parameter, since the loop of the source need not end (`XmaWalkers.WalkEndsExactly`); the comparison with the frame count of XMA2 headers only writes to the log.
- XmaContext.Context.Work: input buffers are well formed and stay as they are during a call; `is_stereo` stays while sub-frames are pending; the guest asks for at least one sub-frame. Guest memory behind the context structure and its byte order are left out.
- XmaContext.Context.Decode: a buffer that is handed in is as long as its packet count says, and a valid one has at least one packet.
- XmaContext: what the audio library keeps from one frame to the next (it is a function of the bytes of one frame), frames that it refuses, sample formats, sample rates, and `Enable`, `Clear`, `Block`, `Disable`, `Release`.
- RingBuffers.RingBuffer.Write: writes no more than there is room for, which the source asserts.
- The decode loop and `TrySetupNextLoop` of the old XMA decoder: full of open ends in the source; its walkers are modelled.
- Logger: the claim strategy and the barrier are taken by their contract; sinks, flushing, sleeping and start-up are left out.
- LogRing.ReadsBackExactly: the byte in front of the ring is a parameter.
- BitMap.NeverTwoHolders: `Resize` and `Reset` beside other threads, which the source does not promise; the constructor that copies data.
- BitRange: blocks of 64 bits, and a `char` whose greatest value is 127.
- Arena.Arena.Alloc: sizes above that of a chunk, which the source rules out by an assertion in one of its branches only; `Rewind`.
- Cvar: text is a sequence of code points, so that UTF-8 itself is left out; launch options, files and dates.
- TomlStrings: the backslash at the end of a line, which the writer never produces.
- Host mapping, exception handlers, `LookupHeap` and address translation, and everything outside the files above.
- ViewSteps.CallExactly: placement and release at addresses of whole pages of the view; the host's part in a range search that leaves the page table (`HeapSpec.InBounds`) is not followed any further.
