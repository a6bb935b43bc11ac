# BadgerDB buffer manager, modelled in Dafny

This project models `BufMgr`, the buffer manager of the BadgerDB teaching
database (`src/buffer.cpp`). The manager keeps a fixed pool of `numBufs`
frames. Each frame has a descriptor with `valid`, `refbit`, `dirty`, a pin
count and the file and page it caches. A page table maps (file, page) to
the frame that holds the page. Frames are picked by the clock
(second-chance) policy: a hand sweeps the frames in a circle, spends each
frame's reference bit once, and takes the first free frame or the first
unpinned frame whose reference bit is already spent. Over this the
manager offers `readPage`, `unPinPage`, `allocPage`, `flushFile` and
`disposePage`.

Layout:

- `descriptor.dfy` (`Descriptor`): frame descriptors, page-table keys, the
  unsigned 32-bit type, and the two descriptor updates `Set` and `clear`
  (`Set` and `Cleared`).
- `state.dfy` (`BufferState`): the manager's state. It holds the
  descriptors, the page table as a `map`, the clock hand, and a log of
  calls into the file layer. This file also defines the outcomes that
  replace the C++ exceptions, the shape predicate `Wf`, the page-table
  invariant `Inv`, and the constructor `New`.
- `clock.dfy` (`Clock`): `advanceClock` and `allocBuf`. The clock sweep is
  a bounded loop. `AllocBufSpec` describes its outcome frame by frame.
- `manager.dfy` (`Manager`): the five public operations.
- `scenarios.dfy` (`Scenarios`): consequences that span several calls or
  particular pools.

Every operation is a function or method from a state to a new state and an
outcome. An exception of the C++ code becomes `Fail(error)` returned with
the state as it was when the exception left the method. That state
includes side effects that had already happened: a victim cleared by
`allocBuf`, the frames `flushFile` had already flushed, a page
`allocPage` had already allocated. Calls into the file layer have no
effect in the model. They are appended to `log` as `Read`, `Write`,
`Allocate` and `Delete` events. Page contents are opaque.

Where the C++ code behaves unexpectedly, the model follows it:

- `unPinPage` on a page that is not cached lets the page table's
  not-found failure escape as `NotFound`.
- In `allocBuf` the victim is cleared before its key is removed. If the key
  is missing, which can only happen once the page-table invariant is
  broken, `NotFound` escapes after the frame was cleared.
- `flushFile` does not look at which file a frame belongs to. It writes
  dirty pages to the file it was given, and removes keys under that file.
- The search limit `numBufs * 2` is computed in unsigned 32-bit
  arithmetic. For `numBufs = 2^31` it wraps to 0, and `allocBuf` gives up
  before inspecting any frame (`Scenarios.WrappedBoundGivesUp`).
  Properties that rely on two full laps are stated for fewer than 2^31
  frames.
- With no frames at all, `bufs - 1` wraps to `0xFFFF_FFFF`, so the
  constructor leaves the hand there.

`Inv`, the page-table invariant, says three things:

- a key is in the table exactly when a valid frame holds that page;
- the table points at that frame;
- every invalid frame is fully cleared.

Every operation except `flushFile` keeps `Inv`. `flushFile` keeps it only
when every valid frame belongs to the file being flushed.

## Model

| member | source | states |
|---|---|---|
| BufferState.New | src/buffer.cpp:28-39 | a new pool has `bufs` invalid, cleared frames and an empty page table, and satisfies the page-table invariant; the hand sits at `bufs - 1`, one step behind frame 0, and wraps to `0xFFFF_FFFF` when `bufs` is 0 |
| BufferState.NoDuplicateCaching | src/buffer.cpp:79-95 | under the page-table invariant two distinct valid frames never hold the same page |
| BufferState.CachedIffOwned | src/buffer.cpp:79-95 | under the invariant a page is in the page table if and only if some valid frame holds it, so a lookup miss means the page is not in the pool |
| Clock.AdvanceClock | src/buffer.cpp:41-43 | the hand always lands inside `[0, numBufs)`; from a frame inside the pool it moves to the next frame, wrapping from the last frame to frame 0 |
| Clock.Bound | src/buffer.cpp:50 | the search limit never exceeds `2 * numBufs`; it equals `2 * numBufs` whenever `numBufs < 2^31`, and from `2^31` on it is the wrapped product `2 * numBufs - 2^32` |
| Clock.AllocBuf | src/buffer.cpp:45-77 | the search makes at most `Bound(numBufs)` inspections, and ends in one of two ways. It can run out with `BufferExceeded`: no I/O, the table unchanged, every frame passed over. It can take the frame under the hand: a free frame, or an unpinned valid frame whose reference bit was spent, reached on the second lap exactly when its bit had to be spent first. A taken victim is written back if dirty, cleared, and its key removed (`NotFound` if the key was missing). Every frame passed over was valid and referenced or pinned and lost only its reference bit; a frame passed twice is pinned; unreached frames are unchanged |
| Clock.AllocBufKeepsPinned | src/buffer.cpp:58-71 | the search never evicts a pinned page: every valid pinned frame keeps its page, pin count and dirty bit |
| Clock.AllocBufKeepsInv | src/buffer.cpp:58-75 | the search keeps the page-table invariant; under it the victim's key is always found, and the frame handed out is cleared |
| Clock.ExhaustedMeansAllPinned | src/buffer.cpp:49-54 | for fewer than 2^31 frames, `BufferExceeded` means every frame was valid and pinned |
| Clock.AllPinnedMeansExhausted | src/buffer.cpp:49-54 | if every frame is valid and pinned, the search fails with `BufferExceeded` after exactly `Bound(numBufs)` inspections |
| Manager.InstallKeepsInv | src/buffer.cpp:88-94 | loading a page the table does not hold into a cleared frame, then registering it, keeps the invariant |
| Manager.TouchKeepsInv | src/buffer.cpp:81-85 | pinning a cached page again keeps the invariant |
| Manager.ReadPage | src/buffer.cpp:79-95 | a hit sets the reference bit and adds exactly one pin to that frame; nothing else changes and no file I/O happens. A miss is an `allocBuf` search followed by a `Read` event and installation: the key maps to a frame holding `Set(key)`, which has pin count 1, reference bit set and is clean. A failed search is returned with its state. Pinned frames are kept. The invariant is kept, and under it the only failure is `BufferExceeded` |
| Manager.UnPinPage | src/buffer.cpp:97-109 | `NotFound` exactly when the page is not cached; `PageNotPinned` exactly when its pin count is 0; both leave the state unchanged. Otherwise the pin count drops by exactly one, the dirty bit becomes `old || dirty` so it is never cleared, and nothing else changes. The invariant is kept |
| Manager.AllocPage | src/buffer.cpp:111-121 | the `Allocate` event is logged before the frame search and is never undone. A failed search is returned with its state. If the key is already in the table, `AlreadyPresent` is returned with the search's state. Otherwise the new page is installed pinned once. Pinned frames and the invariant are kept |
| Manager.FlushWritesAreDirtyPages | src/buffer.cpp:130-133 | the write-backs of a flush are exactly the pages of the dirty frames, addressed to the flushed file |
| Manager.FlushedPrefix | src/buffer.cpp:126-141 | the state after flushing the first `i` frames: those frames are cleared, later frames are untouched, the hand and the shape are kept |
| Manager.FlushNext | src/buffer.cpp:126-141 | one loop iteration on a valid frame extends the flushed prefix by one frame |
| Manager.FlushFile | src/buffer.cpp:123-143 | frames are flushed in index order up to `stop`, the first frame that is pinned (`PagePinned`) or invalid (`BadBuffer`, checked after the pin count). Every frame before `stop` was valid and unpinned, and the state is exactly the flushed prefix, so that partial work is not undone. Success means all frames were flushed. The invariant is kept when every valid frame belongs to the flushed file |
| Manager.FlushedKeysBelow | src/buffer.cpp:134-136 | when every valid frame belongs to the flushed file, the keys a flush of the first `stop` frames removes are exactly those the table maps below `stop` |
| Manager.FlushedKeepsInv | src/buffer.cpp:126-141 | a flushed prefix of valid frames keeps the invariant when every valid frame belongs to the flushed file |
| Manager.DisposePage | src/buffer.cpp:145-153 | a `Delete` event is always logged and the page is never left in the table. A cached page's frame is cleared and its key removed even if the page is pinned; no other frame changes. An uncached page leaves the frames and the table alone. The invariant is kept |
| Scenarios.FreshPoolTakesFrameZero | src/buffer.cpp:28-77 | after construction, the first search inspects exactly one frame, frame 0, and takes it unchanged; this holds for every pool size except `2^31`, where the wrapped limit is 0 |
| Scenarios.WrappedBoundGivesUp | src/buffer.cpp:50-51 | with `2^31` frames the wrapped limit makes the search fail with `BufferExceeded` before inspecting a frame, free or not |
| Scenarios.ReleaseTwice | src/buffer.cpp:97-109 | a page pinned once can be released once; the second release fails with `PageNotPinned` and changes nothing |
| Scenarios.AllocPageWhenFull | src/buffer.cpp:111-115 | on a pool of pinned frames `allocPage` fails with `BufferExceeded`, every reference bit is cleared, and the page stays allocated in the file |
| Scenarios.ForeignFlush | src/buffer.cpp:123-143 | flushing file 1 over a dirty page of file 2 succeeds. It writes that page to file 1 and clears its frame, but leaves a stale table entry that breaks the invariant. A later `readPage` of the page then pins the empty frame |

## Left out

- `printSelf` only prints the descriptors to the console and changes no state.
- `HASHTABLE_SZ` sizes the hash table's buckets using floating point. The
  page table is a `map`, since the bucket layout cannot be observed.
- `File` and `Page` are not part of this model. Their reads, writes,
  allocations and deletions are log events, and page contents are opaque.
  A failure inside the file layer is not modelled: for example,
  `file.readPage` throwing after `allocBuf` has already cleared a frame.
  A cached page's page number is taken to be its descriptor's page.
- `buffer.h` is not part of this model. `BufDesc::Set` and
  `BufDesc::clear` are modelled as `Descriptor.Set` (valid, referenced,
  clean, pinned once) and `Descriptor.Cleared` (every field reset). The
  descriptor's constant `frameNo` field is the
  frame's index and is not stored.
- The `Page*&` out-parameters become the returned frame index. The
  exception classes become the `Error` values.
- The `insert` in `readPage`'s miss path cannot throw `AlreadyPresent`: the
  key was just looked up and not found, and `allocBuf` only removes keys.
  That branch is not modelled. `allocPage`'s insert is modelled with its
  failure.
- Pin counts are unbounded; the C++ `int` counter's overflow is not modelled.
- There are no threads: the code has no locking and is single-threaded.
- Clock.ExhaustedMeansAllPinned: stated only for fewer than 2^31 frames.
  From 2^31 frames on, the wrapped limit is below `2 * numBufs`, so the
  search can give up before two full laps.
- Scenarios.AllocPageWhenFull: stated only for fewer than 2^31 frames.
  From 2^31 frames on, the wrapped limit can stop the search before it
  reaches every frame, so some reference bits stay set.
