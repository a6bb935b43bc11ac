/**
 Consequences of the operations over whole call sequences: the first
 allocation after construction, a page released once too often, a frame
 search on a full pool, and what `flushFile` does to a page of another
 file.
 */
module Scenarios {
  import opened Descriptor
  import opened BufferState
  import opened Clock
  import opened Manager

  /**
   The first search after construction inspects one frame, frame 0, and
   takes it as it is, unless the wrapped limit is 0.
   */
  lemma FreshPoolTakesFrameZero(bufs: Uint32, s': BufMgr, r: Result<FrameId>, k: nat)
    requires 0 < bufs && bufs != 0x8000_0000 && AllocBufSpec(New(bufs), s', r, k)
    ensures r == Ok(0) && k == 1 && s'.descs == New(bufs).descs && s'.clockHand == 0
  {
    var s := New(bufs);
    assert SweepPos(s.clockHand, 0, bufs) == 0;
    if bufs > 1 {
      assert SweepPos(s.clockHand, 1, bufs) == 1;
    }
    forall i | 0 <= i < bufs && i != s'.clockHand
      ensures s'.descs[i] == s.descs[i]
    {
      assert SweepPos(s.clockHand, i, bufs) == i;
    }
  }

  /**
   With `2^31` frames the limit `numBufs * 2` wraps to zero in 32 bits, so
   the search gives up before inspecting any frame, free or not.
   */
  lemma WrappedBoundGivesUp(s: BufMgr, s': BufMgr, r: Result<FrameId>, k: nat)
    requires Wf(s) && s.numBufs == 0x8000_0000 && AllocBufSpec(s, s', r, k)
    ensures r == Fail(BufferExceeded) && k == 0 && s'.descs == s.descs
  {
    forall i | 0 <= i < s.numBufs
      ensures s'.descs[i] == s.descs[i]
    {
      assert !(SweepPos(s.clockHand, i, s.numBufs) < k);
    }
  }

  /**
   A page pinned once can be released once: the second release fails with
   `PageNotPinned` and changes nothing. A page `readPage` brings in is
   pinned once.
   */
  method ReleaseTwice(s: BufMgr, key: Key)
    returns (s1: BufMgr, r1: Result<()>, s2: BufMgr, r2: Result<()>)
    requires Inv(s) && key in s.table && s.descs[s.table[key]].pinCnt == 1
    ensures Wf(s1) && s1.numBufs == s.numBufs && key in s1.table
    ensures r1.Ok?
    ensures s1.descs[s1.table[key]].pinCnt == 0
    ensures r2 == Fail(PageNotPinned) && s2 == s1
    ensures Inv(s2)
  {
    s1, r1 := UnPinPage(s, key, false);
    s2, r2 := UnPinPage(s1, key, false);
  }

  /**
   On a pool whose frames are all pinned, `allocPage` fails with
   `BufferExceeded` after clearing every reference bit, yet the page it
   asked the file for stays allocated.
   */
  method AllocPageWhenFull(s: BufMgr, file: FileId, newPage: PageId)
    returns (s': BufMgr, r: Result<FrameId>)
    requires Inv(s) && s.numBufs < 0x8000_0000
    requires forall i :: 0 <= i < s.numBufs ==> s.descs[i].pinCnt > 0
    ensures r == Fail(BufferExceeded)
    ensures s'.log == s.log + [Allocate(Key(file, newPage))]
    ensures s'.table == s.table && |s'.descs| == s.numBufs
    ensures forall i :: 0 <= i < s.numBufs ==> s'.descs[i] == s.descs[i].(refbit := false)
  {
    ghost var mid, found, k;
    s', r, mid, found, k := AllocPage(s, file, newPage);
    var withAlloc := s.(log := s.log + [Allocate(Key(file, newPage))]);
    AllPinnedMeansExhausted(withAlloc, mid, found, k);
  }

  /**
   `flushFile` trusts the caller that every cached page belongs to the file
   it is given. A dirty page 7 of file 2 flushed as file 1 is written to
   page 7 of file 1, its frame is cleared, and the page table keeps a stale
   entry for it, so a later `readPage` of that page pins the empty frame.
   */
  method ForeignFlush()
    returns (s: BufMgr, s1: BufMgr, r1: Result<()>, s2: BufMgr, r2: Result<FrameId>)
    ensures Inv(s) && !AllOwnedBy(s, 1)
    ensures Wf(s1) && s1.numBufs == 1 && Wf(s2) && s2.numBufs == 1
    ensures r1.Ok?
    ensures s1.log == [Write(Key(1, 7))]
    ensures !Inv(s1)
    ensures Key(2, 7) in s1.table && !s1.descs[s1.table[Key(2, 7)]].valid
    ensures r2 == Ok(0) && !s2.descs[0].valid && s2.descs[0].pinCnt == 1
  {
    var page := Key(2, 7);
    s := BufMgr(1, [Desc(true, false, true, 0, Some(page))], map[page := 0], 0, []);
    var stop;
    s1, r1, stop := FlushFile(s, 1);
    assert stop == 1 by {
      assert s.descs[0].valid && s.descs[0].pinCnt == 0;
    }
    assert s.descs[..1] == [s.descs[0]];
    assert FlushedKeys(1, s.descs[..1]) == {Key(1, 7)};
    assert FlushWrites(1, s.descs[..1]) == FlushWrites(1, []) + [Write(Key(1, 7))];
    ghost var m, k;
    s2, r2, m, k := ReadPage(s1, page);
  }
}
