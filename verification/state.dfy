/**
 The state of the buffer manager `BufMgr`: the descriptor table, the page
 table, the clock hand and a log of the calls made to the file layer.

 Page contents are opaque and not represented. What the file layer is asked
 to do (read, write, allocate or delete a page) is recorded in `log`, in
 order.
 */
module BufferState {
  import opened Descriptor

  /** The exceptions the buffer manager raises or lets escape. */
  datatype Error =
    | BufferExceeded   // every frame is pinned or was re-referenced
    | PageNotPinned    // unpinning a page whose pin count is zero
    | PagePinned       // flushing while a frame is pinned
    | BadBuffer        // flushing meets an invalid frame
    | NotFound         // the page table has no entry for the key
    | AlreadyPresent   // inserting a key the page table already holds

  datatype Result<T> = Ok(value: T) | Fail(error: Error)

  /** One call into the file layer. */
  datatype Event =
    | Read(key: Key)
    | Write(key: Key)
    | Allocate(key: Key)
    | Delete(key: Key)

  datatype BufMgr = BufMgr(
    numBufs: Uint32,
    descs: seq<Desc>,
    table: map<Key, FrameId>,
    clockHand: Uint32,
    log: seq<Event>)

  /** Shape facts every state the manager can reach satisfies, consistent or not. */
  ghost predicate Wf(s: BufMgr)
  {
    && |s.descs| == s.numBufs
    && (s.numBufs > 0 ==> s.clockHand < s.numBufs)
    && (forall k :: k in s.table ==> s.table[k] < s.numBufs)
    && (forall i :: 0 <= i < |s.descs| && s.descs[i].valid ==> s.descs[i].owner.Some?)
  }

  /**
   The page-table invariant: a key is in the table exactly when a valid frame
   holds that page, the table points at that frame, and every invalid frame
   is fully cleared.
   */
  ghost predicate Inv(s: BufMgr)
  {
    && Wf(s)
    && (forall k :: k in s.table ==>
          s.descs[s.table[k]].valid && s.descs[s.table[k]].owner == Some(k))
    && (forall i :: 0 <= i < |s.descs| && s.descs[i].valid ==>
          s.descs[i].owner.value in s.table && s.table[s.descs[i].owner.value] == i)
    && (forall i :: 0 <= i < |s.descs| && !s.descs[i].valid ==> s.descs[i] == Cleared)
  }

  /**
   The constructor: `bufs` invalid frames, an empty page table, and the hand
   one step behind frame 0. With no frames at all the unsigned `bufs - 1`
   wraps around.
   */
  function New(bufs: Uint32): (s: BufMgr)
    ensures Inv(s)
    ensures s.numBufs == bufs && s.table == map[] && s.log == []
    ensures forall i :: 0 <= i < bufs ==> s.descs[i] == Cleared
    ensures bufs > 0 ==> s.clockHand == bufs - 1
    ensures bufs == 0 ==> s.clockHand == 0xFFFF_FFFF
  {
    BufMgr(bufs, seq(bufs, _ => Cleared), map[], (bufs + 0xFFFF_FFFF) % 0x1_0000_0000, [])
  }

  /** No page is cached twice: distinct valid frames hold distinct pages. */
  lemma NoDuplicateCaching(s: BufMgr, i: nat, j: nat)
    requires Inv(s)
    requires i < j < s.numBufs && s.descs[i].valid && s.descs[j].valid
    ensures s.descs[i].owner != s.descs[j].owner
  {
    assert s.table[s.descs[i].owner.value] == i;
  }

  /** A key is in the page table exactly when some valid frame holds that page. */
  lemma CachedIffOwned(s: BufMgr, key: Key)
    requires Inv(s)
    ensures key in s.table <==>
      exists i :: 0 <= i < s.numBufs && s.descs[i].valid && s.descs[i].owner == Some(key)
  {
    if key in s.table {
      var i := s.table[key];
      assert s.descs[i].valid && s.descs[i].owner == Some(key);
    }
  }

  /** Frames that were valid and pinned stay valid with the same page, pins and dirty bit. */
  ghost predicate KeepsPinned(s: BufMgr, s': BufMgr)
    requires |s.descs| == |s'.descs|
  {
    forall i :: 0 <= i < |s.descs| && s.descs[i].valid && s.descs[i].pinCnt > 0 ==>
      && s'.descs[i].valid
      && s'.descs[i].owner == s.descs[i].owner
      && s'.descs[i].pinCnt >= s.descs[i].pinCnt
      && (s.descs[i].dirty ==> s'.descs[i].dirty)
  }
}
