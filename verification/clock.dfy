/**
 The clock (second-chance) replacement policy of `BufMgr`: the hand
 advances one frame at a time, a referenced frame loses its reference bit
 and is passed over, and the first free frame, or valid frame that is
 neither referenced nor pinned, becomes the victim. The search gives up
 after `numBufs * 2` inspections.
 */
module Clock {
  import opened Descriptor
  import opened BufferState

  /** Moves the hand one frame forward, wrapping at `numBufs`. */
  function AdvanceClock(hand: Uint32, numBufs: Uint32): (next: Uint32)
    requires numBufs > 0
    ensures next < numBufs
    ensures hand < numBufs ==> next == if hand + 1 == numBufs then 0 else hand + 1
  {
    var wrapped := (hand + 1) % 0x1_0000_0000;
    if hand < numBufs then
      assert wrapped == hand + 1;
      ModAtMost(wrapped, numBufs);
      wrapped % numBufs
    else
      wrapped % numBufs
  }

  /** Reducing a value no larger than the modulus. */
  lemma ModAtMost(x: nat, n: nat)
    requires 0 < n && x <= n
    ensures x % n == if x == n then 0 else x
  {
  }

  /** The limit `numBufs * 2` on the search, computed in unsigned 32-bit arithmetic. */
  function Bound(numBufs: Uint32): (b: Uint32)
    ensures b <= 2 * numBufs
    ensures numBufs < 0x8000_0000 ==> b == 2 * numBufs
    ensures numBufs >= 0x8000_0000 ==> b == 2 * numBufs - 0x1_0000_0000
  {
    (2 * numBufs) % 0x1_0000_0000
  }

  /** The hand after `k` moves from `hand`. */
  function Advanced(hand: Uint32, k: nat, numBufs: Uint32): Uint32
    requires numBufs > 0
  {
    if k == 0 then hand else AdvanceClock(Advanced(hand, k - 1, numBufs), numBufs)
  }

  /**
   The number of inspections a sweep starting just after `hand` makes before
   it first reaches frame `i`: the sweep's `p + 1`-th inspection is frame `i`.
   */
  function SweepPos(hand: nat, i: nat, n: nat): (p: nat)
    requires hand < n && i < n
    ensures p < n
    ensures i == if hand + p + 1 < n then hand + p + 1 else hand + p + 1 - n
  {
    if hand < i then i - hand - 1 else i + n - hand - 1
  }

  /** The sweep position of inspection `j + 1`, which is on the first or second lap. */
  function LapPos(j: nat, n: nat): nat
  {
    if j < n then j else j - n
  }

  /**
   What a sweep of `k` inspections does to a frame it does not take, the
   frame sitting at position `pos` of the sweep: a frame the sweep reached
   is valid and was referenced or pinned, and only its reference bit is
   cleared; a frame reached twice is pinned; a frame not reached is unchanged.
   */
  ghost predicate PassedOver(d: Desc, d': Desc, pos: nat, k: nat, n: nat)
  {
    if pos < k then
      && d.valid
      && (d.refbit || d.pinCnt > 0)
      && (pos + n < k ==> d.pinCnt > 0)
      && d' == d.(refbit := false)
    else
      d' == d
  }

  /**
   The frame the sweep stops at after `k` inspections: free or unpinned, and
   reached on the second lap exactly when its reference bit had to be spent
   on the first.
   */
  ghost predicate Chosen(d: Desc, k: nat, n: nat)
  {
    && (!d.valid || d.pinCnt == 0)
    && (k > n <==> d.valid && d.refbit)
  }

  /** The write of a victim's page that must precede reuse of its frame. */
  function WriteBack(d: Desc): seq<Event>
    requires d.owner.Some?
  {
    if d.dirty then [Write(d.owner.value)] else []
  }

  /**
   The effect on the frame `v` the sweep takes: a free frame is taken as it
   is; a valid victim is written back if dirty, cleared, and its key is
   dropped from the page table.
   */
  ghost predicate Evicted(s: BufMgr, s': BufMgr, v: nat)
    requires Wf(s) && v < s.numBufs && |s'.descs| == s.numBufs
  {
    var d := s.descs[v];
    if !d.valid then
      s'.descs[v] == d && s'.table == s.table && s'.log == s.log
    else
      && s'.descs[v] == Cleared
      && s'.log == s.log + WriteBack(d)
      && s'.table == s.table - {d.owner.value}
  }

  /** The sweep after `k` inspections: descriptors `descs`, hand at `hand`. */
  ghost predicate Swept(s: BufMgr, descs: seq<Desc>, hand: Uint32, k: nat)
  {
    && Wf(s)
    && |descs| == s.numBufs
    && (k == 0 ==> hand == s.clockHand && descs == s.descs)
    && (s.numBufs > 0 ==> hand == Advanced(s.clockHand, k, s.numBufs))
    && (k > 0 ==>
          && s.numBufs > 0 && hand < s.numBufs
          && SweepPos(s.clockHand, hand, s.numBufs) == LapPos(k - 1, s.numBufs))
    && (forall i :: 0 <= i < s.numBufs ==>
          PassedOver(s.descs[i], descs[i], SweepPos(s.clockHand, i, s.numBufs), k, s.numBufs))
  }

  /**
   `s'` is `s` after a sweep of `k` inspections: the shape is kept, the hand
   has moved `k` frames, and every frame was passed over or not reached,
   except the frame under the hand when `took` holds.
   */
  ghost predicate SweepEffect(s: BufMgr, s': BufMgr, k: nat, took: bool)
    requires Wf(s)
  {
    var n := s.numBufs;
    && Wf(s') && s'.numBufs == n
    && (n == 0 ==> s' == s)
    && (n > 0 ==> s'.clockHand == Advanced(s.clockHand, k, n))
    && (forall i :: 0 <= i < n && (!took || i != s'.clockHand) ==>
          PassedOver(s.descs[i], s'.descs[i], SweepPos(s.clockHand, i, n), k, n))
  }

  /** The search ran out after `Bound(numBufs)` inspections: `BufferExceeded`, no I/O, no eviction. */
  ghost predicate RanOut(s: BufMgr, s': BufMgr, r: Result<FrameId>, k: nat)
    requires Wf(s)
  {
    && r == Fail(BufferExceeded)
    && k == Bound(s.numBufs)
    && SweepEffect(s, s', k, false)
    && s'.table == s.table && s'.log == s.log
  }

  /**
   The search stopped on its `k`-th inspection at the frame under the hand
   and took it. It hands the frame out, unless the victim's page was
   missing from the page table, in which case `NotFound` escapes after
   the victim was cleared.
   */
  ghost predicate TookFrame(s: BufMgr, s': BufMgr, r: Result<FrameId>, k: nat)
    requires Wf(s)
  {
    var n := s.numBufs;
    && 0 < k <= Bound(n)
    && SweepEffect(s, s', k, true)
    && s'.clockHand < n
    && var v := s'.clockHand;
    && Chosen(s.descs[v], k, n)
    && Evicted(s, s', v)
    && r == if !s.descs[v].valid || s.descs[v].owner.value in s.table then Ok(v) else Fail(NotFound)
  }

  /** What `allocBuf` promises: the search either ran out or took a frame. */
  ghost predicate AllocBufSpec(s: BufMgr, s': BufMgr, r: Result<FrameId>, k: nat)
    requires Wf(s)
  {
    RanOut(s, s', r, k) || TookFrame(s, s', r, k)
  }

  /**
   `allocBuf`: finds a frame for a new page by a clock sweep of at most
   `Bound(numBufs)` inspections; `k` is the number of frames inspected.
   */
  method AllocBuf(s: BufMgr) returns (s': BufMgr, r: Result<FrameId>, k: nat)
    requires Wf(s)
    ensures AllocBufSpec(s, s', r, k)
  {
    var n := s.numBufs;
    var bound := Bound(n);
    var count: nat := 1;
    var descs := s.descs;
    var hand := s.clockHand;
    SweepStart(s);
    while count <= bound
      invariant 1 <= count <= bound + 1
      invariant Swept(s, descs, hand, count - 1)
      decreases bound + 1 - count
    {
      SweepStep(s, descs, hand, count);
      var prev := hand;
      count := count + 1;
      hand := AdvanceClock(hand, n);
      var d := descs[hand];
      if d.valid {
        if !d.refbit {
          if d.pinCnt == 0 {
            var key := d.owner.value;
            s' := s.(descs := descs[hand := Cleared], clockHand := hand,
                     log := s.log + WriteBack(d), table := s.table - {key});
            r := if key in s.table then Ok(hand) else Fail(NotFound);
            k := count - 1;
            TakeVictim(s, descs, prev, k, s', r);
            return;
          }
        } else {
          descs := descs[hand := d.(refbit := false)];
        }
      } else {
        s', r, k := s.(descs := descs, clockHand := hand), Ok(hand), count - 1;
        TakeFree(s, descs, prev, k, s', r);
        return;
      }
    }
    s', r, k := s.(descs := descs, clockHand := hand), Fail(BufferExceeded), count - 1;
    Exhausted(s, descs, hand, k, s', r);
  }

  /** Before the first inspection nothing has been reached. */
  lemma SweepStart(s: BufMgr)
    requires Wf(s)
    ensures Swept(s, s.descs, s.clockHand, 0)
  {
  }

  /** Inspection `k` of the sweep: where it lands and how passing over a frame continues the sweep. */
  lemma SweepStep(s: BufMgr, descs: seq<Desc>, hand: Uint32, k: nat)
    requires 0 < k && Swept(s, descs, hand, k - 1) && s.numBufs > 0 && k <= Bound(s.numBufs)
    ensures var n := s.numBufs; var next := AdvanceClock(hand, n); var d := descs[next];
      && next == Advanced(s.clockHand, k, n)
      && SweepPos(s.clockHand, next, n) == LapPos(k - 1, n)
      && (k <= n ==> d == s.descs[next])
      && (k > n ==> PassedOver(s.descs[next], d, k - 1 - n, k - 1, n))
      && d.owner == s.descs[next].owner
      && (d.valid && d.refbit ==> Swept(s, descs[next := d.(refbit := false)], next, k))
      && (d.valid && !d.refbit && d.pinCnt > 0 ==> Swept(s, descs, next, k))
  {
    var n := s.numBufs;
    var next := AdvanceClock(hand, n);
    NextPos(s.clockHand, hand, k, n);
    var d := descs[next];
    if d.valid && d.refbit {
      PassOver(s, descs, next, k, descs[next := d.(refbit := false)]);
    } else if d.valid && !d.refbit && d.pinCnt > 0 {
      PassOver(s, descs, next, k, descs);
    }
  }

  /** The hand's `k`-th move lands on sweep position `k - 1`, modulo one lap. */
  lemma NextPos(h0: Uint32, hand: Uint32, k: nat, n: Uint32)
    requires 0 < n && h0 < n && 0 < k <= 2 * n
    requires k == 1 ==> hand == h0
    requires k > 1 ==> hand < n && SweepPos(h0, hand, n) == LapPos(k - 2, n)
    ensures SweepPos(h0, AdvanceClock(hand, n), n) == LapPos(k - 1, n)
  {
  }

  /**
   Passing over the frame `next` met on inspection `k` (clearing its
   reference bit, or leaving a pinned frame alone) extends the sweep.
   */
  lemma PassOver(s: BufMgr, descs: seq<Desc>, next: nat, k: nat, descs': seq<Desc>)
    requires Wf(s) && 0 < k <= Bound(s.numBufs) && |descs| == s.numBufs && next < s.numBufs
    requires forall i :: 0 <= i < s.numBufs ==>
      PassedOver(s.descs[i], descs[i], SweepPos(s.clockHand, i, s.numBufs), k - 1, s.numBufs)
    requires SweepPos(s.clockHand, next, s.numBufs) == LapPos(k - 1, s.numBufs)
    requires descs[next].valid && (descs[next].refbit || descs[next].pinCnt > 0)
    requires descs' == descs[next := descs[next].(refbit := false)] || (!descs[next].refbit && descs' == descs)
    ensures forall i :: 0 <= i < s.numBufs ==>
      PassedOver(s.descs[i], descs'[i], SweepPos(s.clockHand, i, s.numBufs), k, s.numBufs)
  {
    var n := s.numBufs;
    forall i | 0 <= i < n
      ensures PassedOver(s.descs[i], descs'[i], SweepPos(s.clockHand, i, n), k, n)
    {
      var pos := SweepPos(s.clockHand, i, n);
      if i != next {
        assert pos != LapPos(k - 1, n);
      }
    }
  }

  /** Taking the free frame met on inspection `k` meets the specification. */
  lemma TakeFree(s: BufMgr, descs: seq<Desc>, hand: Uint32, k: nat, s': BufMgr, r: Result<FrameId>)
    requires 0 < k && Swept(s, descs, hand, k - 1) && s.numBufs > 0 && k <= Bound(s.numBufs)
    requires !descs[AdvanceClock(hand, s.numBufs)].valid
    requires s' == s.(descs := descs, clockHand := AdvanceClock(hand, s.numBufs))
    requires r == Ok(s'.clockHand)
    ensures AllocBufSpec(s, s', r, k)
  {
    SweepStep(s, descs, hand, k);
  }

  /** Evicting the unreferenced, unpinned frame met on inspection `k` meets the specification. */
  lemma TakeVictim(s: BufMgr, descs: seq<Desc>, hand: Uint32, k: nat, s': BufMgr, r: Result<FrameId>)
    requires 0 < k && Swept(s, descs, hand, k - 1) && s.numBufs > 0 && k <= Bound(s.numBufs)
    requires var d := descs[AdvanceClock(hand, s.numBufs)];
      d.valid && !d.refbit && d.pinCnt == 0 && d.owner.Some?
    requires var next := AdvanceClock(hand, s.numBufs);
      var d := descs[next];
      var key := d.owner.value;
      && s' == s.(descs := descs[next := Cleared], clockHand := next,
                  log := s.log + WriteBack(d), table := s.table - {key})
      && r == if key in s.table then Ok(next) else Fail(NotFound)
    ensures AllocBufSpec(s, s', r, k)
  {
    SweepStep(s, descs, hand, k);
  }

  /** A sweep that used up all `Bound(numBufs)` inspections fails with `BufferExceeded`. */
  lemma Exhausted(s: BufMgr, descs: seq<Desc>, hand: Uint32, k: nat, s': BufMgr, r: Result<FrameId>)
    requires Swept(s, descs, hand, k) && k == Bound(s.numBufs)
    requires s' == s.(descs := descs, clockHand := hand) && r == Fail(BufferExceeded)
    ensures AllocBufSpec(s, s', r, k)
  {
  }

  /** The search never takes a pinned page: valid pinned frames keep their page, pins and dirty bit. */
  lemma AllocBufKeepsPinned(s: BufMgr, s': BufMgr, r: Result<FrameId>, k: nat)
    requires Wf(s) && AllocBufSpec(s, s', r, k)
    ensures KeepsPinned(s, s')
    ensures forall i :: 0 <= i < s.numBufs && s.descs[i].valid && s.descs[i].pinCnt > 0 ==>
      s'.descs[i].pinCnt == s.descs[i].pinCnt && s'.descs[i].dirty == s.descs[i].dirty
  {
  }

  /**
   The search keeps the page-table invariant; under it the victim's page is
   always in the table, and the frame handed out is cleared.
   */
  lemma AllocBufKeepsInv(s: BufMgr, s': BufMgr, r: Result<FrameId>, k: nat)
    requires Wf(s) && AllocBufSpec(s, s', r, k)
    ensures Inv(s) ==> Inv(s') && r != Fail(NotFound) && (r.Ok? ==> s'.descs[r.value] == Cleared)
  {
  }

  /**
   An exhausted search, for fewer than 2^31 frames, means every frame was
   valid and pinned: two full laps found nothing free or unpinned.
   */
  lemma ExhaustedMeansAllPinned(s: BufMgr, s': BufMgr, r: Result<FrameId>, k: nat)
    requires Wf(s) && AllocBufSpec(s, s', r, k)
    requires r == Fail(BufferExceeded) && s.numBufs < 0x8000_0000
    ensures forall i :: 0 <= i < s.numBufs ==> s.descs[i].valid && s.descs[i].pinCnt > 0
  {
  }

  /** If every frame is valid and pinned the search fails after exactly `Bound(numBufs)` inspections. */
  lemma AllPinnedMeansExhausted(s: BufMgr, s': BufMgr, r: Result<FrameId>, k: nat)
    requires Wf(s) && AllocBufSpec(s, s', r, k)
    requires forall i :: 0 <= i < s.numBufs ==> s.descs[i].valid && s.descs[i].pinCnt > 0
    ensures r == Fail(BufferExceeded) && k == Bound(s.numBufs)
  {
  }
}
