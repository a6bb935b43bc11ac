/**
 The public operations of `BufMgr`: reading, unpinning, allocating,
 flushing and disposing of pages. Each takes the manager's state and
 returns the next state and an outcome; an exception of the C++ code
 becomes a `Fail` outcome together with the state reached when it was
 raised.
 */
module Manager {
  import opened Descriptor
  import opened BufferState
  import opened Clock

  /** Frame `v` holds `key` for one caller and the page table maps `key` to it. */
  function Install(s: BufMgr, key: Key, v: FrameId): BufMgr
    requires v < |s.descs|
  {
    s.(descs := s.descs[v := Set(key)], table := s.table[key := v])
  }

  /** Installing a page in a cleared frame under a fresh key keeps the page-table invariant. */
  lemma InstallKeepsInv(s: BufMgr, key: Key, v: FrameId)
    requires Inv(s) && v < s.numBufs && s.descs[v] == Cleared && key !in s.table
    ensures Inv(Install(s, key, v))
    ensures key in Install(s, key, v).table
  {
    var s' := Install(s, key, v);
    forall k | k in s'.table
      ensures s'.descs[s'.table[k]].valid && s'.descs[s'.table[k]].owner == Some(k)
    {
      if k != key {
        assert s.table[k] != v;
      }
    }
  }

  /**
   A cache hit on frame `f`: its reference bit is set and its pin count
   goes up by exactly one; nothing else changes and the file layer is not
   called.
   */
  ghost predicate Touched(s: BufMgr, s': BufMgr, f: FrameId)
    requires f < |s.descs|
  {
    && |s'.descs| == |s.descs|
    && s'.descs[f].refbit
    && s'.descs[f].pinCnt == s.descs[f].pinCnt + 1
    && s'.descs[f].valid == s.descs[f].valid
    && s'.descs[f].dirty == s.descs[f].dirty
    && s'.descs[f].owner == s.descs[f].owner
    && (forall i :: 0 <= i < |s.descs| && i != f ==> s'.descs[i] == s.descs[i])
    && s'.numBufs == s.numBufs && s'.table == s.table
    && s'.log == s.log && s'.clockHand == s.clockHand
  }

  /** Pinning a cached page once more keeps the page-table invariant. */
  lemma TouchKeepsInv(s: BufMgr, s': BufMgr, f: FrameId)
    requires Inv(s) && f < s.numBufs && s.descs[f].valid && Touched(s, s', f)
    ensures Inv(s')
  {
    forall i | 0 <= i < s.numBufs
      ensures s'.descs[i].valid == s.descs[i].valid && s'.descs[i].owner == s.descs[i].owner
      ensures !s'.descs[i].valid ==> s'.descs[i] == s.descs[i]
    {
    }
  }

  /**
   `readPage`: a cached page is pinned once more; otherwise a frame is found
   by `AllocBuf` (whose intermediate state is `mid` after `k` inspections),
   the page is read from its file and installed, pinned once.
   */
  method ReadPage(s: BufMgr, key: Key)
    returns (s': BufMgr, r: Result<FrameId>, ghost mid: BufMgr, ghost k: nat)
    requires Wf(s)
    ensures Wf(s') && s'.numBufs == s.numBufs
    ensures key in s.table ==> r == Ok(s.table[key]) && Touched(s, s', s.table[key])
    ensures key !in s.table ==> AllocBufSpec(s, mid, r, k) && (r.Fail? ==> s' == mid)
    ensures key !in s.table && r.Ok? ==>
      key !in mid.table && s' == Install(mid.(log := mid.log + [Read(key)]), key, r.value)
    ensures r.Ok? ==>
      key in s'.table && s'.table[key] == r.value
      && s'.descs[r.value].refbit && s'.descs[r.value].pinCnt >= 1
    ensures key !in s.table && r.Ok? ==> s'.descs[r.value] == Set(key)
    ensures KeepsPinned(s, s')
    ensures Inv(s) ==> Inv(s') && (r.Fail? ==> r.error == BufferExceeded)
  {
    if key in s.table {
      var f := s.table[key];
      var d := s.descs[f];
      s', r := s.(descs := s.descs[f := d.(refbit := true, pinCnt := d.pinCnt + 1)]), Ok(f);
      mid, k := s, 0;
      if Inv(s) {
        TouchKeepsInv(s, s', f);
      }
    } else {
      var m, found, inspected := AllocBuf(s);
      mid, k := m, inspected;
      AllocBufKeepsPinned(s, m, found, inspected);
      AllocBufKeepsInv(s, m, found, inspected);
      if found.Fail? {
        s', r := m, found;
      } else {
        var v := found.value;
        var loaded := m.(log := m.log + [Read(key)]);
        s', r := Install(loaded, key, v), Ok(v);
        InvIgnoresLog(m, loaded.log);
        if Inv(loaded) {
          InstallKeepsInv(loaded, key, v);
        }
      }
    }
  }

  /**
   `unPinPage`: drops one pin of a cached page and marks it dirty when asked;
   a false `dirty` never cleans a page.
   */
  method UnPinPage(s: BufMgr, key: Key, dirty: bool) returns (s': BufMgr, r: Result<()>)
    requires Wf(s)
    ensures Wf(s')
    ensures key !in s.table ==> s' == s
    ensures r == Fail(NotFound) <==> key !in s.table
    ensures key in s.table ==>
      var f := s.table[key];
      && (r == Fail(PageNotPinned) <==> s.descs[f].pinCnt == 0)
      && (r.Fail? ==> s' == s)
      && (r.Ok? ==>
            && |s'.descs| == s.numBufs
            && s'.descs[f].pinCnt == s.descs[f].pinCnt - 1
            && s'.descs[f].dirty == (s.descs[f].dirty || dirty)
            && s'.descs[f].valid == s.descs[f].valid
            && s'.descs[f].refbit == s.descs[f].refbit
            && s'.descs[f].owner == s.descs[f].owner
            && (forall i :: 0 <= i < s.numBufs && i != f ==> s'.descs[i] == s.descs[i])
            && s'.numBufs == s.numBufs && s'.table == s.table
            && s'.log == s.log && s'.clockHand == s.clockHand)
    ensures r.Fail? ==> r.error == NotFound || r.error == PageNotPinned
    ensures Inv(s) ==> Inv(s')
  {
    if key !in s.table {
      return s, Fail(NotFound);
    }
    var f := s.table[key];
    var d := s.descs[f];
    if d.pinCnt == 0 {
      return s, Fail(PageNotPinned);
    }
    if dirty {
      d := d.(dirty := dirty);
    }
    d := d.(pinCnt := d.pinCnt - 1);
    s', r := s.(descs := s.descs[f := d]), Ok(());
  }

  /**
   `allocPage`: asks the file for a new page `newPage` first, then finds a
   frame for it with `AllocBuf` (outcome `found`, state `mid`, `k`
   inspections) and installs it pinned once. The page stays allocated in
   the file whatever happens after.
   */
  method AllocPage(s: BufMgr, file: FileId, newPage: PageId)
    returns (s': BufMgr, r: Result<FrameId>,
             ghost mid: BufMgr, ghost found: Result<FrameId>, ghost k: nat)
    requires Wf(s)
    ensures Wf(s') && s'.numBufs == s.numBufs
    ensures var key := Key(file, newPage);
      && AllocBufSpec(s.(log := s.log + [Allocate(key)]), mid, found, k)
      && (found.Fail? ==> s' == mid && r == found)
      && (found.Ok? && key in mid.table ==> s' == mid && r == Fail(AlreadyPresent))
      && (found.Ok? && key !in mid.table ==> s' == Install(mid, key, found.value) && r == found)
    ensures s.log + [Allocate(Key(file, newPage))] <= s'.log
    ensures r.Ok? ==>
      Key(file, newPage) in s'.table && s'.table[Key(file, newPage)] == r.value
      && s'.descs[r.value] == Set(Key(file, newPage))
    ensures KeepsPinned(s, s')
    ensures Inv(s) ==> Inv(s') && r != Fail(NotFound)
  {
    var key := Key(file, newPage);
    var withAlloc := s.(log := s.log + [Allocate(key)]);
    var m, f, inspected := AllocBuf(withAlloc);
    mid, found, k := m, f, inspected;
    AllocBufKeepsPinned(withAlloc, m, f, inspected);
    AllocBufKeepsInv(withAlloc, m, f, inspected);
    AllocBufLogGrows(withAlloc, m, f, inspected);
    InvIgnoresLog(s, withAlloc.log);
    if f.Fail? {
      s', r := m, f;
    } else if key in m.table {
      s', r := m, Fail(AlreadyPresent);
    } else {
      s', r := Install(m, key, f.value), f;
      if Inv(m) {
        InstallKeepsInv(m, key, f.value);
      }
    }
  }

  /** The page-table invariant says nothing about the file layer's log. */
  lemma InvIgnoresLog(s: BufMgr, log: seq<Event>)
    ensures Inv(s) <==> Inv(s.(log := log))
  {
  }

  /** The searches only append to the log. */
  lemma AllocBufLogGrows(s: BufMgr, s': BufMgr, r: Result<FrameId>, k: nat)
    requires Wf(s) && AllocBufSpec(s, s', r, k)
    ensures s.log <= s'.log
  {
  }

  /** The write-backs `flushFile` makes for the frames `ds`, in order, all addressed to `file`. */
  function FlushWrites(file: FileId, ds: seq<Desc>): seq<Event>
  {
    if |ds| == 0 then []
    else
      var d := ds[|ds| - 1];
      FlushWrites(file, ds[..|ds| - 1])
        + (if d.dirty && d.owner.Some? then [Write(Key(file, d.owner.value.page))] else [])
  }

  /** The page-table keys `flushFile` removes for the frames `ds`: their pages, under `file`. */
  function FlushedKeys(file: FileId, ds: seq<Desc>): set<Key>
  {
    set i | 0 <= i < |ds| && ds[i].owner.Some? :: Key(file, ds[i].owner.value.page)
  }

  /**
   The write-backs are exactly the dirty frames' pages, addressed to `file`:
   an event is written back if and only if some dirty frame holds that page
   number.
   */
  lemma {:induction false} FlushWritesAreDirtyPages(file: FileId, ds: seq<Desc>, e: Event)
    ensures e in FlushWrites(file, ds) <==>
      exists j :: 0 <= j < |ds| && ds[j].dirty && ds[j].owner.Some?
        && e == Write(Key(file, ds[j].owner.value.page))
  {
    if |ds| > 0 {
      var front := ds[..|ds| - 1];
      FlushWritesAreDirtyPages(file, front, e);
      if exists j :: (0 <= j < |front| && front[j].dirty && front[j].owner.Some?
        && e == Write(Key(file, front[j].owner.value.page)))
      {
        var j :| 0 <= j < |front| && front[j].dirty && front[j].owner.Some?
          && e == Write(Key(file, front[j].owner.value.page));
        assert ds[j] == front[j];
      }
    }
  }

  /** Flushing frame `i` of `t` for `file`: write back if dirty, drop the key, clear the frame. */
  function FlushFrame(t: BufMgr, file: FileId, i: nat): BufMgr
    requires i < |t.descs| && t.descs[i].owner.Some?
  {
    var d := t.descs[i];
    var key := Key(file, d.owner.value.page);
    t.(descs := t.descs[i := Cleared],
       log := t.log + (if d.dirty then [Write(key)] else []),
       table := t.table - {key})
  }

  /**
   The state once `flushFile` has flushed frames `0 .. i - 1` of `s` for
   `file`: those frames cleared, their dirty pages written back and their
   keys removed; everything else as in `s`.
   */
  function FlushedPrefix(s: BufMgr, file: FileId, i: nat): (t: BufMgr)
    requires Wf(s) && i <= s.numBufs
    ensures |t.descs| == s.numBufs && t.numBufs == s.numBufs && t.clockHand == s.clockHand
    ensures forall j :: 0 <= j < i ==> t.descs[j] == Cleared
    ensures forall j :: i <= j < s.numBufs ==> t.descs[j] == s.descs[j]
    ensures Wf(t)
  {
    s.(descs := seq(i, _ => Cleared) + s.descs[i..],
       log := s.log + FlushWrites(file, s.descs[..i]),
       table := s.table - FlushedKeys(file, s.descs[..i]))
  }

  /** Every valid frame holds a page of `file`. */
  ghost predicate AllOwnedBy(s: BufMgr, file: FileId)
  {
    forall i :: 0 <= i < |s.descs| && s.descs[i].valid ==>
      s.descs[i].owner.Some? && s.descs[i].owner.value.file == file
  }

  /**
   `flushFile`: visits the frames in index order, writing back dirty pages
   and clearing each frame, and stops at frame `stop`, the first that is
   pinned (`PagePinned`) or invalid (`BadBuffer`). Frames before `stop`
   stay flushed. The file passed in, not the frame's owner, is the one
   written to and whose keys are removed.
   */
  method FlushFile(s: BufMgr, file: FileId) returns (s': BufMgr, r: Result<()>, stop: nat)
    requires Wf(s)
    ensures stop <= s.numBufs && s' == FlushedPrefix(s, file, stop)
    ensures forall i :: 0 <= i < stop ==> s.descs[i].valid && s.descs[i].pinCnt == 0
    ensures stop < s.numBufs ==> s.descs[stop].pinCnt != 0 || !s.descs[stop].valid
    ensures r.Ok? <==> stop == s.numBufs
    ensures r.Fail? ==>
      r.error == if s.descs[stop].pinCnt != 0 then PagePinned else BadBuffer
    ensures Inv(s) && AllOwnedBy(s, file) ==> Inv(s')
  {
    var n := s.numBufs;
    var t := s;
    var i := 0;
    FlushNothing(s, file);
    while i < n
      invariant 0 <= i <= n
      invariant forall j :: 0 <= j < i ==> s.descs[j].valid && s.descs[j].pinCnt == 0
      invariant t == FlushedPrefix(s, file, i)
    {
      var d := t.descs[i];
      if d.pinCnt != 0 {
        FlushedKeepsInv(s, file, i);
        return t, Fail(PagePinned), i;
      }
      if !d.valid {
        FlushedKeepsInv(s, file, i);
        return t, Fail(BadBuffer), i;
      }
      FlushNext(s, file, i);
      t := FlushFrame(t, file, i);
      i := i + 1;
    }
    FlushedKeepsInv(s, file, n);
    s', r, stop := t, Ok(()), n;
  }

  /** Flushing no frames changes nothing. */
  lemma FlushNothing(s: BufMgr, file: FileId)
    requires Wf(s)
    ensures FlushedPrefix(s, file, 0) == s
  {
    assert FlushedPrefix(s, file, 0).descs == s.descs;
  }

  /** Flushing one more valid frame extends the prefix by one. */
  lemma FlushNext(s: BufMgr, file: FileId, i: nat)
    requires Wf(s) && i < s.numBufs && s.descs[i].valid
    ensures FlushFrame(FlushedPrefix(s, file, i), file, i) == FlushedPrefix(s, file, i + 1)
  {
    var ds := s.descs;
    assert ds[..i + 1][..i] == ds[..i];
    assert FlushedKeys(file, ds[..i + 1]) ==
      FlushedKeys(file, ds[..i]) + {Key(file, ds[i].owner.value.page)};
    assert FlushFrame(FlushedPrefix(s, file, i), file, i).descs == FlushedPrefix(s, file, i + 1).descs;
  }

  /**
   When every valid frame belongs to `file`, the keys a flush of the first
   `stop` frames removes are exactly those the table maps below `stop`.
   */
  lemma FlushedKeysBelow(s: BufMgr, file: FileId, stop: nat, k: Key)
    requires Inv(s) && AllOwnedBy(s, file) && stop <= s.numBufs
    requires forall j :: 0 <= j < stop ==> s.descs[j].valid
    ensures k in FlushedKeys(file, s.descs[..stop]) <==> k in s.table && s.table[k] < stop
  {
    var ds := s.descs[..stop];
    if k in FlushedKeys(file, ds) {
      var j :| 0 <= j < |ds| && ds[j].owner.Some? && k == Key(file, ds[j].owner.value.page);
      assert s.descs[j].owner == Some(k);
    }
    if k in s.table && s.table[k] < stop {
      var j := s.table[k];
      assert ds[j].owner == Some(k);
    }
  }

  /**
   When every valid frame belongs to `file`, a flushed prefix of valid
   frames keeps the page-table invariant.
   */
  lemma FlushedKeepsInv(s: BufMgr, file: FileId, stop: nat)
    requires Wf(s) && stop <= s.numBufs
    requires forall j :: 0 <= j < stop ==> s.descs[j].valid
    ensures Inv(s) && AllOwnedBy(s, file) ==> Inv(FlushedPrefix(s, file, stop))
  {
    if Inv(s) && AllOwnedBy(s, file) {
      var t := FlushedPrefix(s, file, stop);
      forall k | k in t.table
        ensures s.table[k] >= stop
      {
        FlushedKeysBelow(s, file, stop, k);
      }
      forall j | 0 <= j < s.numBufs && t.descs[j].valid
        ensures t.descs[j].owner.value in t.table
      {
        FlushedKeysBelow(s, file, stop, t.descs[j].owner.value);
      }
    }
  }

  /**
   `disposePage`: drops a cached page from its frame and the page table,
   pinned or not, and always asks the file to delete the page.
   */
  method DisposePage(s: BufMgr, key: Key) returns (s': BufMgr)
    requires Wf(s)
    ensures Wf(s') && s'.numBufs == s.numBufs && s'.clockHand == s.clockHand
    ensures key !in s'.table
    ensures s'.log == s.log + [Delete(key)]
    ensures key in s.table ==>
      && s'.descs[s.table[key]] == Cleared
      && (forall i :: 0 <= i < s.numBufs && i != s.table[key] ==> s'.descs[i] == s.descs[i])
      && s'.table == s.table - {key}
    ensures key !in s.table ==> s'.descs == s.descs && s'.table == s.table
    ensures Inv(s) ==> Inv(s')
  {
    s' := s;
    if key in s.table {
      var f := s.table[key];
      s' := s'.(descs := s'.descs[f := Cleared], table := s'.table - {key});
      if Inv(s) {
        forall k | k in s'.table
          ensures s'.descs[s'.table[k]].valid && s'.descs[s'.table[k]].owner == Some(k)
        {
          assert s.table[k] != f;
        }
      }
    }
    s' := s'.(log := s'.log + [Delete(key)]);
  }
}
