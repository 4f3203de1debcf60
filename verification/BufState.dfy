/**
  The buffer pool as a value: frame descriptors, frame contents, the page-to-frame index,
  the pages on disk, and `view`, the bytes a client finds when it asks for a page.  Each
  operation of the buffer manager is a step on this value; the lemmas say that every step
  keeps pool plus disk a faithful image of `view`.
 */
module BufferState {
  import opened Files
  import opened BufferHash
  import opened ClockPolicy

  /** No frame is reserved. */
  const NONE := -1

  /** What an open file has room for: its pages, and the list of those that are free. */
  datatype Extent = Extent(size: int, free: seq<int>) {

    /** The page allocatePage hands out. */
    function First(): int { if free == [] then size else free[0] }

    function Taken(): Extent { if free == [] then Extent(size + 1, []) else Extent(size, free[1..]) }

    function Given(p: int): Extent { Extent(size, [p] + free) }
  }

  datatype Pool = Pool(
    table: seq<BufDesc>, frames: seq<Block>, entries: map<PageId, int>,
    disk: map<PageId, Block>, view: map<PageId, Block>)
  {
    /** Valid frames other than `hole` are indexed; invalid ones name no file. */
    ghost predicate FrameOk(i: int, hole: int)
      requires 0 <= i < |table|
    {
      var d := table[i];
      && d.pinCnt >= 0
      && (!d.valid ==> d.file == null && !d.dirty)
      && (d.valid && i != hole ==>
            d.file != null && PageId(d.file, d.pageNo) in entries && entries[PageId(d.file, d.pageNo)] == i)
    }

    /** The index leads to the frame that holds the page, whose bytes are what the client sees;
        if nobody has it pinned and it is clean, the disk has those bytes too. */
    ghost predicate EntryOk(id: PageId, hole: int)
      requires id in entries && |frames| == |table|
    {
      var i := entries[id];
      && 0 <= i < |table| && i != hole
      && table[i].valid && table[i].file == id.file && table[i].pageNo == id.pageNo
      && id in view && id in disk && frames[i] == view[id]
      && (table[i].pinCnt == 0 && !table[i].dirty ==> disk[id] == view[id])
    }

    /** A page that is not resident is on disk as the client knows it. */
    ghost predicate Backed(id: PageId) {
      id in view && id in disk && (id !in entries ==> disk[id] == view[id])
    }

    /** Coherence and index agreement, except that frame `hole` may be between owners. */
    ghost predicate Ok(hole: int) {
      |frames| == |table| && disk.Keys == view.Keys && forall h {:trigger Coherent(h)} | h == hole :: Coherent(h)
    }

    ghost predicate Coherent(hole: int)
      requires |frames| == |table|
    {
      && (forall i {:trigger FrameOk(i, hole)} | 0 <= i < |table| :: FrameOk(i, hole))
      && (forall id {:trigger EntryOk(id, hole)} | id in entries :: EntryOk(id, hole))
      && forall id {:trigger Backed(id)} | id in view :: Backed(id)
    }

    ghost function Pins(id: PageId): int {
      if id in entries && 0 <= entries[id] < |table| then table[entries[id]].pinCnt else 0
    }

    /** The frame of a resident page is marked dirty, or the disk has its bytes. */
    ghost predicate OnDiskAs(id: PageId) {
      && id in entries && 0 <= entries[id] < |table| && id in disk && id in view
      && (table[entries[id]].dirty || disk[id] == view[id])
    }

    /** The disk has the bytes of the page, or its frame is marked to be written. */
    ghost predicate Saved(id: PageId) {
      && id in disk && id in view
      && (disk[id] == view[id] || (id in entries && 0 <= entries[id] < |table| && table[entries[id]].dirty))
    }

    /** Frame i holds the page, with the bytes its clients know. */
    ghost predicate Holds(id: PageId, i: int) {
      && id in entries && entries[id] == i && 0 <= i < |table| && i < |frames|
      && id in view && frames[i] == view[id]
    }

    ghost function Owner(i: int): PageId
      requires 0 <= i < |table| && table[i].file != null
    {
      PageId(table[i].file, table[i].pageNo)
    }

    /** Frame i, if it is valid, has an owner that the index does not know. */
    ghost predicate Orphaned(i: int)
      requires 0 <= i < |table|
    {
      table[i].valid ==> table[i].file != null && Owner(i) !in entries
    }

    // ---- Steps ----

    /** The clock has chosen frame v: its page leaves the index, and goes to disk if dirty. */
    ghost function Evict(v: int): Pool
      requires 0 <= v < |table| == |frames| && (table[v].valid ==> table[v].file != null)
    {
      if !table[v].valid then this
      else if table[v].dirty then
        this.(entries := entries - {Owner(v)}, disk := disk[Owner(v) := frames[v]])
      else this.(entries := entries - {Owner(v)})
    }

    /** Frame v is set up for a page, with these bytes in it. */
    ghost function Install(v: int, id: PageId, b: Block): Pool
      requires 0 <= v < |table| == |frames|
    {
      Pool(table[v := Set(id)], frames[v := b], entries[id := v], disk, view[id := b])
    }

    /** A resident page gets a new pin count, dirty bit, reference bit and bytes. */
    ghost function Update(id: PageId, pinCnt: int, dirty: bool, refbit: bool, b: Block): Pool
      requires id in entries && 0 <= entries[id] < |table| == |frames|
    {
      var i := entries[id];
      this.(table := table[i := table[i].(pinCnt := pinCnt, dirty := dirty, refbit := refbit)],
            frames := frames[i := b], view := view[id := b])
    }

    /** The frame of a page after unPinPage. */
    ghost function Released(id: PageId, dirty: bool): BufDesc
      requires id in entries && 0 <= entries[id] < |table|
    {
      var d := table[entries[id]];
      d.(dirty := d.dirty || dirty, pinCnt := if d.pinCnt == 0 then 0 else d.pinCnt - 1)
    }

    ghost function UnPinned(id: PageId, dirty: bool): Pool
      requires id in entries && 0 <= entries[id] < |table| == |frames|
    {
      var d := Released(id, dirty);
      Update(id, d.pinCnt, d.dirty, d.refbit, frames[entries[id]])
    }

    /** flushFile's treatment of one frame: written back if dirty, then made invalid. */
    ghost function Flush(i: int): Pool
      requires 0 <= i < |table| == |frames| && table[i].valid && table[i].file != null
    {
      Evict(i).(table := table[i := table[i].(file := null, pageNo := -1, valid := false, dirty := false)])
    }

    /** The frame of a page is cleared without writing it back: the client sees the disk again. */
    ghost function Discard(id: PageId): Pool
      requires id in entries && 0 <= entries[id] < |table| && id in disk
    {
      Pool(table[entries[id] := table[entries[id]].Clear()], frames, entries - {id}, disk, view[id := disk[id]])
    }

    /** disposePage's treatment of the pool. */
    ghost function Dropped(id: PageId): Pool {
      if id in entries && 0 <= entries[id] < |table| && id in disk then Discard(id) else this
    }

    /** A page appears in a file, with these bytes on disk. */
    ghost function Grow(id: PageId, b: Block): Pool {
      this.(disk := disk[id := b], view := view[id := b])
    }

    ghost function Forget(id: PageId): Pool {
      this.(disk := disk - {id}, view := view - {id})
    }

    /** Only reference bits have moved. */
    ghost predicate SameOwners(t: Pool) {
      && |t.table| == |table| && t.frames == frames && t.entries == entries && t.disk == disk && t.view == view
      && forall i | 0 <= i < |table| ::
           t.table[i] == table[i].(refbit := t.table[i].refbit)
    }
  }

  ghost predicate PinsLike(s: Pool, t: Pool) {
    && (forall id {:trigger t.Pins(id)} {:trigger s.Pins(id)} | id in s.entries.Keys + t.entries.Keys ::
          t.Pins(id) == s.Pins(id))
    && forall id {:trigger t.Saved(id)} | id in s.view :: s.Saved(id) ==> t.Saved(id)
  }

  /** The pin counts are the same, and no page stops being saved. */
  ghost predicate SamePins(s: Pool, t: Pool) {
    forall u {:trigger PinsLike(s, u)} | u == t :: PinsLike(s, u)
  }

  ghost predicate PinsLikeBut(s: Pool, t: Pool, id: PageId) {
    && (forall d {:trigger t.Pins(d)} {:trigger s.Pins(d)} | d in s.entries.Keys + t.entries.Keys && d != id ::
          t.Pins(d) == s.Pins(d))
    && forall d {:trigger t.Saved(d)} | d in s.view && d != id :: s.Saved(d) ==> t.Saved(d)
  }

  /** Except for one page. */
  ghost predicate SamePinsBut(s: Pool, t: Pool, id: PageId) {
    forall u {:trigger PinsLikeBut(s, u, id)} | u == t :: PinsLikeBut(s, u, id)
  }

  lemma {:induction false} PinsAgree(s: Pool, t: Pool)
    requires SamePins(s, t)
    ensures PinsLike(s, t)
  {}

  lemma {:induction false} PinsAgreeBut(s: Pool, t: Pool, id: PageId)
    requires SamePinsBut(s, t, id)
    ensures PinsLikeBut(s, t, id)
  {}

  lemma {:induction false} PinsWeaker(s: Pool, t: Pool, id: PageId)
    requires SamePins(s, t)
    ensures SamePinsBut(s, t, id)
  {
    PinsAgree(s, t);
  }

  lemma {:induction false} PinsChain(s: Pool, t: Pool, u: Pool, id: PageId)
    requires SamePins(s, t) && SamePinsBut(t, u, id)
    ensures SamePinsBut(s, u, id)
  {
    PinsAgree(s, t);
    PinsAgreeBut(t, u, id);
    forall d {:trigger u.Saved(d)} | d in s.view && d != id ensures s.Saved(d) ==> u.Saved(d) {
      assert s.Saved(d) ==> t.Saved(d);
    }
  }

  lemma {:induction false} PinsChainBut(s: Pool, t: Pool, u: Pool, id: PageId)
    requires SamePinsBut(s, t, id) && SamePinsBut(t, u, id) && s.view.Keys <= t.view.Keys + {id}
    ensures SamePinsBut(s, u, id)
  {
    PinsAgreeBut(s, t, id);
    PinsAgreeBut(t, u, id);
    forall d {:trigger u.Saved(d)} | d in s.view && d != id ensures s.Saved(d) ==> u.Saved(d) {
      assert s.Saved(d) ==> t.Saved(d);
    }
  }

  lemma {:induction false} PinsTrans(s: Pool, t: Pool, u: Pool)
    requires SamePins(s, t) && SamePins(t, u)
    ensures SamePins(s, u)
  {
    PinsAgree(s, t);
    PinsAgree(t, u);
    forall d {:trigger u.Saved(d)} | d in s.view ensures s.Saved(d) ==> u.Saved(d) {
      assert s.Saved(d) ==> t.Saved(d);
    }
  }

  /** Installing the bytes the client knows does not change what it knows. */
  lemma {:induction false} InstallSame(s: Pool, v: int, id: PageId)
    requires 0 <= v < |s.table| == |s.frames| && id in s.view
    ensures s.Install(v, id, s.view[id]).view == s.view
  {}

  // What Ok says of one frame, one entry, one page.

  lemma {:induction false} PinCounts(s: Pool)
    requires s.Ok(NONE)
    ensures forall i | 0 <= i < |s.table| :: s.table[i].pinCnt >= 0
  {
    assert s.Coherent(NONE);
    forall i | 0 <= i < |s.table| ensures s.table[i].pinCnt >= 0 {
      assert s.FrameOk(i, NONE);
    }
  }

  lemma {:induction false} OwnerInIndex(s: Pool, i: int)
    requires s.Ok(NONE) && 0 <= i < |s.table| && s.table[i].valid
    ensures s.table[i].file != null && s.Owner(i) in s.entries && s.entries[s.Owner(i)] == i
    ensures s.Owner(i) in s.disk && s.Owner(i) in s.view
  {
    assert s.Coherent(NONE);
    assert s.FrameOk(i, NONE) && s.EntryOk(s.Owner(i), NONE);
  }

  lemma {:induction false} EntryFrame(s: Pool, id: PageId)
    requires s.Ok(NONE) && id in s.entries
    ensures s.EntryOk(id, NONE) && s.FrameOk(s.entries[id], NONE)
  {
    assert s.Coherent(NONE);
    assert s.EntryOk(id, NONE);
  }

  lemma {:induction false} PageBacked(s: Pool, hole: int, id: PageId)
    requires s.Ok(hole) && id in s.view
    ensures s.Backed(id)
  {
    assert s.Coherent(hole);
  }

  /** The bytes of a frame between owners do not matter. */
  lemma {:induction false} FillOk(s: Pool, v: int, b: Block)
    requires s.Ok(v) && 0 <= v < |s.table|
    ensures s.(frames := s.frames[v := b]).Ok(v) && SamePins(s, s.(frames := s.frames[v := b]))
  {
    assert s.Coherent(v);
    var t := s.(frames := s.frames[v := b]);
    forall i {:trigger t.FrameOk(i, v)} | 0 <= i < |t.table| ensures t.FrameOk(i, v) {
      assert s.FrameOk(i, v);
    }
    forall d {:trigger t.EntryOk(d, v)} | d in t.entries ensures t.EntryOk(d, v) {
      assert s.EntryOk(d, v);
    }
    forall d {:trigger t.Backed(d)} | d in t.view ensures t.Backed(d) {
      assert s.Backed(d);
    }
  }

  /** Changing reference bits is invisible. */
  lemma {:induction false} TouchOk(s: Pool, t: Pool)
    requires s.Ok(NONE) && s.SameOwners(t)
    ensures t.Ok(NONE) && SamePins(s, t)
  {
    assert s.Coherent(NONE);
    forall i {:trigger t.FrameOk(i, NONE)} | 0 <= i < |t.table| ensures t.FrameOk(i, NONE) {
      assert s.FrameOk(i, NONE);
    }
    forall id {:trigger t.EntryOk(id, NONE)} | id in t.entries ensures t.EntryOk(id, NONE) {
      assert s.EntryOk(id, NONE);
    }
    forall id {:trigger t.Backed(id)} | id in t.view ensures t.Backed(id) {
      assert s.Backed(id);
    }
  }

  /** Eviction of an unpinned frame changes nothing a client can see, and no pin count. */
  lemma {:induction false} EvictOk(s: Pool, v: int)
    requires s.Ok(NONE) && 0 <= v < |s.table| && !s.table[v].Pinned()
    ensures s.FrameOk(v, NONE) && s.Evict(v).Ok(v) && s.Evict(v).view == s.view && s.Evict(v).Orphaned(v)
    ensures SamePins(s, s.Evict(v))
  {
    assert s.Coherent(NONE);
    assert s.FrameOk(v, NONE);
    var t := s.Evict(v);
    if s.table[v].valid {
      assert s.EntryOk(s.Owner(v), NONE);
    }
    forall i {:trigger t.FrameOk(i, v)} | 0 <= i < |t.table| ensures t.FrameOk(i, v) {
      assert s.FrameOk(i, NONE);
    }
    forall id {:trigger t.EntryOk(id, v)} | id in t.entries ensures t.EntryOk(id, v) {
      assert s.EntryOk(id, NONE);
    }
    forall id {:trigger t.Backed(id)} | id in t.view ensures t.Backed(id) {
      assert s.Backed(id) && (id in s.entries ==> s.EntryOk(id, NONE));
    }
  }

  /** A frame that was taken from its page and got no other one: index and frames agree only if it was empty. */
  lemma {:induction false} LeftOver(s: Pool, v: int)
    requires 0 <= v < |s.table| && s.Ok(v) && s.Orphaned(v)
    ensures s.Ok(NONE) <==> !s.table[v].valid
  {
    assert s.Coherent(v) && s.FrameOk(v, v);
    if s.Ok(NONE) {
      assert s.Coherent(NONE) && s.FrameOk(v, NONE);
    }
    if !s.table[v].valid {
      forall i {:trigger s.FrameOk(i, NONE)} | 0 <= i < |s.table| ensures s.FrameOk(i, NONE) {
        assert s.FrameOk(i, v);
      }
      forall id {:trigger s.EntryOk(id, NONE)} | id in s.entries ensures s.EntryOk(id, NONE) {
        assert s.EntryOk(id, v);
      }
      assert s.Coherent(NONE);
    }
  }

  /** A free frame is given to a page that is not resident; the other pages keep their view and pins. */
  lemma {:induction false} InstallOk(s: Pool, v: int, id: PageId, b: Block)
    requires s.Ok(v) && 0 <= v < |s.table| && id in s.view && id !in s.entries
    ensures s.Install(v, id, b).Ok(NONE)
    ensures s.Install(v, id, b).Pins(id) == 1
    ensures SamePinsBut(s, s.Install(v, id, b), id)
  {
    assert s.Coherent(v);
    var t := s.Install(v, id, b);
    forall i {:trigger t.FrameOk(i, NONE)} | 0 <= i < |t.table| ensures t.FrameOk(i, NONE) {
      assert s.FrameOk(i, v);
      if i != v && s.table[i].valid {
        assert s.EntryOk(s.Owner(i), v);
      }
    }
    assert s.Backed(id);
    forall d {:trigger t.EntryOk(d, NONE)} | d in t.entries ensures t.EntryOk(d, NONE) {
      assert d != id ==> s.EntryOk(d, v);
    }
    forall d {:trigger t.Backed(d)} | d in t.view ensures t.Backed(d) {
      assert s.Backed(d);
    }
    forall d | d != id ensures t.Pins(d) == s.Pins(d) && (s.Saved(d) ==> t.Saved(d)) {
      assert d in s.entries ==> s.EntryOk(d, v);
    }
  }

  /** Whether the image stays faithful depends on one thing: a page nobody has pinned and
      whose frame is clean must have its bytes on disk. */
  lemma {:induction false} UpdateOk(s: Pool, id: PageId, pinCnt: int, dirty: bool, refbit: bool, b: Block)
    requires s.Ok(NONE) && id in s.entries && s.EntryOk(id, NONE)
    ensures s.Update(id, pinCnt, dirty, refbit, b).Ok(NONE)
            <==> pinCnt >= 0 && (pinCnt == 0 && !dirty ==> s.disk[id] == b)
    ensures s.Update(id, pinCnt, dirty, refbit, b).Pins(id) == pinCnt
    ensures s.Update(id, pinCnt, dirty, refbit, b).Saved(id) <==> dirty || s.disk[id] == b
    ensures SamePinsBut(s, s.Update(id, pinCnt, dirty, refbit, b), id)
  {
    assert s.Coherent(NONE);
    var t, e := s.Update(id, pinCnt, dirty, refbit, b), s.entries[id];
    assert s.FrameOk(e, NONE);
    if t.Ok(NONE) {
      assert t.Coherent(NONE) && t.FrameOk(e, NONE) && t.EntryOk(id, NONE);
    }
    if pinCnt >= 0 && (pinCnt == 0 && !dirty ==> s.disk[id] == b) {
      forall i {:trigger t.FrameOk(i, NONE)} | 0 <= i < |t.table| ensures t.FrameOk(i, NONE) {
        assert s.FrameOk(i, NONE);
      }
      forall d {:trigger t.EntryOk(d, NONE)} | d in t.entries ensures t.EntryOk(d, NONE) {
        assert s.EntryOk(d, NONE);
      }
      forall d {:trigger t.Backed(d)} | d in t.view ensures t.Backed(d) {
        assert s.Backed(d);
      }
    }
    forall d | d != id ensures t.Pins(d) == s.Pins(d) && (s.Saved(d) ==> t.Saved(d)) {
      assert d in s.entries ==> s.EntryOk(d, NONE);
    }
  }

  /** unPinPage takes a pin, and loses nothing unless it is the last one on a page that is not on disk. */
  lemma {:induction false} UnPinOk(s: Pool, id: PageId, dirty: bool)
    requires s.Ok(NONE) && id in s.entries
    ensures 0 <= s.entries[id] < |s.table|
    ensures s.UnPinned(id, dirty).table == s.table[s.entries[id] := s.Released(id, dirty)]
    ensures s.UnPinned(id, dirty).frames == s.frames && s.UnPinned(id, dirty).view == s.view
    ensures s.UnPinned(id, dirty).Ok(NONE) <==> s.Pins(id) == 0 || s.Pins(id) > 1 || dirty || s.OnDiskAs(id)
    ensures s.UnPinned(id, dirty).Pins(id) == s.Pins(id) - (if s.Pins(id) == 0 then 0 else 1)
    ensures s.Saved(id) || dirty ==> s.UnPinned(id, dirty).Saved(id)
    ensures SamePinsBut(s, s.UnPinned(id, dirty), id)
  {
    EntryFrame(s, id);
    var d := s.Released(id, dirty);
    UpdateOk(s, id, d.pinCnt, d.dirty, d.refbit, s.frames[s.entries[id]]);
  }

  /** Flushing an unpinned frame changes nothing a client can see. */
  lemma {:induction false} FlushOk(s: Pool, i: int)
    requires s.Ok(NONE) && 0 <= i < |s.table| && s.table[i].valid && s.table[i].pinCnt == 0
    ensures s.FrameOk(i, NONE) && s.Flush(i).Ok(NONE) && s.Flush(i).view == s.view
    ensures SamePins(s, s.Flush(i))
  {
    assert s.Coherent(NONE);
    EvictOk(s, i);
    var u, t := s.Evict(i), s.Flush(i);
    assert u.Coherent(i);
    forall j {:trigger t.FrameOk(j, NONE)} | 0 <= j < |t.table| ensures t.FrameOk(j, NONE) {
      assert u.FrameOk(j, i);
    }
    forall d {:trigger t.EntryOk(d, NONE)} | d in t.entries ensures t.EntryOk(d, NONE) {
      assert u.EntryOk(d, i);
    }
    forall d {:trigger t.Backed(d)} | d in t.view ensures t.Backed(d) {
      assert u.Backed(d);
    }
    forall d ensures t.Pins(d) == u.Pins(d) && (u.Saved(d) ==> t.Saved(d)) {
      assert d in u.entries ==> u.EntryOk(d, i);
    }
    PinsTrans(s, u, t);
  }

  lemma {:induction false} DiscardOk(s: Pool, id: PageId)
    requires s.Ok(NONE) && id in s.entries
    ensures s.EntryOk(id, NONE) && s.Discard(id).Ok(NONE)
    ensures s.Discard(id).Pins(id) == 0 && SamePinsBut(s, s.Discard(id), id)
  {
    assert s.Coherent(NONE);
    assert s.EntryOk(id, NONE);
    var t := s.Discard(id);
    forall i {:trigger t.FrameOk(i, NONE)} | 0 <= i < |t.table| ensures t.FrameOk(i, NONE) {
      assert s.FrameOk(i, NONE);
    }
    forall d {:trigger t.EntryOk(d, NONE)} | d in t.entries ensures t.EntryOk(d, NONE) {
      assert s.EntryOk(d, NONE);
    }
    forall d {:trigger t.Backed(d)} | d in t.view ensures t.Backed(d) {
      assert s.Backed(d);
    }
    forall d | d != id ensures t.Pins(d) == s.Pins(d) && (s.Saved(d) ==> t.Saved(d)) {
      assert d in s.entries ==> s.EntryOk(d, NONE);
    }
  }

  lemma {:induction false} DroppedOk(s: Pool, id: PageId)
    requires s.Ok(NONE)
    ensures s.Dropped(id).Ok(NONE) && id !in s.Dropped(id).entries
    ensures id !in s.entries ==> s.Dropped(id) == s
    ensures id in s.entries ==> s.EntryOk(id, NONE) && s.Dropped(id) == s.Discard(id)
  {
    assert s.Coherent(NONE);
    if id in s.entries {
      DiscardOk(s, id);
    }
  }

  /** What disposePage leaves: the page unpinned and out of the pool; for a page given back, the other
      pages as they were; for a page the file refused, what its clients had not written to disk is gone. */
  lemma {:induction false} DisposeMeaning(s: Pool, id: PageId)
    requires s.Ok(NONE)
    ensures s.Dropped(id).Forget(id).Ok(NONE) && s.Dropped(id).Forget(id).view == s.view - {id}
    ensures SamePinsBut(s, s.Dropped(id), id) && SamePinsBut(s, s.Dropped(id).Forget(id), id)
    ensures s.Dropped(id).Pins(id) == 0
    ensures s.Dropped(id).view == if id in s.entries && id in s.disk then s.view[id := s.disk[id]] else s.view
    ensures s.Dropped(id).view == s.view <==> id !in s.view || s.disk[id] == s.view[id]
  {
    assert s.Coherent(NONE);
    DroppedOk(s, id);
    ForgetOk(s.Dropped(id), id);
    if id in s.entries {
      DiscardOk(s, id);
    } else {
      assert PinsLikeBut(s, s, id);
      assert id in s.view ==> s.Backed(id);
    }
    PinsChainBut(s, s.Dropped(id), s.Dropped(id).Forget(id), id);
  }

  lemma {:induction false} GrowOk(s: Pool, id: PageId, b: Block)
    requires s.Ok(NONE) && id !in s.view
    ensures id !in s.entries && s.Grow(id, b).Ok(NONE)
    ensures SamePins(s, s.Grow(id, b))
  {
    assert s.Coherent(NONE);
    assert id in s.entries ==> s.EntryOk(id, NONE);
    var t := s.Grow(id, b);
    forall i {:trigger t.FrameOk(i, NONE)} | 0 <= i < |t.table| ensures t.FrameOk(i, NONE) {
      assert s.FrameOk(i, NONE);
    }
    forall d {:trigger t.EntryOk(d, NONE)} | d in t.entries ensures t.EntryOk(d, NONE) {
      assert s.EntryOk(d, NONE);
    }
    forall d {:trigger t.Backed(d)} | d in t.view ensures t.Backed(d) {
      assert d != id ==> s.Backed(d);
    }
  }

  lemma {:induction false} ForgetOk(s: Pool, id: PageId)
    requires s.Ok(NONE) && id !in s.entries
    ensures s.Forget(id).Ok(NONE)
    ensures SamePinsBut(s, s.Forget(id), id) && s.Forget(id).Pins(id) == s.Pins(id)
  {
    assert s.Coherent(NONE);
    var t := s.Forget(id);
    forall i {:trigger t.FrameOk(i, NONE)} | 0 <= i < |t.table| ensures t.FrameOk(i, NONE) {
      assert s.FrameOk(i, NONE);
    }
    forall d {:trigger t.EntryOk(d, NONE)} | d in t.entries ensures t.EntryOk(d, NONE) {
      assert s.EntryOk(d, NONE);
    }
    forall d {:trigger t.Backed(d)} | d in t.view ensures t.Backed(d) {
      assert s.Backed(d);
    }
  }

  /** Writing a frame to disk without taking it away: the page is on disk as its clients know it. */
  lemma {:induction false} SaveOk(s: Pool, i: int)
    requires s.Ok(NONE) && 0 <= i < |s.table| && s.table[i].valid
    ensures s.FrameOk(i, NONE) && s.Owner(i) in s.view
    ensures s.(disk := s.disk[s.Owner(i) := s.frames[i]]).Ok(NONE) && s.frames[i] == s.view[s.Owner(i)]
  {
    assert s.Coherent(NONE);
    OwnerInIndex(s, i);
    assert s.FrameOk(i, NONE) && s.EntryOk(s.Owner(i), NONE);
    var t := s.(disk := s.disk[s.Owner(i) := s.frames[i]]);
    forall j {:trigger t.FrameOk(j, NONE)} | 0 <= j < |t.table| ensures t.FrameOk(j, NONE) {
      assert s.FrameOk(j, NONE);
    }
    forall d {:trigger t.EntryOk(d, NONE)} | d in t.entries ensures t.EntryOk(d, NONE) {
      assert s.EntryOk(d, NONE);
    }
    forall d {:trigger t.Backed(d)} | d in t.view ensures t.Backed(d) {
      assert s.Backed(d);
    }
  }
}
