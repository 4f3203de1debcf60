/**
  The buffer manager (buf.C): readPage, unPinPage, allocPage, disposePage, flushFile and the
  clock, over frames, a hash table and files that they update in place.
 */
module BufferManager {
  import opened Errors
  import opened Files
  import opened BufferHash
  import opened ClockPolicy
  import opened ClockHistory
  import opened BufferState

  ghost predicate FileOk(f: File)
    reads f
  {
    f.Valid() && |f.blocks| <= MAX_PAGES
  }

  ghost predicate RoomAt(f: File, room: map<File, Extent>)
    reads f
  {
    f in room && room[f] == Extent(|f.blocks|, f.free)
  }

  ghost predicate DiskAt(files: set<File>, disk: map<PageId, Block>, id: PageId)
    requires id in disk
    reads files
  {
    id.file in files && id.file.Has(id.pageNo) && id.file.blocks[id.pageNo] == disk[id]
  }

  ghost predicate OnlyAllocated(f: File, disk: map<PageId, Block>)
    reads f
  {
    forall p {:trigger f.Has(p)} | f.Has(p) :: PageId(f, p) in disk
  }

  /** `disk` is what the allocated pages of the files hold, and `room` how large the files are. */
  ghost predicate OnDisk(files: set<File>, disk: map<PageId, Block>, room: map<File, Extent>)
    reads files
  {
    forall d {:trigger Stored(files, d, room)} | d == disk :: Stored(files, d, room)
  }

  ghost predicate Stored(files: set<File>, disk: map<PageId, Block>, room: map<File, Extent>)
    reads files
  {
    && room.Keys == files && (forall f {:trigger RoomAt(f, room)} | f in files :: RoomAt(f, room))
    && (forall f {:trigger FileOk(f)} | f in files :: FileOk(f))
    && (forall id {:trigger DiskAt(files, disk, id)} | id in disk :: DiskAt(files, disk, id))
    && forall f {:trigger OnlyAllocated(f, disk)} | f in files :: OnlyAllocated(f, disk)
  }

  lemma {:induction false} Ruined(files: set<File>, f: File)
    requires f in files && !FileOk(f)
    ensures forall disk, room {:trigger OnDisk(files, disk, room)} :: !OnDisk(files, disk, room)
  {
    forall disk, room ensures !OnDisk(files, disk, room) {
      assert OnDisk(files, disk, room) ==> Stored(files, disk, room);
      assert Stored(files, disk, room) ==> FileOk(f);
    }
  }

  /** What allocatePage does to the room in a file. */
  lemma {:induction false} TakenRoom(blocks: seq<Block>, free: seq<int>)
    requires WellFormed(blocks, free) && |blocks| < MAX_PAGES
    ensures var e := Extent(|blocks|, free);
      && NewPage(blocks) == e.First() && (NextFree(blocks[0]) == -1 || 0 <= NextFree(blocks[0]) < |blocks|)
      && Extent(|Allocate(blocks)|, Rest(free)) == e.Taken()
  {
    assert free != [] ==> Linked(blocks, free, 0);
  }

  class BufMgr {
    const numBufs: int
    const bufTable: array<BufDesc>
    const bufPool: array<Block>
    const hashTable: BufHashTbl
    var clockHand: int
    ghost const files: set<File>   // the open files
    ghost var st: Pool             // the value of the whole
    ghost var events: seq<Event>   // what has happened to the frames
    ghost var room: map<File, Extent>

    ghost predicate Wired()
      reads this, bufTable, bufPool, hashTable
    {
      && 0 <= clockHand < numBufs == bufTable.Length == bufPool.Length
      && st.table == bufTable[..] && st.frames == bufPool[..] && st.entries == hashTable.entries
      && Tracks(st.table, events)
    }

    ghost function Now(): Dial
      reads `st, `clockHand, `events
    {
      Dial(st.table, clockHand, events)
    }

    ghost predicate Valid()
      reads this, bufTable, bufPool, hashTable, hashTable.ht, hashTable.nodes, files
    {
      Wired() && hashTable.Valid() && OnDisk(files, st.disk, room) && st.Ok(NONE)
    }

    constructor (bufs: int, ghost fs: set<File>, ghost pages: map<PageId, Block>, ghost room: map<File, Extent>)
      requires bufs > 0 && OnDisk(fs, pages, room)
      ensures Valid() && numBufs == bufs && files == fs && this.room == room
      ensures st.view == st.disk == pages && st.entries == map[]
      ensures fresh(bufTable) && fresh(bufPool) && fresh(hashTable) && fresh(hashTable.ht) && hashTable.nodes == {}
    {
      numBufs := bufs;
      bufTable := new BufDesc[bufs](_ => NoFrame);
      bufPool := new Block[bufs](_ => ZeroBlock);
      hashTable := new BufHashTbl((bufs * 6 / 5) * 2 / 2 + 1);
      clockHand := bufs - 1;
      files, this.room := fs, room;
      new;
      st := Pool(bufTable[..], bufPool[..], map[], pages, pages);
      events := [];
      TracksNone(bufTable[..]);
    }

    /** file->writePage(pageNo, &bufPool[frame]) on a page of an open file. */
    method WriteBack(id: PageId, b: Block)
      requires OnDisk(files, st.disk, room) && id in st.disk
      modifies files
      ensures OnDisk(files, st.disk[id := b], room)
    {
      assert Stored(files, st.disk, room) && DiskAt(files, st.disk, id) && FileOk(id.file);
      WriteKeeps(id.file.blocks, id.file.free, id.pageNo, b);
      var status := id.file.WritePage(id.pageNo, b);
      ghost var disk := st.disk[id := b];
      forall f {:trigger FileOk(f)} | f in files ensures FileOk(f) {
        assert old(FileOk(f));
      }
      forall d {:trigger DiskAt(files, disk, d)} | d in disk ensures DiskAt(files, disk, d) {
        assert old(DiskAt(files, st.disk, d));
      }
      forall f {:trigger RoomAt(f, room)} | f in files ensures RoomAt(f, room) {
        assert old(RoomAt(f, room));
      }
      forall f {:trigger OnlyAllocated(f, disk)} | f in files ensures OnlyAllocated(f, disk) {
        assert old(OnlyAllocated(f, st.disk));
        assert forall p :: f.Has(p) == old(f.Has(p));
      }
    }

    /** The sweep of allocBuf: at most two turns of the hand. */
    method Sweep() returns (found: bool)
      requires 0 <= clockHand < numBufs == bufTable.Length
      requires forall i | 0 <= i < numBufs :: bufTable[i].pinCnt >= 0
      requires Tracks(bufTable[..], events)
      modifies `clockHand, `events, bufTable
      ensures 0 <= clockHand < numBufs && Tracks(bufTable[..], events)
      ensures found <==> !AllPinned(old(bufTable[..]))
      ensures var c, d := Dial(old(bufTable[..]), old(clockHand), old(events)), Dial(bufTable[..], clockHand, events);
        if found then StopsAt(c, d, clockHand) else GoesRound(c, d)
      ensures found ==> !bufTable[clockHand].Pinned()
      ensures forall i | 0 <= i < numBufs :: bufTable[i] == old(bufTable[i]).(refbit := bufTable[i].refbit)
    {
      ghost var before, hand, past := bufTable[..], clockHand, events;
      SweepStart(before, hand);
      assert past + Turn(hand, 0, numBufs) == past;
      var numScanned := 0;
      while numScanned < 2 * numBufs
        invariant 0 <= numScanned <= 2 * numBufs
        invariant 0 <= clockHand < numBufs && clockHand == HandAfter(hand, numScanned, numBufs)
        invariant Sweeping(before, bufTable[..], hand, numScanned)
        invariant Tracks(bufTable[..], events) && events == past + Turn(hand, numScanned, numBufs)
        invariant forall i | 0 <= i < numBufs :: bufTable[i] == before[i].(refbit := bufTable[i].refbit)
      {
        SweepPasses(before, bufTable[..], hand, numScanned);
        clockHand := Advance(clockHand, numBufs);
        TracksReach(bufTable[..], events, clockHand);
        events := events + [Reached(clockHand)];
        if bufTable[clockHand].Ready() {
          SweepTakes(before, bufTable[..], hand, numScanned);
          WayIs(before, bufTable[..], hand, numScanned);
        }
        numScanned := numScanned + 1;
        if !bufTable[clockHand].valid {
          return numScanned < 2 * numBufs;
        }
        if !bufTable[clockHand].refbit {
          if bufTable[clockHand].pinCnt == 0 {
            return true;
          }
          assert bufTable[..] == bufTable[..][clockHand := bufTable[clockHand].Unreferenced()];
        } else {
          bufTable[clockHand] := bufTable[clockHand].Unreferenced();
        }
      }
      SweepExhausted(before, bufTable[..], hand);
      return false;
    }

    /** A frame for a new owner.  Its old page, if any, leaves the index and is written if dirty. */
    method AllocBuf() returns (status: Status, frame: int)
      requires Valid()
      modifies `clockHand, `st, `events, bufTable, hashTable, hashTable.ht, hashTable.nodes, files
      ensures Wired() && hashTable.Valid() && hashTable.nodes == old(hashTable.nodes) && OnDisk(files, st.disk, room)
      ensures st.view == old(st).view && SamePins(old(st), st) && st.entries.Keys <= old(st).entries.Keys
      ensures status == if AllPinned(old(st).table) then BUFFEREXCEEDED else OK
      ensures if status == OK then Chosen(old(st).table, old(clockHand), frame) && st.Ok(frame) else st.Ok(NONE)
      ensures status == OK ==> 0 <= frame < numBufs && st.Orphaned(frame)
      ensures if status == OK then StopsAt(old(Now()), Now(), frame) else GoesRound(old(Now()), Now())
    {
      PinCounts(st);
      var found := Sweep();
      TouchOk(st, st.(table := bufTable[..]));
      st := st.(table := bufTable[..]);
      if !found {
        return BUFFEREXCEEDED, 0;
      }
      frame := clockHand;
      assert Stopped(old(Now()), Now(), frame);
      ghost var s := st;
      EvictOk(s, frame);
      Vacate(frame);
      PinsTrans(old(st), s, st);
      return OK, frame;
    }

    /** allocBuf for a page that is not in the pool. */
    method MakeRoom(ghost id: PageId) returns (status: Status, frame: int)
      requires Valid() && id in st.view && id !in st.entries
      modifies `clockHand, `st, `events, bufTable, hashTable, hashTable.ht, hashTable.nodes, files
      ensures Wired() && hashTable.Valid() && hashTable.nodes == old(hashTable.nodes) && OnDisk(files, st.disk, room)
      ensures st.view == old(st).view && id !in st.entries && SamePinsBut(old(st), st, id)
      ensures old(st).Saved(id) ==> st.Saved(id)
      ensures status == if AllPinned(old(st).table) then BUFFEREXCEEDED else OK
      ensures if status == OK then 0 <= frame < numBufs && st.Ok(frame) else st.Ok(NONE)
      ensures if status == OK then StopsAt(old(Now()), Now(), frame) else GoesRound(old(Now()), Now())
    {
      status, frame := AllocBuf();
      PinsAgree(old(st), st);
      PinsWeaker(old(st), st, id);
    }

    /** The page of the chosen frame leaves the hash table, and goes to disk if it is dirty. */
    method Vacate(frame: int)
      requires Valid() && 0 <= frame < numBufs && !st.table[frame].Pinned()
      modifies `st, hashTable, hashTable.ht, hashTable.nodes, files
      ensures Wired() && hashTable.Valid() && hashTable.nodes == old(hashTable.nodes) && OnDisk(files, st.disk, room)
      ensures old(st).FrameOk(frame, NONE) && st == old(st).Evict(frame)
    {
      EvictOk(st, frame);
      var d := bufTable[frame];
      if d.valid {
        var id := PageId(d.file, d.pageNo);
        OwnerInIndex(st, frame);
        if d.dirty {
          WriteBack(id, bufPool[frame]);
        }
        var removed := hashTable.Remove(id);
      }
      st := st.Evict(frame);
    }

    /** Sets up a frame that allocBuf returned and enters it in the hash table. */
    method Adopt(frame: int, id: PageId)
      requires Wired() && hashTable.Valid() && 0 <= frame < numBufs && st.Ok(frame)
      requires id in st.view && id !in st.entries
      modifies `st, `events, bufTable, hashTable, hashTable.ht, hashTable.nodes
      ensures Wired() && hashTable.Valid() && hashTable.Grown() && st.Ok(NONE)
      ensures st == old(st).Install(frame, id, bufPool[frame]) && IsGiven(old(Now()), Now(), frame, id)
      ensures st.Pins(id) == 1 && SamePinsBut(old(st), st, id)
    {
      InstallOk(st, frame, id, bufPool[frame]);
      Giving(Now(), frame, id);
      events := events + [Used(frame)];
      bufTable[frame] := Set(id);
      var status := hashTable.Insert(id, frame);
      st := st.Install(frame, id, bufPool[frame]);
    }

    /** The page of an open file, pinned once more; evictions are invisible. */
    method ReadPage(file: File, pageNo: int) returns (status: Status, frame: int)
      requires Valid() && PageId(file, pageNo) in st.view
      modifies `clockHand, `st, `events, bufTable, bufPool, hashTable, hashTable.ht, hashTable.nodes, files
      ensures Valid() && st.view == old(st).view && hashTable.Grown()
      ensures var id := PageId(file, pageNo);
        && status == (if id !in old(st).entries && AllPinned(old(st).table) then BUFFEREXCEEDED else OK)
        && (status == OK ==> st.Holds(id, frame))
        && st.Pins(id) == old(st).Pins(id) + (if status == OK then 1 else 0)
        && SamePinsBut(old(st), st, id) && (old(st).Saved(id) ==> st.Saved(id))
        && (if id in old(st).entries then IsHit(old(Now()), Now(), frame)
            else if status == OK then Claims(old(Now()), Now(), frame, id)
            else GoesRound(old(Now()), Now()))
    {
      var id := PageId(file, pageNo);
      status, frame := hashTable.Lookup(id);
      if status == OK {
        Pin(id, frame);
      } else {
        status, frame := Fault(id);
      }
    }

    /** readPage on a page the file cannot read: one before its first or behind its last.  A page was evicted for it
        all the same, and its frame goes on naming it: frames and hash table agree afterwards only if the frame the
        clock chose was empty. */
    method ReadMissing(file: File, pageNo: int) returns (status: Status, frame: int)
      requires Valid() && file in files && (pageNo < 1 || pageNo >= |file.blocks|)
      modifies `clockHand, `st, `events, bufTable, hashTable, hashTable.ht, hashTable.nodes, files
      ensures Wired() && hashTable.Valid() && OnDisk(files, st.disk, room)
      ensures st.view == old(st).view && SamePins(old(st), st)
      ensures status == if AllPinned(old(st).table) then BUFFEREXCEEDED
                        else if pageNo < 1 then BADPAGENO else UNIXERR
      ensures if status == BUFFEREXCEEDED then Valid()
              else
                && StopsAt(old(Now()), Now(), frame) && 0 <= frame < numBufs
                && (Valid() <==> !st.table[frame].valid)
    {
      NotResident(file, pageNo);
      status, frame := hashTable.Lookup(PageId(file, pageNo));
      ghost var size := |file.blocks|;
      InRoom(file);
      status, frame := TakeAway();
      if status == OK {
        InRoom(file);
        var b;
        status, b := file.ReadPage(pageNo);
      }
    }

    lemma {:induction false} InRoom(file: File)
      requires OnDisk(files, st.disk, room) && file in files
      ensures file in room && room[file] == Extent(|file.blocks|, file.free)
    {
      assert Stored(files, st.disk, room) && RoomAt(file, room);
    }

    /** allocBuf for a page that does not come. */
    method TakeAway() returns (status: Status, frame: int)
      requires Valid()
      modifies `clockHand, `st, `events, bufTable, hashTable, hashTable.ht, hashTable.nodes, files
      ensures Wired() && hashTable.Valid() && OnDisk(files, st.disk, room)
      ensures st.view == old(st).view && SamePins(old(st), st)
      ensures status == if AllPinned(old(st).table) then BUFFEREXCEEDED else OK
      ensures if status == OK then
                && StopsAt(old(Now()), Now(), frame) && 0 <= frame < numBufs
                && (st.Ok(NONE) <==> !st.table[frame].valid)
              else st.Ok(NONE)
    {
      status, frame := AllocBuf();
      if status == OK {
        LeftOver(st, frame);
      }
    }

    lemma {:induction false} NotResident(file: File, pageNo: int)
      requires Valid()
      ensures PageId(file, pageNo) in st.entries ==> 1 <= pageNo < |file.blocks|
    {
      var id := PageId(file, pageNo);
      if id in st.entries {
        EntryFrame(st, id);
        assert Stored(files, st.disk, room) && DiskAt(files, st.disk, id);
      }
    }

    /** readPage on a page that is not in the pool. */
    method Fault(id: PageId) returns (status: Status, frame: int)
      requires Valid() && id in st.view && id !in st.entries
      modifies `clockHand, `st, `events, bufTable, bufPool, hashTable, hashTable.ht, hashTable.nodes, files
      ensures Valid() && st.view == old(st).view && hashTable.Grown()
      ensures status == (if AllPinned(old(st).table) then BUFFEREXCEEDED else OK)
      ensures status == OK ==> st.Holds(id, frame)
      ensures st.Pins(id) == (if status == OK then 1 else 0) && SamePinsBut(old(st), st, id) && st.Saved(id)
      ensures if status == OK then Claims(old(Now()), Now(), frame, id) else GoesRound(old(Now()), Now())
    {
      PageBacked(st, NONE, id);
      status, frame := MakeRoom(id);
      if status == OK {
        ghost var s, c := st, Now();
        Load(frame, id);
        PinsChainBut(old(st), s, st, id);
        StopsAndGives(old(Now()), c, Now(), frame, id);
      }
    }

    /** The rest of readPage once a frame was found: read the page into it and set it up. */
    method Load(frame: int, id: PageId)
      requires Wired() && hashTable.Valid() && OnDisk(files, st.disk, room) && 0 <= frame < numBufs && st.Ok(frame)
      requires id in st.view && id !in st.entries
      modifies `st, `events, bufTable, bufPool, hashTable, hashTable.ht, hashTable.nodes
      ensures Valid() && st.view == old(st).view && hashTable.Grown()
      ensures st.Holds(id, frame) && st.Pins(id) == 1 && SamePinsBut(old(st), st, id) && st.Saved(id)
      ensures IsGiven(old(Now()), Now(), frame, id)
    {
      PageBacked(st, frame, id);
      Fill(frame, id);
      InstallSame(st, frame, id);
      ghost var s := st;
      Adopt(frame, id);
      PinsChain(old(st), s, st, id);
    }

    /** file->readPage(PageNo, &bufPool[frame]) */
    method Fill(frame: int, id: PageId)
      requires Wired() && OnDisk(files, st.disk, room) && 0 <= frame < numBufs && st.Ok(frame)
      requires id in st.view && id !in st.entries
      modifies `st, bufPool
      ensures Wired() && st.Ok(frame) && SamePins(old(st), st)
      ensures st == old(st).(frames := st.frames) && bufPool[frame] == st.view[id]
    {
      PageBacked(st, frame, id);
      assert Stored(files, st.disk, room) && DiskAt(files, st.disk, id) && FileOk(id.file);
      var status, b := id.file.ReadPage(id.pageNo);
      FillOk(st, frame, b);
      bufPool[frame] := b;
      st := st.(frames := st.frames[frame := b]);
    }

    /** readPage on a page found in the pool. */
    method Pin(id: PageId, frame: int)
      requires Wired() && st.Ok(NONE) && id in st.entries && st.entries[id] == frame
      modifies `st, `events, bufTable
      ensures Wired() && st.Ok(NONE) && st.Holds(id, frame)
      ensures st.view == old(st).view && st.disk == old(st).disk && st.entries == old(st).entries
      ensures st.Pins(id) == old(st).Pins(id) + 1 && SamePinsBut(old(st), st, id)
      ensures old(st).Saved(id) ==> st.Saved(id)
      ensures IsHit(old(Now()), Now(), frame)
    {
      EntryFrame(st, id);
      ghost var d := st.table[frame];
      UpdateOk(st, id, d.pinCnt + 1, d.dirty, true, st.frames[frame]);
      TracksUse(st.table, events, frame, d.(refbit := true, pinCnt := d.pinCnt + 1));
      events := events + [Used(frame)];
      bufTable[frame] := bufTable[frame].(refbit := true, pinCnt := bufTable[frame].pinCnt + 1);
      st := st.Update(id, d.pinCnt + 1, d.dirty, true, st.frames[frame]);
    }

    /** A client writes into a page it has pinned. */
    method Modify(id: PageId, b: Block)
      requires Valid() && id in st.entries && st.Pins(id) > 0
      modifies `st, bufPool
      ensures Valid() && st.view == old(st).view[id := b] && st.entries == old(st).entries
      ensures st.table == old(st).table && st.disk == old(st).disk
      ensures st.Pins(id) == old(st).Pins(id) && SamePinsBut(old(st), st, id)
    {
      var status, i := hashTable.Lookup(id);
      EntryFrame(st, id);
      ghost var d := st.table[i];
      UpdateOk(st, id, d.pinCnt, d.dirty, d.refbit, b);
      bufPool[i] := b;
      st := st.Update(id, d.pinCnt, d.dirty, d.refbit, b);
    }

    /** A last unpin may call the page clean only if the disk has its bytes: exactly then
        the image of the pages stays faithful. */
    method UnPinPage(file: File, pageNo: int, dirty: bool) returns (status: Status)
      requires Valid()
      modifies `st, bufTable
      ensures Wired() && hashTable.Valid() && OnDisk(files, st.disk, room)
      ensures st.view == old(st).view && st.disk == old(st).disk && st.entries == old(st).entries
      ensures var id := PageId(file, pageNo);
        && status == (if id !in st.entries then HASHNOTFOUND
                      else if old(st).Pins(id) == 0 then PAGENOTPINNED else OK)
        && st.Pins(id) == old(st).Pins(id) - (if status == OK then 1 else 0)
        && SamePinsBut(old(st), st, id) && (old(st).Saved(id) || (dirty && id in st.entries) ==> st.Saved(id))
        && (Valid() <==> status != OK || old(st).Pins(id) > 1 || dirty || old(st).OnDiskAs(id))
        && (id !in st.entries ==> st == old(st))
        && (id in st.entries ==> Marked(old(st).table, st.table, st.entries[id], dirty))
    {
      var id := PageId(file, pageNo);
      var frame;
      status, frame := hashTable.Lookup(id);
      if status != OK {
        return;
      }
      status := UnPinFrame(id, frame, dirty);
    }

    method UnPinFrame(id: PageId, frame: int, dirty: bool) returns (status: Status)
      requires Wired() && st.Ok(NONE) && id in st.entries && st.entries[id] == frame
      modifies `st, bufTable
      ensures Wired() && st.view == old(st).view && st.disk == old(st).disk && st.entries == old(st).entries
      ensures status == (if old(st).Pins(id) == 0 then PAGENOTPINNED else OK)
      ensures st.Pins(id) == old(st).Pins(id) - (if status == OK then 1 else 0) && SamePinsBut(old(st), st, id)
      ensures old(st).Saved(id) || dirty ==> st.Saved(id)
      ensures st.Ok(NONE) <==> status != OK || old(st).Pins(id) > 1 || dirty || old(st).OnDiskAs(id)
      ensures Marked(old(st).table, st.table, frame, dirty)
    {
      UnPinOk(st, id, dirty);
      var d := bufTable[frame];
      status := if d.pinCnt == 0 then PAGENOTPINNED else OK;
      if dirty {
        d := d.(dirty := true);
      }
      if d.pinCnt != 0 {
        d := d.(pinCnt := d.pinCnt - 1);
      }
      TracksKeep(st.table, events, frame, d);
      bufTable[frame] := d;
      st := st.UnPinned(id, dirty);
    }

    /** A new page of the file, pinned, its bytes whatever its frame last held.  When every frame
        is pinned the page is allocated all the same and stays in the file. */
    method AllocPage(file: File) returns (status: Status, pageNo: int, frame: int)
      requires Valid() && file in files && |file.blocks| < MAX_PAGES
      modifies `clockHand, `st, `events, `room, bufTable, bufPool, hashTable, hashTable.ht, hashTable.nodes, files
      ensures Valid() && hashTable.Grown()
      ensures file in old(room) && pageNo == old(room)[file].First()
      ensures room == old(room)[file := old(room)[file].Taken()]
      ensures var id := PageId(file, pageNo);
        && id !in old(st).view && st.view.Keys == old(st).view.Keys + {id} && st.view - {id} == old(st).view
        && status == (if AllPinned(old(st).table) then BUFFEREXCEEDED else OK)
        && (if status == OK then st.Holds(id, frame) else id !in st.entries)
        && st.Pins(id) == (if status == OK then 1 else 0) && SamePinsBut(old(st), st, id)
        && (if status == OK then Claims(old(Now()), Now(), frame, id) else GoesRound(old(Now()), Now()))
    {
      assert Stored(files, st.disk, room) && FileOk(file);
      pageNo := GrowFile(file);
      ghost var s := st;
      status, frame := AllocFrame(PageId(file, pageNo));
      PinsChain(old(st), s, st, PageId(file, pageNo));
    }

    /** The frame found goes to the page, with the bytes it has. */
    method Settle(frame: int, id: PageId)
      requires Wired() && hashTable.Valid() && OnDisk(files, st.disk, room) && 0 <= frame < numBufs && st.Ok(frame)
      requires id in st.view && id !in st.entries
      modifies `st, `events, bufTable, hashTable, hashTable.ht, hashTable.nodes
      ensures Valid() && hashTable.Grown()
      ensures st.view.Keys == old(st).view.Keys && st.view - {id} == old(st).view - {id}
      ensures st.Holds(id, frame) && st.Pins(id) == 1 && SamePinsBut(old(st), st, id)
      ensures IsGiven(old(Now()), Now(), frame, id)
    {
      Adopt(frame, id);
    }

    /** A frame for a page that is not in the pool, its bytes left as they were. */
    method AllocFrame(id: PageId) returns (status: Status, frame: int)
      requires Valid() && id in st.view && id !in st.entries
      modifies `clockHand, `st, `events, bufTable, hashTable, hashTable.ht, hashTable.nodes, files
      ensures Valid() && hashTable.Grown()
      ensures st.view.Keys == old(st).view.Keys && st.view - {id} == old(st).view - {id}
      ensures status == (if AllPinned(old(st).table) then BUFFEREXCEEDED else OK)
      ensures if status == OK then st.Holds(id, frame) else id !in st.entries
      ensures st.Pins(id) == (if status == OK then 1 else 0) && SamePinsBut(old(st), st, id)
      ensures if status == OK then Claims(old(Now()), Now(), frame, id) else GoesRound(old(Now()), Now())
    {
      status, frame := MakeRoom(id);
      if status == OK {
        ghost var s, c := st, Now();
        Settle(frame, id);
        PinsChainBut(old(st), s, st, id);
        StopsAndGives(old(Now()), c, Now(), frame, id);
      }
    }

    /** file->allocatePage */
    method GrowFile(file: File) returns (pageNo: int)
      requires Valid() && file in files && file.Valid() && |file.blocks| < MAX_PAGES
      modifies `st, `room, file
      ensures Valid() && file in old(room) && pageNo == old(room)[file].First()
      ensures room == old(room)[file := old(room)[file].Taken()]
      ensures var id := PageId(file, pageNo);
        && id !in old(st).view && id !in st.entries && st.table == old(st).table
        && st.view.Keys == old(st).view.Keys + {id} && st.view - {id} == old(st).view
      ensures SamePins(old(st), st)
    {
      ghost var disk := st.disk;
      ghost var b;
      pageNo, b := TakePage(file, disk, room);
      room := room[file := room[file].Taken()];
      GrowOk(st, PageId(file, pageNo), b);
      st := st.Grow(PageId(file, pageNo), b);
    }

    method TakePage(file: File, ghost disk: map<PageId, Block>, ghost room: map<File, Extent>)
      returns (pageNo: int, ghost b: Block)
      requires OnDisk(files, disk, room) && file in files && file.Valid() && |file.blocks| < MAX_PAGES
      modifies file
      ensures file in room && pageNo == room[file].First() && PageId(file, pageNo) !in disk
      ensures OnDisk(files, disk[PageId(file, pageNo) := b], room[file := room[file].Taken()])
    {
      assert Stored(files, disk, room) && RoomAt(file, room);
      AllocateExact(file.blocks, file.free);
      TakenRoom(file.blocks, file.free);
      pageNo := file.AllocatePage();
      b := file.blocks[pageNo];
      ghost var id := PageId(file, pageNo);
      ghost var disk' := disk[id := b];
      ghost var room' := room[file := room[file].Taken()];
      assert id in disk ==> old(DiskAt(files, disk, id));
      forall f {:trigger RoomAt(f, room')} | f in files ensures RoomAt(f, room') {
        assert old(RoomAt(f, room));
      }
      forall f {:trigger FileOk(f)} | f in files ensures FileOk(f) {
        assert old(FileOk(f));
      }
      forall d {:trigger DiskAt(files, disk', d)} | d in disk' ensures DiskAt(files, disk', d) {
        assert d != id ==> old(DiskAt(files, disk, d));
      }
      forall f {:trigger OnlyAllocated(f, disk')} | f in files ensures OnlyAllocated(f, disk') {
        assert old(OnlyAllocated(f, disk));
        assert forall p :: f.Has(p) <==> old(f.Has(p)) || (f == file && p == pageNo);
      }
    }

    /** In every state of the buffer manager: a page that was read or made since the hand last came to its frame is
        evicted only if each other frame has a page that is pinned, or was used since then, too. */
    lemma {:induction false} Spares(f: int)
      requires Valid() && Chosen(st.table, clockHand, f) && 0 <= f < numBufs && st.table[f].valid && Recent(events, f)
      ensures forall i {:trigger st.table[i]} | 0 <= i < numBufs ::
        st.table[i].valid && (st.table[i].pinCnt > 0 || Recent(events, i))
    {
      PinCounts(st);
      assert Victim(st.table, clockHand, f);
      SecondChance(Now(), f);
    }

    /** Gives a page back to its file.  A cached copy goes without being written, pinned or not: if the file
        refuses the page, what the disk holds is what remains of it.  The file does not notice that a page is
        free already: exactly then it is ruined. */
    method DisposePage(file: File, pageNo: int) returns (status: Status)
      requires Valid() && file in files
      modifies `st, `room, bufTable, hashTable, hashTable.ht, hashTable.nodes, files
      ensures hashTable.nodes == old(hashTable.nodes)
      ensures status == if pageNo <= 1 || pageNo >= |old(file.blocks)| then BADPAGENO else OK
      ensures Valid() <==> status != OK || pageNo !in old(file.free)
      ensures status == OK && pageNo !in old(file.free) ==> PageId(file, pageNo) in old(st).view
      ensures var id := PageId(file, pageNo);
        if status == OK && pageNo !in old(file.free) then
          && st == old(st).Dropped(id).Forget(id)
          && file in old(room) && room == old(room)[file := old(room)[file].Given(pageNo)]
        else st == old(st).Dropped(id) && room == old(room)
    {
      DropFrame(PageId(file, pageNo));
      status := GiveBack(file, pageNo);
    }

    method DropFrame(id: PageId)
      requires Valid()
      modifies `st, bufTable, hashTable, hashTable.ht, hashTable.nodes
      ensures Valid() && hashTable.nodes == old(hashTable.nodes)
      ensures st == old(st).Dropped(id) && st.disk.Keys == old(st).disk.Keys && id !in st.entries
    {
      DroppedOk(st, id);
      var found, frame := hashTable.Lookup(id);
      if found == OK {
        DropResident(id, frame);
      } else {
        RemoveAbsent(id);
      }
    }

    method RemoveAbsent(id: PageId)
      requires hashTable.Valid() && id !in hashTable.entries
      modifies hashTable, hashTable.ht, hashTable.nodes
      ensures hashTable.Valid() && hashTable.nodes == old(hashTable.nodes)
      ensures hashTable.entries == old(hashTable.entries)
    {
      var removed := hashTable.Remove(id);
    }

    method DropResident(id: PageId, frame: int)
      requires Valid() && id in st.entries && st.entries[id] == frame
      modifies `st, bufTable, hashTable, hashTable.ht, hashTable.nodes
      ensures Valid() && hashTable.nodes == old(hashTable.nodes)
      ensures old(st).EntryOk(id, NONE) && st == old(st).Discard(id)
    {
      DiscardOk(st, id);
      TracksKeep(st.table, events, frame, bufTable[frame].Clear());
      bufTable[frame] := bufTable[frame].Clear();
      var removed := hashTable.Remove(id);
      st := st.Discard(id);
    }

    /** file->disposePage */
    method GiveBack(file: File, pageNo: int) returns (status: Status)
      requires Valid() && file in files && PageId(file, pageNo) !in st.entries
      modifies `st, `room, file
      ensures status == if pageNo <= 1 || pageNo >= |old(file.blocks)| then BADPAGENO else OK
      ensures Valid() <==> status != OK || pageNo !in old(file.free)
      ensures status == OK && pageNo !in old(file.free) ==> PageId(file, pageNo) in old(st).view
      ensures if status == OK && pageNo !in old(file.free) then
          && st == old(st).Forget(PageId(file, pageNo))
          && file in old(room) && room == old(room)[file := old(room)[file].Given(pageNo)]
        else st == old(st) && room == old(room)
    {
      ghost var id, given := PageId(file, pageNo), pageNo !in file.free;
      status := ReturnPage(file, pageNo, st.disk, room);
      if status == OK && given {
        ForgetOk(st, id);
        st := st.Forget(id);
        room := room[file := room[file].Given(pageNo)];
      }
    }

    /** What a disposal does to the pages that are allocated. */
    method DisposeIn(file: File, pageNo: int) returns (status: Status)
      requires FileOk(file)
      modifies file
      ensures status == if pageNo <= 1 || pageNo >= |old(file.blocks)| then BADPAGENO else OK
      ensures FileOk(file) <==> status != OK || pageNo !in old(file.free)
      ensures Extent(|file.blocks|, file.free)
        == if status == OK then Extent(|old(file.blocks)|, old(file.free)).Given(pageNo)
           else Extent(|old(file.blocks)|, old(file.free))
      ensures FileOk(file) ==>
        && (status == OK ==> old(file.Has(pageNo)) && !file.Has(pageNo))
        && (forall p {:trigger file.Has(p)} :: file.Has(p) ==> old(file.Has(p)))
        && forall p {:trigger old(file.Has(p))} :: old(file.Has(p)) && (status == OK ==> p != pageNo) ==>
             file.Has(p) && file.blocks[p] == old(file.blocks[p])
    {
      status := file.DisposePage(pageNo);
      if status == OK && pageNo !in old(file.free) {
        assert old(file.Has(pageNo));
        DisposeExact(old(file.blocks), old(file.free), pageNo);
      }
    }

    method ReturnPage(file: File, pageNo: int, ghost disk: map<PageId, Block>, ghost room: map<File, Extent>)
      returns (status: Status)
      requires OnDisk(files, disk, room) && file in files
      modifies file
      ensures status == if pageNo <= 1 || pageNo >= |old(file.blocks)| then BADPAGENO else OK
      ensures var id := PageId(file, pageNo);
        if status != OK then OnDisk(files, disk, room)
        else if pageNo !in old(file.free) then
          id in disk && file in room && OnDisk(files, disk - {id}, room[file := room[file].Given(pageNo)])
        else forall d, r {:trigger OnDisk(files, d, r)} :: !OnDisk(files, d, r)
    {
      assert Stored(files, disk, room) && FileOk(file) && RoomAt(file, room) && OnlyAllocated(file, disk);
      ghost var id := PageId(file, pageNo);
      status := DisposeIn(file, pageNo);
      if status == OK && pageNo in old(file.free) {
        Ruined(files, file);
      } else {
        ghost var left := if status == OK then disk - {id} else disk;
        ghost var room' := if status == OK then room[file := room[file].Given(pageNo)] else room;
        forall f {:trigger RoomAt(f, room')} | f in files ensures RoomAt(f, room') {
          assert old(RoomAt(f, room));
        }
        assert status == OK ==> old(file.Has(pageNo)) && id in disk;
        forall f {:trigger FileOk(f)} | f in files ensures FileOk(f) {
          assert old(FileOk(f));
        }
        forall d {:trigger DiskAt(files, left, d)} | d in left ensures DiskAt(files, left, d) {
          assert old(DiskAt(files, disk, d));
        }
        forall f {:trigger OnlyAllocated(f, left)} | f in files ensures OnlyAllocated(f, left) {
          assert old(OnlyAllocated(f, disk));
          forall p {:trigger f.Has(p)} | f.Has(p) ensures PageId(f, p) in left {
            assert old(f.Has(p));
          }
        }
        assert Stored(files, left, room');
      }
    }

    /** Writes the pages of a file back and empties their frames, unless one of them is pinned. */
    method FlushFile(file: File) returns (status: Status)
      requires Valid()
      modifies `st, bufTable, hashTable, hashTable.ht, hashTable.nodes, files
      ensures Valid() && hashTable.nodes == old(hashTable.nodes)
      ensures st.view == old(st).view && SamePins(old(st), st)
      ensures status == if exists i | 0 <= i < numBufs :: PinnedBy(old(st).table, file, i) then PAGEPINNED else OK
      ensures status == OK ==>
        forall id | id in st.view && id.file == file :: id !in st.entries && st.disk[id] == st.view[id]
      ensures |st.table| == |old(st).table| && forall i {:trigger st.table[i]} | 0 <= i < numBufs ::
        var d := old(st).table[i];
        st.table[i] == if d.valid && d.file == file && NonePinned(old(st).table, file, i)
                       then BufDesc(null, -1, d.pinCnt, false, false, d.refbit) else d
    {
      ghost var s := st;
      assert PinsLike(s, s);
      for i := 0 to numBufs
        invariant Valid() && hashTable.nodes == old(hashTable.nodes)
        invariant st.view == s.view && SamePins(s, st)
        invariant forall k {:trigger PinnedBy(s.table, file, k)} | 0 <= k < i :: !PinnedBy(s.table, file, k)
        invariant forall k | 0 <= k < i :: bufTable[k].file != file
        invariant forall k {:trigger bufTable[k]} | 0 <= k < i ::
          bufTable[k] == if s.table[k].valid && s.table[k].file == file
                         then BufDesc(null, -1, s.table[k].pinCnt, false, false, s.table[k].refbit) else s.table[k]
        invariant forall k | i <= k < numBufs :: bufTable[k] == s.table[k]
      {
        FrameFacts(st, i);
        if bufTable[i].valid && bufTable[i].file == file {
          if bufTable[i].pinCnt > 0 {
            assert PinnedBy(s.table, file, i);
            return PAGEPINNED;
          }
          ghost var t := st;
          FlushFrame(i);
          PinsTrans(s, t, st);
        } else if !bufTable[i].valid && bufTable[i].file == file {
          return BADBUFFER;
        }
      }
      forall id | id in st.view && id.file == file ensures id !in st.entries && st.disk[id] == st.view[id] {
        PageBacked(st, NONE, id);
        if id in st.entries {
          EntryFrame(st, id);
        }
      }
      return OK;
    }

    method FlushFrame(i: int)
      requires Valid() && 0 <= i < numBufs && bufTable[i].valid && bufTable[i].pinCnt == 0
      modifies `st, bufTable, hashTable, hashTable.ht, hashTable.nodes, files
      ensures Valid() && hashTable.nodes == old(hashTable.nodes)
      ensures st.view == old(st).view && SamePins(old(st), st)
      ensures bufTable[i] == BufDesc(null, -1, old(bufTable[i]).pinCnt, false, false, old(bufTable[i]).refbit)
      ensures forall k | 0 <= k < numBufs && k != i :: bufTable[k] == old(bufTable[k])
    {
      FlushOk(st, i);
      Vacate(i);
      ghost var empty := bufTable[i].(file := null, pageNo := -1, valid := false, dirty := false);
      TracksKeep(st.table, events, i, empty);
      bufTable[i] := bufTable[i].(file := null, pageNo := -1, valid := false, dirty := false);
      st := st.(table := bufTable[..]);
    }

    method SaveFrame(i: int)
      requires Valid() && 0 <= i < numBufs && bufTable[i].valid
      modifies `st, files
      ensures Valid() && st.table == old(st).table && st.table[i].file != null && st.Owner(i) in st.view
      ensures st == old(st).(disk := old(st).disk[st.Owner(i) := st.view[st.Owner(i)]])
    {
      SaveOk(st, i);
      OwnerInIndex(st, i);
      var id := PageId(bufTable[i].file, bufTable[i].pageNo);
      WriteBack(id, bufPool[i]);
      st := st.(disk := st.disk[id := st.frames[i]]);
    }

    /** The destructor: every dirty frame is written.  Nothing a client knew is lost but what it
        wrote to a page it still holds and has not called dirty. */
    method Shutdown()
      requires Valid()
      modifies `st, files
      ensures OnDisk(files, st.disk, room) && st.view == old(st).view && st.disk.Keys == old(st).disk.Keys
      ensures forall id | id in st.view && (old(st).Pins(id) == 0 || old(st).OnDiskAs(id)) :: st.disk[id] == st.view[id]
    {
      ghost var s := st;
      for i := 0 to numBufs
        invariant Valid() && st == s.(disk := st.disk)
        invariant forall id | id in s.view && s.disk[id] == s.view[id] :: st.disk[id] == s.view[id]
        invariant forall id | id in s.view && id in s.entries && s.entries[id] < i && s.OnDiskAs(id) ::
          st.disk[id] == s.view[id]
      {
        FrameFacts(st, i);
        if bufTable[i].valid && bufTable[i].dirty {
          SaveFrame(i);
        }
        forall id | id in s.view && id in s.entries && s.entries[id] == i && s.OnDiskAs(id)
          ensures st.disk[id] == s.view[id]
        {
          EntryFrame(s, id);
        }
      }
      forall id | id in s.view && (s.Pins(id) == 0 || s.OnDiskAs(id)) ensures st.disk[id] == st.view[id] {
        PageBacked(s, NONE, id);
        if id in s.entries {
          EntryFrame(s, id);
        }
      }
    }
  }

  lemma {:induction false} FrameFacts(s: Pool, i: int)
    requires s.Ok(NONE) && 0 <= i < |s.table|
    ensures s.FrameOk(i, NONE)
  {
    assert s.Coherent(NONE);
  }

  /** Frame f has one pin less, if it had any, and is dirty if it was or if the caller says so. */
  ghost predicate Marked(before: seq<BufDesc>, after: seq<BufDesc>, f: int, dirty: bool) {
    && 0 <= f < |before|
    && after == before[f := before[f].(dirty := before[f].dirty || dirty,
                                       pinCnt := if before[f].pinCnt == 0 then 0 else before[f].pinCnt - 1)]
  }

  /** The clock chooses frame f. */
  ghost predicate Chosen(table: seq<BufDesc>, hand: int, f: int) {
    forall g {:trigger Victim(table, hand, g)} | g == f :: Victim(table, hand, g)
  }

  /** No frame up to i holds a pinned page of the file. */
  ghost predicate NonePinned(table: seq<BufDesc>, file: File, i: int)
    requires 0 <= i < |table|
  {
    forall k {:trigger PinnedBy(table, file, k)} | 0 <= k <= i :: !PinnedBy(table, file, k)
  }

  /** Frame i holds a page of the file that somebody has pinned. */
  predicate PinnedBy(table: seq<BufDesc>, file: File, i: int)
    requires 0 <= i < |table|
  {
    table[i].Pinned() && table[i].file == file
  }
}
