/**
  The page in place.  Records grow upwards from byte 0; slot[0] sits in the last four
  bytes and slot[-1], slot[-2], ... grow down into the same bytes.  Every method is
  proved equal to the operation of SlottedPage on the value `Abs()` reads off the bytes.
 */
module PageInPlace {
  import opened Bytes
  import opened Errors
  import opened SlottedPage

  const MEM_SIZE := DATA_SIZE + SLOT_SIZE   // data[] and the declared slot[1]

  /** Slot number k decoded from the bytes of the page. */
  function SlotAt(m: seq<byte>, k: nat): Slot
    requires |m| == MEM_SIZE && SLOT_SIZE * k <= DATA_SIZE
  {
    Slot(GetShort(m, DATA_SIZE - SLOT_SIZE * k), GetShort(m, DATA_SIZE - SLOT_SIZE * k + 2))
  }

  predicate Shorts(s: Slot) {
    -0x8000 <= s.offset < 0x8000 && -0x8000 <= s.length < 0x8000
  }

  function PutSlot(m: seq<byte>, k: nat, s: Slot): (r: seq<byte>)
    requires |m| == MEM_SIZE && SLOT_SIZE * k <= DATA_SIZE && Shorts(s)
    ensures |r| == MEM_SIZE
  {
    Put(m, DATA_SIZE - SLOT_SIZE * k, ShortBytes(s.offset) + ShortBytes(s.length))
  }

  /** A slot write is read back, and is the only slot that changes. */
  lemma {:induction false} PutSlotAt(m: seq<byte>, k: nat, s: Slot, j: nat)
    requires |m| == MEM_SIZE && SLOT_SIZE * k <= DATA_SIZE && SLOT_SIZE * j <= DATA_SIZE && Shorts(s)
    ensures SlotAt(PutSlot(m, k, s), j) == if j == k then s else SlotAt(m, j)
  {
    var r, at := PutSlot(m, k, s), DATA_SIZE - SLOT_SIZE * k;
    var b := ShortBytes(s.offset) + ShortBytes(s.length);
    assert forall i | 0 <= i < 4 :: r[at + i] == r[at..at + 4][i] == b[i];
  }

  /** A slot write leaves the bytes below the slot alone. */
  lemma {:induction false} PutSlotData(m: seq<byte>, k: nat, s: Slot, at: nat)
    requires |m| == MEM_SIZE && at + SLOT_SIZE * k <= DATA_SIZE && Shorts(s)
    ensures PutSlot(m, k, s)[..at] == m[..at]
  {}

  /** A slot decodes the same from memories that agree from some byte below it up. */
  lemma {:induction false} SlotAtAgrees(m: seq<byte>, m': seq<byte>, k: nat, at: nat)
    requires |m| == |m'| == MEM_SIZE && at + SLOT_SIZE * k <= DATA_SIZE
    requires m[at..] == m'[at..]
    ensures SlotAt(m, k) == SlotAt(m', k)
  {
    var lo := DATA_SIZE - SLOT_SIZE * k;
    assert forall i | lo <= i < lo + 4 :: m[i] == m[at..][i - at] == m'[at..][i - at] == m'[i];
  }

  /** Memory m holds these record bytes and, growing down from its end, this slot array. */
  ghost predicate Holds(m: seq<byte>, data: seq<byte>, slots: seq<Slot>) {
    && |m| == MEM_SIZE && |data| + SLOT_SIZE * |slots| <= DATA_SIZE
    && m[..|data|] == data
    && forall k {:trigger SlotAt(m, k)} | 0 <= k < |slots| :: SlotAt(m, k) == slots[k]
  }

  lemma {:induction false} HoldsWrite(m: seq<byte>, data: seq<byte>, slots: seq<Slot>, k: nat, s: Slot)
    requires Holds(m, data, slots) && k < |slots| && Shorts(s)
    ensures Holds(PutSlot(m, k, s), data, slots[k := s])
  {
    PutSlotData(m, k, s, |data|);
    var m' := PutSlot(m, k, s);
    forall j {:trigger SlotAt(m', j)} | 0 <= j < |slots| ensures SlotAt(m', j) == slots[k := s][j] {
      PutSlotAt(m, k, s, j);
    }
  }

  lemma {:induction false} HoldsPush(m: seq<byte>, data: seq<byte>, slots: seq<Slot>, s: Slot)
    requires Holds(m, data, slots) && |data| + SLOT_SIZE * (|slots| + 1) <= DATA_SIZE && Shorts(s)
    ensures Holds(PutSlot(m, |slots|, s), data, slots + [s])
  {
    PutSlotData(m, |slots|, s, |data|);
    var m' := PutSlot(m, |slots|, s);
    forall j {:trigger SlotAt(m', j)} | 0 <= j <= |slots| ensures SlotAt(m', j) == (slots + [s])[j] {
      PutSlotAt(m, |slots|, s, j);
    }
  }

  lemma {:induction false} HoldsPop(m: seq<byte>, data: seq<byte>, slots: seq<Slot>)
    requires Holds(m, data, slots) && slots != []
    ensures Holds(m, data, slots[..|slots| - 1])
  {}

  /** Bytes below the slot array may be anything. */
  lemma {:induction false} HoldsData(m: seq<byte>, m': seq<byte>, data: seq<byte>, data': seq<byte>, slots: seq<Slot>,
      at: nat)
    requires Holds(m, data, slots) && |m'| == MEM_SIZE
    requires at + SLOT_SIZE * |slots| <= DATA_SIZE && m[at..] == m'[at..]
    requires |data'| + SLOT_SIZE * |slots| <= DATA_SIZE && m'[..|data'|] == data'
    ensures Holds(m', data', slots)
  {
    forall k {:trigger SlotAt(m', k)} | 0 <= k < |slots| ensures SlotAt(m', k) == slots[k] {
      SlotAtAgrees(m, m', k, at);
    }
  }

  class Page {
    const mem: array<byte>
    var slotCnt: int      // minus the number of slots
    var freePtr: int
    var freeSpace: int
    var nextPage: int
    var curPage: int

    ghost var data: seq<byte>     // what the bytes of the page stand for:
    ghost var slots: seq<Slot>    // the record bytes and the decoded slot array

    ghost predicate Decoded()
      reads this`data, this`slots, this`freePtr, this`slotCnt, mem
    {
      freePtr == |data| && -slotCnt == |slots| && Holds(mem[..], data, slots)
    }

    ghost function Abs(): PageState
      reads this
    {
      PageState(Area(data, slots, freeSpace), nextPage, curPage)
    }

    ghost predicate Valid()
      reads this, mem
    {
      Decoded() && Abs().Valid()
    }

    // ---- Access to the bytes ----

    /** slot[i] of the source. */
    method ReadSlot(i: int) returns (s: Slot)
      requires Decoded() && slotCnt < i <= 0
      ensures s == slots[-i] && Shorts(s)
    {
      s := SlotAt(mem[..], -i);
    }

    method PokeSlot(i: int, s: Slot)
      requires mem.Length == MEM_SIZE && i <= 0 && -SLOT_SIZE * i <= DATA_SIZE && Shorts(s)
      modifies mem
      ensures mem[..] == PutSlot(old(mem[..]), -i, s)
    {
      var at := DATA_SIZE + SLOT_SIZE * i;
      var b := ShortBytes(s.offset) + ShortBytes(s.length);
      forall j | 0 <= j < 4 {
        mem[at + j] := b[j];
      }
    }

    /** Assigns to a slot in use. */
    method WriteSlot(i: int, s: Slot)
      requires Decoded() && slotCnt < i <= 0 && Shorts(s)
      modifies this`slots, mem
      ensures Decoded() && slots == old(slots)[-i := s]
    {
      HoldsWrite(mem[..], data, slots, -i, s);
      PokeSlot(i, s);
      slots := slots[-i := s];
    }

    /** Grows the slot array downwards by one. */
    method PushSlot(s: Slot)
      requires Decoded() && freePtr + SLOT_SIZE * (1 - slotCnt) <= DATA_SIZE && Shorts(s)
      modifies this`slots, this`slotCnt, mem
      ensures Decoded() && slots == old(slots) + [s]
    {
      HoldsPush(mem[..], data, slots, s);
      PokeSlot(slotCnt, s);
      slotCnt := slotCnt - 1;
      slots := slots + [s];
    }

    method PopSlot()
      requires Decoded() && slotCnt < 0
      modifies this`slots, this`slotCnt
      ensures Decoded() && slots == old(slots)[..|old(slots)| - 1]
    {
      HoldsPop(mem[..], data, slots);
      slotCnt := slotCnt + 1;
      slots := slots[..|slots| - 1];
    }

    /** memcpy of the record to freePtr, which moves past it. */
    method CopyIn(rec: seq<byte>)
      requires Decoded() && freePtr + |rec| - SLOT_SIZE * slotCnt <= DATA_SIZE
      modifies this`data, this`freePtr, mem
      ensures Decoded() && data == old(data) + rec
    {
      forall j | 0 <= j < |rec| {
        mem[freePtr + j] := rec[j];
      }
      HoldsData(old(mem[..]), mem[..], data, data + rec, slots, freePtr + |rec|);
      freePtr := freePtr + |rec|;
      data := data + rec;
    }

    /** bcopy of data[from..freePtr) down to data[to..), the ranges possibly overlapping; freePtr follows. */
    method CloseHole(to: nat, from: nat)
      requires Decoded() && to <= from <= freePtr
      modifies this`data, this`freePtr, mem
      ensures Decoded() && data == old(data)[..to] + old(data)[from..]
    {
      forall j | 0 <= j < freePtr - from {
        mem[to + j] := mem[from + j];
      }
      ghost var moved := data[..to] + data[from..];
      assert mem[..][..|moved|] == moved;
      HoldsData(old(mem[..]), mem[..], data, moved, slots, freePtr);
      freePtr := freePtr - (from - to);
      data := moved;
    }

    // ---- The page operations ----

    constructor ()
      ensures mem.Length == MEM_SIZE && fresh(mem)
    {
      mem := new byte[MEM_SIZE];
    }

    method Init(pageNo: int)
      requires mem.Length == MEM_SIZE
      modifies this
      ensures Valid() && Abs() == InitPage(pageNo)
    {
      nextPage := -1;
      slotCnt := 0;
      curPage := pageNo;
      freePtr := 0;
      freeSpace := PAGESIZE - DPFIXED;
      data, slots := [], [];
      EmptyAreaValid();
    }

    method SetNextPage(pageNo: int)
      requires Valid()
      modifies this`nextPage
      ensures Valid() && Abs() == old(Abs()).(nextPage := pageNo)
    {
      nextPage := pageNo;
    }

    method InsertRecord(rec: seq<byte>) returns (status: Status, slotNo: int)
      requires Valid()
      modifies this, mem
      ensures Valid()
      ensures var a := old(Abs().area);
        if Fits(a, rec)
        then status == OK && slotNo == FreeSlot(a.slots) && Abs() == old(Abs()).(area := Add(a, rec))
        else status == NOSPACE && Abs() == old(Abs())
    {
      var spaceNeeded := |rec| + SLOT_SIZE;
      if spaceNeeded > freeSpace {
        return NOSPACE, 0;
      }
      AddValid(Abs().area, rec);
      var i := FindEmpty();
      StoreRecord(i, rec);
      return OK, -i;
    }

    /** Looks for an empty slot; i ends at slotCnt when there is none. */
    method FindEmpty() returns (i: int)
      requires Decoded()
      ensures slotCnt <= i <= 0 && -i == FreeSlot(slots)
    {
      i := 0;
      while i > slotCnt
        invariant slotCnt <= i <= 0
        invariant FreeSlot(slots, -i) == FreeSlot(slots)
      {
        var s := ReadSlot(i);
        if s.length == -1 {
          break;
        } else {
          i := i - 1;
        }
      }
    }

    /** Adjusts the free space, fills slot i, and copies the bytes. */
    method StoreRecord(i: int, rec: seq<byte>)
      requires Decoded() && Abs().area.Accounted() && Fits(Abs().area, rec) && -i == FreeSlot(slots)
      modifies this, mem
      ensures Decoded() && Abs() == old(Abs()).(area := Add(old(Abs().area), rec))
    {
      if i == slotCnt {
        freeSpace := freeSpace - |rec| - SLOT_SIZE;
        PushSlot(Slot(freePtr, |rec|));
      } else {
        freeSpace := freeSpace - |rec|;
        WriteSlot(i, Slot(freePtr, |rec|));
      }
      CopyIn(rec);
    }

    method DeleteRecord(ridSlot: int) returns (status: Status)
      requires Valid() && ridSlot >= 0
      modifies this, mem
      ensures Valid()
      ensures var a := old(Abs().area);
        if a.Readable(ridSlot)
        then status == OK && a.Within(ridSlot) && Abs() == old(Abs()).(area := Remove(a, ridSlot))
        else status == INVALIDSLOTNO && Abs() == old(Abs())
    {
      var slotNo := -ridSlot;
      if slotNo > slotCnt {
        var s := ReadSlot(slotNo);
        if s.length > 0 {
          RemoveValid(Abs().area, ridSlot);
          Compact(slotNo, s.offset, s.length);
          return OK;
        }
      }
      return INVALIDSLOTNO;
    }

    /** Deletes a valid slot: shifts the bytes above it left and corrects the slot array. */
    method Compact(slotNo: int, offset: int, recLen: int)
      requires Decoded() && slotCnt < slotNo <= 0 && slots[-slotNo] == Slot(offset, recLen)
      requires 0 <= offset && 0 < recLen && offset + recLen <= freePtr && !slots[|slots| - 1].Free()
      modifies this, mem
      ensures Decoded()
      ensures data == old(data)[..offset] + old(data)[offset + recLen..]
      ensures slots == Trim(Mark(old(slots), -slotNo))
      ensures freeSpace == old(freeSpace) + recLen + SLOT_SIZE * (|old(slots)| - |slots|)
      ensures nextPage == old(nextPage) && curPage == old(curPage)
    {
      CloseHole(offset, offset + recLen);
      ShiftIndex(slots, offset, recLen, 0, |slots| - 1);
      ShiftOffsets(slotNo, recLen);
      freeSpace := freeSpace + recLen;
      DropSlot(slotNo);
    }

    /** Moves every slot to the right of slotNo down by the size of the hole. */
    method ShiftOffsets(slotNo: int, recLen: int)
      requires Decoded() && slotCnt < slotNo <= 0
      requires 0 <= recLen < 0x8000 && 0 <= slots[-slotNo].offset
      modifies this`slots, mem
      ensures Decoded() && slots == Shift(old(slots), old(slots)[-slotNo].offset, recLen)
    {
      ghost var off := slots[-slotNo].offset;
      var i := 0;
      while i > slotCnt
        modifies this`slots, mem
        invariant slotCnt <= i <= 0 && Decoded() && slots[-slotNo].offset == off
        invariant Shift(slots, off, recLen, -i) == Shift(old(slots), off, recLen)
      {
        ShiftOffset(i, slotNo, recLen);
        i := i - 1;
      }
    }

    method ShiftOffset(i: int, slotNo: int, recLen: int)
      requires Decoded() && slotCnt < slotNo <= 0 && slotCnt < i <= 0
      requires 0 <= recLen < 0x8000 && 0 <= slots[-slotNo].offset
      modifies this`slots, mem
      ensures Decoded() && slots == old(slots)[-i := ShiftSlot(old(slots)[-i], old(slots)[-slotNo].offset, recLen)]
    {
      var s := ReadSlot(i);
      var hole := ReadSlot(slotNo);
      if s.length >= 0 && s.offset > hole.offset {
        WriteSlot(i, Slot(s.offset - recLen, s.length));
      }
    }

    /** Drops the slot and the free ones before it when it is the last; else marks it free. */
    method DropSlot(slotNo: int)
      requires Decoded() && slotCnt < slotNo <= 0 && !slots[|slots| - 1].Free()
      modifies this`slots, this`slotCnt, this`freeSpace, mem
      ensures Decoded() && slots == Trim(old(slots)[-slotNo := Slot(0, -1)])
      ensures freeSpace == old(freeSpace) + SLOT_SIZE * (|old(slots)| - |slots|)
    {
      if slotNo == slotCnt + 1 {
        PopSlot();
        freeSpace := freeSpace + SLOT_SIZE;
        assert slots == old(slots)[-slotNo := Slot(0, -1)][..|slots|];
        TrimSlots();
      } else {
        WriteSlot(slotNo, Slot(0, -1));
      }
    }

    /** The rest of the do-while: also give back slots that were emptied previously. */
    method TrimSlots()
      requires Decoded()
      modifies this`slots, this`slotCnt, this`freeSpace
      ensures Decoded() && slots == Trim(old(slots))
      ensures freeSpace == old(freeSpace) + SLOT_SIZE * (|old(slots)| - |slots|)
    {
      while slotCnt < 0
        invariant Decoded() && Trim(slots) == Trim(old(slots))
        invariant freeSpace == old(freeSpace) + SLOT_SIZE * (|old(slots)| - |slots|)
      {
        var last := ReadSlot(slotCnt + 1);
        if last.length != -1 {
          break;
        }
        PopSlot();
        freeSpace := freeSpace + SLOT_SIZE;
      }
    }

    method FirstRecord() returns (status: Status, slotNo: int)
      requires Decoded()
      ensures (status, slotNo) == SlottedPage.FirstRecord(Abs().area)
    {
      var i := 0;
      while i > slotCnt
        invariant slotCnt <= i <= 0 && Abs().area.NextLive(0) == Abs().area.NextLive(-i)
      {
        var s := ReadSlot(i);
        if s.length == -1 { i := i - 1; } else { break; }
      }
      if i == slotCnt {
        return NORECORDS, 0;
      }
      return OK, -i;
    }

    /** `curSlot` is -1 for NULLRID, and then this finds the first record. */
    method NextRecord(curSlot: int) returns (status: Status, slotNo: int)
      requires Decoded() && curSlot >= -1
      ensures (status, slotNo) == SlottedPage.NextRecord(Abs().area, curSlot)
    {
      var i := -curSlot;
      i := i - 1;
      while i > slotCnt
        invariant i <= 0 && Abs().area.NextLive(curSlot + 1) == Abs().area.NextLive(-i)
      {
        var s := ReadSlot(i);
        if s.length == -1 { i := i - 1; } else { break; }
      }
      if i <= slotCnt {
        return ENDOFPAGE, 0;
      }
      return OK, -i;
    }

    lemma {:induction false} UsedBytes(lo: int, hi: int)
      requires Decoded() && 0 <= lo <= hi <= |data|
      ensures |data| <= mem.Length && mem[lo..hi] == data[lo..hi]
    {
      assert mem[..][..|data|][lo..hi] == mem[lo..hi];
    }

    method GetRecord(slotNo: int) returns (status: Status, rec: seq<byte>)
      requires Valid() && slotNo >= 0
      ensures Abs().area.Live(slotNo) ==> Abs().area.Within(slotNo)
      ensures (status, rec) == SlottedPage.GetRecord(Abs().area, slotNo)
    {
      assert Abs().area.Live(slotNo) ==> Abs().area.Within(slotNo);
      if -slotNo > slotCnt {
        var s := ReadSlot(-slotNo);
        if s.length > 0 {
          rec := mem[s.offset..s.End()];
          UsedBytes(s.offset, s.End());
          return OK, rec;
        }
      }
      return INVALIDSLOTNO, [];
    }
  }
}
