/**
  The slotted page as a value: record bytes packed from offset 0 and a slot per record
  number.  The operations are functions on it; the class in PageBytes.dfy performs them
  in place on the bytes of a page.
 */
module SlottedPage {
  import opened Bytes
  import opened Errors

  const DPFIXED := 20                       // one slot, four shorts, two ints
  const DATA_SIZE := PAGESIZE - DPFIXED     // 1004
  const SLOT_SIZE := 4

  /** Slot array element; length -1 marks a slot that is not in use. */
  datatype Slot = Slot(offset: int, length: int) {
    function End(): int { offset + length }
    predicate Free() { length == -1 }
  }

  /** `data` is the used part data[0..freePtr); element k of `slots` is slot[-k] of the page. */
  datatype Area = Area(data: seq<byte>, slots: seq<Slot>, freeSpace: int) {

    predicate Live(k: int) {
      0 <= k < |slots| && !slots[k].Free()
    }

    /** Can deleteRecord and getRecord see slot k?  A record of length 0 is stored but not seen. */
    predicate Readable(k: int) {
      0 <= k < |slots| && slots[k].length > 0
    }

    predicate Within(k: int)
      requires 0 <= k < |slots|
    {
      0 <= slots[k].offset && 0 <= slots[k].length && slots[k].End() <= |data|
    }

    predicate Apart(j: int, k: int)
      requires 0 <= j < |slots| && 0 <= k < |slots|
    {
      slots[j].End() <= slots[k].offset || slots[k].End() <= slots[j].offset
    }

    predicate Covers(k: int, b: int) {
      Live(k) && slots[k].offset <= b < slots[k].End()
    }

    ghost predicate CoveredAt(b: int) {
      exists k :: Covers(k, b)
    }

    ghost predicate Bounded() {
      forall k {:trigger Within(k)} | Live(k) :: Within(k)
    }

    ghost predicate Disjoint() {
      forall j, k {:trigger Apart(j, k)} | Live(j) && Live(k) && j != k :: Apart(j, k)
    }

    ghost predicate Covered() {
      forall b | 0 <= b < |data| :: CoveredAt(b)
    }

    /** Space is accounted for to the byte. */
    predicate Accounted() {
      && 0 <= freeSpace
      && |data| + freeSpace + SLOT_SIZE * |slots| == DATA_SIZE
      && |data| == LiveLength(slots)
    }

    /** The live extents tile [0, freePtr), the space is accounted for,
        and the slot array carries no free slot at its end. */
    ghost predicate Valid() {
      && Bounded() && Disjoint() && Covered() && Accounted()
      && (|slots| > 0 ==> !slots[|slots| - 1].Free())
    }

    /** The bytes of slot k. */
    function Extent(k: int): seq<byte>
      requires 0 <= k < |slots| && Within(k)
    {
      data[slots[k].offset..slots[k].End()]
    }

    /** The page as a map from slot number to record bytes. */
    ghost function Records(): map<int, seq<byte>>
      requires Bounded()
    {
      map k | 0 <= k < |slots| && Live(k) :: (assert Within(k); Extent(k))
    }

    /** The first live slot at or after k, or the number of slots. */
    function NextLive(k: nat): (r: nat)
      ensures k <= |slots| ==> r <= |slots|
      ensures k <= r && (r < |slots| ==> Live(r))
      ensures forall j | k <= j < r :: !Live(j)
      decreases |slots| - k
    {
      if k >= |slots| || Live(k) then k else NextLive(k + 1)
    }
  }

  datatype PageState = PageState(area: Area, nextPage: int, pageNo: int) {
    ghost predicate Valid() { area.Valid() }
  }

  /** Total length of the live slots. */
  function LiveLength(slots: seq<Slot>): int {
    if slots == [] then 0
    else LiveLength(slots[..|slots| - 1]) + SlotLength(slots[|slots| - 1])
  }

  function SlotLength(s: Slot): int {
    if s.Free() then 0 else s.length
  }

  const EmptyArea := Area([], [], DATA_SIZE)

  function InitPage(pageNo: int): PageState {
    PageState(EmptyArea, -1, pageNo)
  }

  /** The first free slot at or after k, or the number of slots. */
  function FreeSlot(slots: seq<Slot>, k: nat := 0): (r: nat)
    requires k <= |slots|
    ensures k <= r <= |slots|
    ensures r < |slots| ==> slots[r].Free()
    ensures forall j | k <= j < r :: !slots[j].Free()
    decreases |slots| - k
  {
    if k == |slots| || slots[k].Free() then k else FreeSlot(slots, k + 1)
  }

  predicate Fits(a: Area, rec: seq<byte>) {
    |rec| + SLOT_SIZE <= a.freeSpace
  }

  /** The area after a record that fits was added; it takes slot FreeSlot(a.slots). */
  function Add(a: Area, rec: seq<byte>): Area {
    var i, s := FreeSlot(a.slots), Slot(|a.data|, |rec|);
    if i == |a.slots| then
      Area(a.data + rec, a.slots + [s], a.freeSpace - |rec| - SLOT_SIZE)
    else
      Area(a.data + rec, a.slots[i := s], a.freeSpace - |rec|)
  }

  /** Slot s after a hole of `len` bytes at `off` was closed. */
  function ShiftSlot(s: Slot, off: int, len: int): Slot {
    if s.length >= 0 && s.offset > off then s.(offset := s.offset - len) else s
  }

  /** The offset loop of deleteRecord from slot n on. */
  function Shift(slots: seq<Slot>, off: int, len: int, n: nat := 0): (r: seq<Slot>)
    ensures |r| == |slots|
    decreases |slots| - n
  {
    if n >= |slots| then slots else Shift(slots[n := ShiftSlot(slots[n], off, len)], off, len, n + 1)
  }

  /** The slot array without its trailing free slots. */
  function Trim(slots: seq<Slot>): (r: seq<Slot>)
    ensures |r| <= |slots|
    ensures |r| > 0 ==> !r[|r| - 1].Free()
  {
    if |slots| > 0 && slots[|slots| - 1].Free() then Trim(slots[..|slots| - 1]) else slots
  }

  /** The slot array after slot k was closed up and marked free. */
  function Mark(slots: seq<Slot>, k: int): seq<Slot>
    requires 0 <= k < |slots|
  {
    Shift(slots, slots[k].offset, slots[k].length)[k := Slot(0, -1)]
  }

  /** The area after readable slot k was deleted and the bytes compacted. */
  function Remove(a: Area, k: int): Area
    requires a.Readable(k) && a.Within(k)
  {
    var kept := Trim(Mark(a.slots, k));
    Area(a.data[..a.slots[k].offset] + a.data[a.slots[k].End()..], kept,
         a.freeSpace + a.slots[k].length + SLOT_SIZE * (|a.slots| - |kept|))
  }

  // ---- The queries ----

  function FirstRecord(a: Area): (Status, int) {
    var r := a.NextLive(0);
    if r < |a.slots| then (OK, r) else (NORECORDS, 0)
  }

  /** `cur` is -1 for NULLRID, and then this finds the first record. */
  function NextRecord(a: Area, cur: int): (Status, int)
    requires cur >= -1
  {
    var r := a.NextLive(cur + 1);
    if r < |a.slots| then (OK, r) else (ENDOFPAGE, 0)
  }

  function GetRecord(a: Area, k: int): (Status, seq<byte>)
    requires a.Live(k) ==> a.Within(k)
  {
    if a.Readable(k) then (OK, a.Extent(k)) else (INVALIDSLOTNO, [])
  }

  /** getRecord answers from the map, and refuses free slots and records of length 0. */
  lemma {:induction false} GetRecordExact(a: Area, k: int)
    requires a.Valid()
    ensures a.Live(k) ==> a.Within(k)
    ensures GetRecord(a, k)
         == if k in a.Records() && a.Records()[k] != [] then (OK, a.Records()[k]) else (INVALIDSLOTNO, [])
  {
    assert a.Live(k) ==> a.Within(k);
  }

  lemma {:induction false} ShiftIndex(slots: seq<Slot>, off: int, len: int, n: nat, i: int)
    requires 0 <= i < |slots|
    ensures Shift(slots, off, len, n)[i] == if i < n then slots[i] else ShiftSlot(slots[i], off, len)
    decreases |slots| - n
  {
    if n < |slots| {
      ShiftIndex(slots[n := ShiftSlot(slots[n], off, len)], off, len, n + 1, i);
    }
  }

  lemma {:induction false} TrimIndex(slots: seq<Slot>, k: int)
    requires 0 <= k < |slots|
    ensures if k < |Trim(slots)| then Trim(slots)[k] == slots[k] else slots[k].Free()
  {
    if slots[|slots| - 1].Free() && k < |slots| - 1 {
      TrimIndex(slots[..|slots| - 1], k);
    }
  }

  lemma {:induction false} EmptyAreaValid()
    ensures EmptyArea.Valid() && EmptyArea.Records() == map[]
  {}

  /** Rewriting slot i moves the total by the difference of the two lengths. */
  lemma {:induction false} LiveLengthUpdate(slots: seq<Slot>, i: nat, s: Slot)
    requires i < |slots|
    ensures LiveLength(slots[i := s]) == LiveLength(slots) - SlotLength(slots[i]) + SlotLength(s)
  {
    var n := |slots| - 1;
    if i < n {
      LiveLengthUpdate(slots[..n], i, s);
      assert slots[i := s][..n] == slots[..n][i := s];
    } else {
      assert slots[i := s][..n] == slots[..n];
    }
  }

  /** The total depends on the lengths alone, and free slots at the end add nothing. */
  lemma {:induction false} LiveLengthSame(a: seq<Slot>, b: seq<Slot>)
    requires |a| <= |b|
    requires forall i | 0 <= i < |a| :: a[i].length == b[i].length
    requires forall i | |a| <= i < |b| :: b[i].Free()
    ensures LiveLength(a) == LiveLength(b)
  {
    if b != [] {
      var n := |b| - 1;
      LiveLengthSame(if |a| == |b| then a[..n] else a, b[..n]);
    }
  }

  // ---- insertRecord ----

  lemma {:induction false} AddSlot(a: Area, rec: seq<byte>, k: int)
    ensures var b, i := Add(a, rec), FreeSlot(a.slots);
      if k == i then b.Live(k) && b.slots[k] == Slot(|a.data|, |rec|)
      else b.Live(k) == a.Live(k) && (b.Live(k) ==> b.slots[k] == a.slots[k])
  {}

  lemma {:induction false} AddAccounted(a: Area, rec: seq<byte>)
    requires a.Accounted() && Fits(a, rec)
    ensures Add(a, rec).Accounted()
  {
    var i, s := FreeSlot(a.slots), Slot(|a.data|, |rec|);
    if i < |a.slots| {
      LiveLengthUpdate(a.slots, i, s);
    } else {
      assert (a.slots + [s])[..i] == a.slots;
    }
  }

  lemma {:induction false} AddCoveredAt(a: Area, rec: seq<byte>, b: int)
    requires a.Covered() && 0 <= b < |a.data| + |rec|
    ensures Add(a, rec).CoveredAt(b)
  {
    var k := FreeSlot(a.slots);
    if b < |a.data| {
      assert a.CoveredAt(b);
      k :| a.Covers(k, b);
    }
    AddSlot(a, rec, k);
    assert Add(a, rec).Covers(k, b);
  }

  lemma {:induction false} AddBounded(a: Area, rec: seq<byte>)
    requires a.Bounded()
    ensures Add(a, rec).Bounded()
  {
    var b := Add(a, rec);
    forall k | b.Live(k) ensures b.Within(k) {
      AddSlot(a, rec, k);
      assert a.Live(k) ==> a.Within(k);
    }
  }

  lemma {:induction false} AddDisjoint(a: Area, rec: seq<byte>)
    requires a.Bounded() && a.Disjoint()
    ensures Add(a, rec).Disjoint()
  {
    var b, i := Add(a, rec), FreeSlot(a.slots);
    forall j, k {:trigger b.Apart(j, k)} | b.Live(j) && b.Live(k) && j != k ensures b.Apart(j, k) {
      AddSlot(a, rec, j);
      AddSlot(a, rec, k);
      if j == i {
        assert a.Within(k);
      } else if k == i {
        assert a.Within(j);
      } else {
        assert a.Apart(j, k);
      }
    }
  }

  lemma {:induction false} AddValid(a: Area, rec: seq<byte>)
    requires a.Valid() && Fits(a, rec)
    ensures Add(a, rec).Valid()
  {
    AddAccounted(a, rec);
    AddBounded(a, rec);
    AddDisjoint(a, rec);
    forall b | 0 <= b < |a.data| + |rec| ensures Add(a, rec).CoveredAt(b) {
      AddCoveredAt(a, rec, b);
    }
  }

  lemma {:induction false} AddExtent(a: Area, rec: seq<byte>, k: int)
    requires a.Bounded() && Add(a, rec).Bounded() && (a.Live(k) || k == FreeSlot(a.slots))
    ensures Add(a, rec).Live(k) && Add(a, rec).Within(k) && (k != FreeSlot(a.slots) ==> a.Within(k))
    ensures Add(a, rec).Extent(k) == if k == FreeSlot(a.slots) then rec else a.Extent(k)
  {
    AddSlot(a, rec, k);
    var b := Add(a, rec);
    assert b.Within(k);
    if k == FreeSlot(a.slots) {
      assert b.Extent(k) == (a.data + rec)[|a.data|..|a.data| + |rec|] == rec;
    } else {
      assert a.Within(k);
      var s := a.slots[k];
      assert b.Extent(k) == (a.data + rec)[s.offset..s.End()] == a.data[s.offset..s.End()];
    }
  }

  /** insertRecord is exact: one new record under the lowest free slot number, nothing else touched. */
  lemma {:induction false} AddExact(a: Area, rec: seq<byte>)
    requires a.Valid() && Fits(a, rec)
    ensures Add(a, rec).Valid()
    ensures FreeSlot(a.slots) !in a.Records()
    ensures forall j | 0 <= j < FreeSlot(a.slots) :: j in a.Records()
    ensures Add(a, rec).Records() == a.Records()[FreeSlot(a.slots) := rec]
  {
    AddValid(a, rec);
    var b, r := Add(a, rec).Records(), a.Records()[FreeSlot(a.slots) := rec];
    forall k ensures k in b <==> k in r {
      AddSlot(a, rec, k);
    }
    forall k | k in r ensures b[k] == r[k] {
      AddExtent(a, rec, k);
    }
  }

  // ---- deleteRecord ----

  lemma {:induction false} RemoveAccounted(a: Area, k: int)
    requires a.Accounted() && a.Readable(k) && a.Within(k)
    ensures Remove(a, k).Accounted()
  {
    var off, len := a.slots[k].offset, a.slots[k].length;
    var shifted, marked := Shift(a.slots, off, len), Mark(a.slots, k);
    forall i | 0 <= i < |a.slots| ensures shifted[i].length == a.slots[i].length {
      ShiftIndex(a.slots, off, len, 0, i);
    }
    LiveLengthSame(shifted, a.slots);
    LiveLengthUpdate(shifted, k, Slot(0, -1));
    forall i | 0 <= i < |marked|
      ensures if i < |Trim(marked)| then Trim(marked)[i] == marked[i] else marked[i].Free()
    {
      TrimIndex(marked, i);
    }
    LiveLengthSame(Trim(marked), marked);
  }

  /** Deleting slot k moves slot j down by the length of the hole, if it lay above it. */
  lemma {:induction false} RemoveSlot(a: Area, k: int, j: int)
    requires a.Readable(k) && a.Within(k)
    ensures Remove(a, k).Live(j) == (a.Live(j) && j != k)
    ensures Remove(a, k).Live(j) ==>
              Remove(a, k).slots[j] == ShiftSlot(a.slots[j], a.slots[k].offset, a.slots[k].length)
  {
    if 0 <= j < |a.slots| {
      ShiftIndex(a.slots, a.slots[k].offset, a.slots[k].length, 0, j);
      TrimIndex(Mark(a.slots, k), j);
    }
  }

  lemma {:induction false} RemoveBounded(a: Area, k: int)
    requires a.Bounded() && a.Disjoint() && a.Readable(k) && a.Within(k)
    ensures Remove(a, k).Bounded()
  {
    var b := Remove(a, k);
    forall j | b.Live(j) ensures b.Within(j) {
      RemoveSlot(a, k, j);
      assert a.Within(j) && a.Apart(j, k);
    }
  }

  lemma {:induction false} RemoveDisjoint(a: Area, k: int)
    requires a.Bounded() && a.Disjoint() && a.Readable(k) && a.Within(k)
    ensures Remove(a, k).Disjoint()
  {
    var b := Remove(a, k);
    forall i, j {:trigger b.Apart(i, j)} | b.Live(i) && b.Live(j) && i != j ensures b.Apart(i, j) {
      RemoveSlot(a, k, i);
      RemoveSlot(a, k, j);
      assert a.Apart(i, j) && a.Apart(i, k) && a.Apart(j, k) && a.Within(i) && a.Within(j);
    }
  }

  lemma {:induction false} RemoveCoveredAt(a: Area, k: int, b: int)
    requires a.Bounded() && a.Disjoint() && a.Covered() && a.Readable(k) && a.Within(k)
    requires 0 <= b < |a.data| - a.slots[k].length
    ensures Remove(a, k).CoveredAt(b)
  {
    var b' := if b < a.slots[k].offset then b else b + a.slots[k].length;
    assert a.CoveredAt(b');
    var j :| a.Covers(j, b');
    RemoveSlot(a, k, j);
    assert a.Apart(j, k);
    assert Remove(a, k).Covers(j, b);
  }

  lemma {:induction false} RemoveValid(a: Area, k: int)
    requires a.Valid() && a.Readable(k)
    ensures a.Within(k) && Remove(a, k).Valid()
  {
    assert a.Within(k);
    RemoveAccounted(a, k);
    RemoveBounded(a, k);
    RemoveDisjoint(a, k);
    forall b | 0 <= b < |a.data| - a.slots[k].length ensures Remove(a, k).CoveredAt(b) {
      RemoveCoveredAt(a, k, b);
    }
  }

  lemma {:induction false} RemoveExtent(a: Area, k: int, j: int)
    requires a.Bounded() && a.Disjoint() && a.Readable(k) && a.Within(k) && j != k && a.Live(j)
    ensures Remove(a, k).Live(j) && Remove(a, k).Within(j) && a.Within(j)
    ensures Remove(a, k).Extent(j) == a.Extent(j)
  {
    RemoveSlot(a, k, j);
    assert a.Within(j) && a.Apart(j, k);
  }

  /** deleteRecord is exact: the record at k goes, every other slot number keeps its bytes. */
  lemma {:induction false} RemoveExact(a: Area, k: int)
    requires a.Valid() && a.Readable(k)
    ensures a.Within(k) && Remove(a, k).Valid()
    ensures Remove(a, k).Records() == a.Records() - {k}
  {
    RemoveValid(a, k);
    var b, r := Remove(a, k).Records(), a.Records() - {k};
    forall j ensures j in b <==> j in r {
      RemoveSlot(a, k, j);
    }
    forall j | j in r ensures b[j] == r[j] {
      RemoveExtent(a, k, j);
    }
  }

  // ---- Every reachable page, against a page that is only a map ----

  datatype PageOp = Insert(rec: seq<byte>) | Delete(slotNo: nat)

  /** The area after one operation; a refused operation leaves it alone. */
  ghost function StepPage(a: Area, op: PageOp): (b: Area)
    requires a.Valid()
    ensures b.Valid()
  {
    match op
    case Insert(rec) => if Fits(a, rec) then (AddValid(a, rec); Add(a, rec)) else a
    case Delete(k) => if a.Readable(k) then (RemoveValid(a, k); Remove(a, k)) else a
  }

  ghost function RunPage(ops: seq<PageOp>): (a: Area)
    ensures a.Valid()
  {
    if ops == [] then (EmptyAreaValid(); EmptyArea)
    else StepPage(RunPage(ops[..|ops| - 1]), ops[|ops| - 1])
  }

  /** The least number from k on that is not in use. */
  ghost function LowestFree(m: map<int, seq<byte>>, count: nat, k: nat := 0): nat
    decreases count - k
  {
    if k >= count || k !in m then k else LowestFree(m, count, k + 1)
  }

  /** One more than the largest number in use below `count`. */
  ghost function Bound(m: map<int, seq<byte>>, count: nat): nat {
    if count > 0 && count - 1 !in m then Bound(m, count - 1) else count
  }

  ghost function TotalLength(m: map<int, seq<byte>>, count: nat): nat {
    if count == 0 then 0
    else TotalLength(m, count - 1) + if count - 1 in m then |m[count - 1]| else 0
  }

  /** The page as a client can tell it apart: records by slot number, and how many slots are charged for. */
  datatype RefPage = RefPage(records: map<int, seq<byte>>, count: nat)

  ghost function StepRef(r: RefPage, op: PageOp): RefPage {
    match op
    case Insert(rec) =>
      if TotalLength(r.records, r.count) + SLOT_SIZE * (r.count + 1) + |rec| > DATA_SIZE then r
      else
        var k := LowestFree(r.records, r.count);
        RefPage(r.records[k := rec], if k < r.count then r.count else k + 1)
    case Delete(k) =>
      if k !in r.records || r.records[k] == [] then r
      else RefPage(r.records - {k}, Bound(r.records - {k}, r.count))
  }

  ghost function RunRef(ops: seq<PageOp>): RefPage {
    if ops == [] then RefPage(map[], 0) else StepRef(RunRef(ops[..|ops| - 1]), ops[|ops| - 1])
  }

  ghost function View(a: Area): RefPage
    requires a.Bounded()
  {
    RefPage(a.Records(), |a.slots|)
  }

  lemma {:induction false} TotalIsLiveLength(a: Area, n: nat)
    requires a.Bounded() && n <= |a.slots|
    ensures TotalLength(a.Records(), n) == LiveLength(a.slots[..n])
  {
    if n > 0 {
      TotalIsLiveLength(a, n - 1);
      assert a.slots[..n][..n - 1] == a.slots[..n - 1];
      assert a.Live(n - 1) ==> a.Within(n - 1);
    }
  }

  /** freeSpace is what the records and the slot array leave of the page, to the byte. */
  lemma {:induction false} SpaceExact(a: Area)
    requires a.Valid()
    ensures a.freeSpace == DATA_SIZE - TotalLength(a.Records(), |a.slots|) - SLOT_SIZE * |a.slots|
  {
    TotalIsLiveLength(a, |a.slots|);
    assert a.slots[..|a.slots|] == a.slots;
  }

  lemma {:induction false} LowestFreeIsFreeSlot(a: Area, k: nat)
    requires a.Bounded() && k <= |a.slots|
    ensures LowestFree(a.Records(), |a.slots|, k) == FreeSlot(a.slots, k)
    decreases |a.slots| - k
  {
    if k < |a.slots| && a.Live(k) {
      LowestFreeIsFreeSlot(a, k + 1);
    }
  }

  lemma {:induction false} BoundIs(m: map<int, seq<byte>>, count: nat, n: nat)
    requires n <= count && (n > 0 ==> n - 1 in m) && forall k | n <= k < count :: k !in m
    ensures Bound(m, count) == n
  {
    if n < count {
      BoundIs(m, count - 1, n);
    }
  }

  lemma {:induction false} InsertRefines(a: Area, rec: seq<byte>)
    requires a.Valid()
    ensures View(StepPage(a, Insert(rec))) == StepRef(View(a), Insert(rec))
  {
    SpaceExact(a);
    LowestFreeIsFreeSlot(a, 0);
    if Fits(a, rec) {
      AddExact(a, rec);
    }
  }

  lemma {:induction false} RemoveBound(a: Area, k: int)
    requires a.Valid() && a.Readable(k)
    ensures a.Within(k) && Bound(a.Records() - {k}, |a.slots|) == |Remove(a, k).slots|
  {
    RemoveExact(a, k);
    var n := |Remove(a, k).slots|;
    forall j | n <= j < |a.slots| ensures j !in a.Records() - {k} {
      RemoveSlot(a, k, j);
    }
    BoundIs(a.Records() - {k}, |a.slots|, n);
  }

  lemma {:induction false} DeleteRefines(a: Area, k: nat)
    requires a.Valid()
    ensures View(StepPage(a, Delete(k))) == StepRef(View(a), Delete(k))
  {
    assert a.Live(k) ==> a.Within(k);
    if a.Readable(k) {
      RemoveExact(a, k);
      RemoveBound(a, k);
    }
  }

  /** Whatever inserts and deletes a page went through, it satisfies the space invariant and
      is indistinguishable from the map that was put through the same operations. */
  lemma {:induction false} ReachablePage(ops: seq<PageOp>)
    ensures RunPage(ops).Valid()
    ensures View(RunPage(ops)) == RunRef(ops)
  {
    if ops == [] {
      EmptyAreaValid();
    } else {
      var before, op := ops[..|ops| - 1], ops[|ops| - 1];
      ReachablePage(before);
      match op
      case Insert(rec) => InsertRefines(RunPage(before), rec);
      case Delete(k) => DeleteRefines(RunPage(before), k);
    }
  }
}
