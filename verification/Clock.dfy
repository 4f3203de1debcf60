/**
  Frame descriptors and the clock replacement policy: which frame a sweep of the clock
  ends on, and what it does to the reference bits, said without the sweep.
 */
module ClockPolicy {
  import opened Files
  import opened BufferHash

  datatype BufDesc = BufDesc(file: File?, pageNo: int, pinCnt: int, dirty: bool, valid: bool, refbit: bool) {

    /** BufDesc::Clear leaves the reference bit alone. */
    function Clear(): BufDesc {
      BufDesc(null, -1, 0, false, false, refbit)
    }

    function Unreferenced(): BufDesc { this.(refbit := false) }

    /** The clock takes such a frame the first time it comes by. */
    predicate Ready() { !valid || (!refbit && pinCnt == 0) }

    predicate Pinned() { valid && pinCnt > 0 }
  }

  /** BufDesc::Set */
  function Set(id: PageId): BufDesc {
    BufDesc(id.file, id.pageNo, 1, false, true, true)
  }

  const NoFrame := BufDesc(null, -1, 0, false, false, false)

  /** After how many advances of the hand frame i is under it: 1..n. */
  function Dist(hand: int, i: int, n: int): int {
    if i > hand then i - hand else i - hand + n
  }

  function Advance(hand: int, n: int): (h: int)
    requires 0 <= hand < n
    ensures h == if hand + 1 == n then 0 else hand + 1
  {
    (hand + 1) % n
  }

  predicate ReadyAt(table: seq<BufDesc>, i: int)
    requires 0 <= i < |table|
  {
    table[i].Ready()
  }

  predicate PinnedAt(table: seq<BufDesc>, i: int)
    requires 0 <= i < |table|
  {
    table[i].Pinned()
  }

  ghost predicate FirstReady(table: seq<BufDesc>, hand: int, v: int)
    requires 0 <= v < |table|
  {
    && ReadyAt(table, v)
    && forall i {:trigger ReadyAt(table, i)} | 0 <= i < |table| && ReadyAt(table, i) ::
         Dist(hand, v, |table|) <= Dist(hand, i, |table|)
  }

  ghost predicate NoneReady(table: seq<BufDesc>) {
    forall i {:trigger ReadyAt(table, i)} | 0 <= i < |table| :: !ReadyAt(table, i)
  }

  ghost predicate FirstUnpinned(table: seq<BufDesc>, hand: int, v: int)
    requires 0 <= v < |table|
  {
    && !PinnedAt(table, v)
    && forall i {:trigger PinnedAt(table, i)} | 0 <= i < |table| && !PinnedAt(table, i) ::
         Dist(hand, v, |table|) <= Dist(hand, i, |table|)
  }

  /** The clock's choice: the nearest frame that is invalid, or unpinned and unreferenced;
      if there is none, the nearest unpinned frame. */
  ghost predicate Victim(table: seq<BufDesc>, hand: int, v: int) {
    && 0 <= v < |table|
    && (FirstReady(table, hand, v) || (NoneReady(table) && FirstUnpinned(table, hand, v)))
  }

  predicate SweptAt(before: seq<BufDesc>, after: seq<BufDesc>, hand: int, v: int, i: int)
    requires 0 <= v < |before| == |after| && 0 <= i < |before|
  {
    after[i] == if ReadyAt(before, v) && Dist(hand, i, |before|) >= Dist(hand, v, |before|)
                then before[i] else before[i].Unreferenced()
  }

  /** The sweep to v took the reference bit of every frame it passed. */
  ghost predicate SweptTo(before: seq<BufDesc>, after: seq<BufDesc>, hand: int, v: int)
    requires 0 <= v < |before|
  {
    && |after| == |before|
    && forall i {:trigger SweptAt(before, after, hand, v, i)} | 0 <= i < |before| :: SweptAt(before, after, hand, v, i)
  }

  ghost predicate AllPinned(table: seq<BufDesc>) {
    forall i {:trigger PinnedAt(table, i)} | 0 <= i < |table| :: PinnedAt(table, i)
  }

  /** Every frame is taken but the one under the hand, which is unpinned but was referenced. */
  ghost predicate OnlyHandUnpinned(table: seq<BufDesc>, hand: int)
    requires 0 <= hand < |table|
  {
    && table[hand].valid && table[hand].refbit && table[hand].pinCnt == 0
    && forall i {:trigger PinnedAt(table, i)} | 0 <= i < |table| && i != hand :: PinnedAt(table, i)
  }

  // ---- A sweep under way ----

  /** Where the hand is after s <= 2n advances. */
  function HandAfter(hand: int, s: int, n: int): int {
    if hand + s < n then hand + s else if hand + s < 2 * n then hand + s - n else hand + s - 2 * n
  }

  /** What s advances that took no frame say about frame i. */
  ghost predicate Passed(before: seq<BufDesc>, now: seq<BufDesc>, hand: int, s: int, i: int)
    requires 0 <= i < |before| == |now|
  {
    var n, d := |before|, Dist(hand, i, |before|);
    && now[i] == (if d <= s then before[i].Unreferenced() else before[i])
    && (d <= s ==> !before[i].Ready())
    && (d + n <= s ==> before[i].Pinned())
  }

  ghost predicate Sweeping(before: seq<BufDesc>, now: seq<BufDesc>, hand: int, s: int) {
    && |now| == |before|
    && (forall i | 0 <= i < |now| :: now[i].pinCnt >= 0)
    && forall i {:trigger Passed(before, now, hand, s, i)} | 0 <= i < |before| :: Passed(before, now, hand, s, i)
  }

  lemma {:induction false} SweepStart(table: seq<BufDesc>, hand: int)
    requires 0 <= hand < |table| && forall i | 0 <= i < |table| :: table[i].pinCnt >= 0
    ensures Sweeping(table, table, hand, 0)
  {}

  /** The hand passes a frame it cannot take. */
  lemma {:induction false} SweepPasses(before: seq<BufDesc>, now: seq<BufDesc>, hand: int, s: int)
    requires 0 <= hand < |before| && 0 <= s < 2 * |before| && Sweeping(before, now, hand, s)
    ensures 0 <= HandAfter(hand, s + 1, |before|) < |before|
    ensures var c := HandAfter(hand, s + 1, |before|);
      !now[c].Ready() ==> Sweeping(before, now[c := now[c].Unreferenced()], hand, s + 1)
  {
    var c := HandAfter(hand, s + 1, |before|);
    if !now[c].Ready() {
      var next := now[c := now[c].Unreferenced()];
      forall i {:trigger Passed(before, next, hand, s + 1, i)} | 0 <= i < |before|
        ensures Passed(before, next, hand, s + 1, i)
      {
        assert Passed(before, now, hand, s, i);
      }
    }
  }

  /** The hand reaches a frame it can take. */
  lemma {:induction false} SweepTakes(before: seq<BufDesc>, now: seq<BufDesc>, hand: int, s: int)
    requires 0 <= hand < |before| && 0 <= s < 2 * |before| && Sweeping(before, now, hand, s)
    requires 0 <= HandAfter(hand, s + 1, |before|) < |before| && now[HandAfter(hand, s + 1, |before|)].Ready()
    ensures var c := HandAfter(hand, s + 1, |before|);
      && Victim(before, hand, c) && SweptTo(before, now, hand, c)
      && !now[c].Pinned() && (!now[c].valid ==> s < |before|)
      && !AllPinned(before) && (s + 1 < 2 * |before| ==> !OnlyHandUnpinned(before, hand))
  {
    var n, c := |before|, HandAfter(hand, s + 1, |before|);
    assert Passed(before, now, hand, s, c) && Passed(before, now, hand, s, hand);
    assert ReadyAt(before, c) <==> s < n;
    assert !PinnedAt(before, c);
    forall i | 0 <= i < n
      ensures Dist(hand, i, n) < Dist(hand, c, n) ==>
                !ReadyAt(before, i) && (s >= n ==> PinnedAt(before, i))
      ensures s >= n ==> !ReadyAt(before, i)
      ensures now[i] == if Dist(hand, i, n) <= s then before[i].Unreferenced() else before[i]
    {
      assert Passed(before, now, hand, s, i);
    }
  }

  /** Two full turns without taking a frame: all of them are pinned. */
  lemma {:induction false} SweepExhausted(before: seq<BufDesc>, now: seq<BufDesc>, hand: int)
    requires 0 <= hand < |before| && Sweeping(before, now, hand, 2 * |before|)
    ensures AllPinned(before) && HandAfter(hand, 2 * |before|, |before|) == hand
    ensures forall i {:trigger now[i]} | 0 <= i < |now| :: now[i] == before[i].(refbit := false)
  {
    forall i | 0 <= i < |before| ensures PinnedAt(before, i) && now[i] == before[i].(refbit := false) {
      assert Passed(before, now, hand, 2 * |before|, i);
    }
  }

  /** One advance short of two turns without taking a frame. */
  lemma {:induction false} SweepOneShort(before: seq<BufDesc>, now: seq<BufDesc>, hand: int)
    requires 0 <= hand < |before| && Sweeping(before, now, hand, 2 * |before| - 1)
    ensures AllPinned(before) || OnlyHandUnpinned(before, hand)
    ensures forall i {:trigger now[i]} | 0 <= i < |now| :: now[i] == before[i].(refbit := false)
    ensures HandAfter(hand, 2 * |before| - 1, |before|) == if hand == 0 then |before| - 1 else hand - 1
  {
    forall i | 0 <= i < |before|
      ensures !before[i].Ready() && before[i].pinCnt >= 0 && (i != hand ==> PinnedAt(before, i))
      ensures now[i] == before[i].(refbit := false)
    {
      assert Passed(before, now, hand, 2 * |before| - 1, i) && now[i].pinCnt >= 0;
    }
    assert !before[hand].Ready();
  }
}

/** The clock of stage 3 (p3-Buffer_Manager_for_DBMS), which gives up one step earlier. */
module StageThreeClock {
  import opened Errors
  import opened ClockPolicy

  class Clock {
    const numBufs: int
    const bufTable: array<BufDesc>
    var clockHand: int

    ghost predicate Valid()
      reads this, bufTable
    {
      && 0 <= clockHand < numBufs == bufTable.Length
      && forall i | 0 <= i < numBufs :: bufTable[i].pinCnt >= 0
    }

    constructor (bufs: int)
      requires bufs > 0
      ensures Valid() && numBufs == bufs && fresh(bufTable)
    {
      numBufs := bufs;
      bufTable := new BufDesc[bufs](_ => NoFrame);
      clockHand := bufs - 1;
    }

    /** The frame allocBuf settles on.  It reports BUFFEREXCEEDED not only when every frame is
        pinned but also when the one unpinned frame is under the hand, its reference bit set. */
    method ChooseFrame() returns (status: Status, frame: int)
      requires Valid()
      modifies this`clockHand, bufTable
      ensures Valid()
      ensures status == if AllPinned(old(bufTable[..])) || OnlyHandUnpinned(old(bufTable[..]), old(clockHand))
                        then BUFFEREXCEEDED else OK
      ensures status == OK ==> frame == clockHand && Victim(old(bufTable[..]), old(clockHand), frame)
      ensures status == OK ==> SweptTo(old(bufTable[..]), bufTable[..], old(clockHand), frame)
      ensures status != OK ==>
        && clockHand == (if old(clockHand) == 0 then numBufs - 1 else old(clockHand) - 1)
        && forall i | 0 <= i < numBufs :: bufTable[i] == old(bufTable[i]).(refbit := false)
    {
      ghost var before, hand := bufTable[..], clockHand;
      SweepStart(before, hand);
      var count := 0;
      while count < numBufs * 2 - 1
        invariant 0 <= count <= numBufs * 2 - 1
        invariant 0 <= clockHand < numBufs && clockHand == HandAfter(hand, count, numBufs)
        invariant Sweeping(before, bufTable[..], hand, count)
      {
        SweepPasses(before, bufTable[..], hand, count);
        clockHand := Advance(clockHand, numBufs);
        var curBuf := bufTable[clockHand];
        if curBuf.Ready() {
          SweepTakes(before, bufTable[..], hand, count);
        }
        if !curBuf.valid {
          return OK, clockHand;
        }
        if curBuf.refbit {
          bufTable[clockHand] := curBuf.Unreferenced();
          count := count + 1;
          continue;
        }
        if curBuf.pinCnt != 0 {
          assert bufTable[..] == bufTable[..][clockHand := curBuf.Unreferenced()];
          count := count + 1;
          continue;
        }
        return OK, clockHand;
      }
      SweepOneShort(before, bufTable[..], hand);
      return BUFFEREXCEEDED, 0;
    }
  }
}
