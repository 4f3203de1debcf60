/**
  The clock over whole runs: what the reference bits say of the past, and which pages that protects.
 */
module ClockHistory {
  import opened BufferHash
  import opened ClockPolicy

  /** A page is read or gets its frame, or the hand comes to a frame. */
  datatype Event = Used(frame: int) | Reached(frame: int)

  /** The frame was used and the hand has not come to it since. */
  function Recent(events: seq<Event>, f: int): bool {
    if events == [] then false
    else
      var e := events[|events| - 1];
      if e.frame == f then e.Used? else Recent(events[..|events| - 1], f)
  }

  ghost predicate UsedLast(events: seq<Event>, f: int, j: int) {
    0 <= j < |events| && events[j] == Used(f) && forall m | j < m < |events| :: events[m] != Reached(f)
  }

  lemma {:induction false} RecentMeans(events: seq<Event>, f: int)
    ensures Recent(events, f) <==> exists j :: UsedLast(events, f, j)
  {
    if events != [] {
      var m := |events| - 1;
      var front := events[..m];
      RecentMeans(front, f);
      if j :| UsedLast(events, f, j) {
        assert j < m ==> UsedLast(front, f, j);
      }
      if events[m] == Used(f) {
        assert UsedLast(events, f, m);
      } else if j :| UsedLast(front, f, j) {
        assert events[m] != Reached(f) ==> UsedLast(events, f, j);
      }
    }
  }

  predicate TracksAt(table: seq<BufDesc>, events: seq<Event>, i: int)
    requires 0 <= i < |table|
  {
    table[i].valid ==> table[i].refbit == Recent(events, i)
  }

  ghost predicate TracksAll(table: seq<BufDesc>, events: seq<Event>) {
    forall i {:trigger TracksAt(table, events, i)} | 0 <= i < |table| :: TracksAt(table, events, i)
  }

  /** The reference bits of the pages in the pool tell which of them were used since the hand last came to them. */
  ghost predicate Tracks(table: seq<BufDesc>, events: seq<Event>) {
    forall t {:trigger TracksAll(t, events)} | t == table :: TracksAll(t, events)
  }

  lemma {:induction false} TracksUse(table: seq<BufDesc>, events: seq<Event>, f: int, d: BufDesc)
    requires Tracks(table, events) && 0 <= f < |table| && d.refbit
    ensures Tracks(table[f := d], events + [Used(f)])
  {
    assert TracksAll(table, events);
    var after, more := table[f := d], events + [Used(f)];
    forall i {:trigger TracksAt(after, more, i)} | 0 <= i < |after| ensures TracksAt(after, more, i) {
      assert TracksAt(table, events, i) && more[..|events|] == events;
    }
  }

  /** A frame that is left valid keeps its reference bit. */
  lemma {:induction false} TracksKeep(table: seq<BufDesc>, events: seq<Event>, f: int, d: BufDesc)
    requires Tracks(table, events) && 0 <= f < |table| && (d.valid ==> table[f].valid && d.refbit == table[f].refbit)
    ensures Tracks(table[f := d], events)
  {
    assert TracksAll(table, events);
    var after := table[f := d];
    forall i {:trigger TracksAt(after, events, i)} | 0 <= i < |after| ensures TracksAt(after, events, i) {
      assert TracksAt(table, events, i);
    }
  }

  lemma {:induction false} TracksReach(table: seq<BufDesc>, events: seq<Event>, f: int)
    requires Tracks(table, events) && 0 <= f < |table|
    ensures Tracks(table[f := table[f].Unreferenced()], events + [Reached(f)])
    ensures table[f].Ready() ==> Tracks(table, events + [Reached(f)])
  {
    assert TracksAll(table, events);
    var after, more := table[f := table[f].Unreferenced()], events + [Reached(f)];
    forall i {:trigger TracksAt(after, more, i)} | 0 <= i < |after| ensures TracksAt(after, more, i) {
      assert TracksAt(table, events, i) && more[..|events|] == events;
    }
    forall i {:trigger TracksAt(table, more, i)} | 0 <= i < |table| && table[f].Ready()
      ensures TracksAt(table, more, i)
    {
      assert TracksAt(table, events, i) && more[..|events|] == events;
    }
  }

  // ---- The steps of the clock ----

  /** The frames, the hand, and all that has happened. */
  datatype Dial = Dial(table: seq<BufDesc>, hand: int, events: seq<Event>)

  /** The frames the hand comes to in k advances. */
  function Turn(hand: int, k: nat, n: int): seq<Event> {
    if k == 0 then [] else Turn(hand, k - 1, n) + [Reached(HandAfter(hand, k, n))]
  }

  /** How far the hand goes for frame f: up to it, and a turn more if no frame could be taken at first. */
  function Way(table: seq<BufDesc>, hand: int, f: int): int
    requires 0 <= f < |table|
  {
    Dist(hand, f, |table|) + if ReadyAt(table, f) then 0 else |table|
  }

  /** The way of a sweep that takes the frame it comes to. */
  lemma {:induction false} WayIs(before: seq<BufDesc>, now: seq<BufDesc>, hand: int, s: nat)
    requires 0 <= hand < |before| && s < 2 * |before| && Sweeping(before, now, hand, s)
    requires 0 <= HandAfter(hand, s + 1, |before|) < |before| && now[HandAfter(hand, s + 1, |before|)].Ready()
    ensures Way(before, hand, HandAfter(hand, s + 1, |before|)) == s + 1
  {
    var c := HandAfter(hand, s + 1, |before|);
    assert Passed(before, now, hand, s, c);
    assert ReadyAt(before, c) <==> s < |before|;
  }

  /** The hand goes from frame to frame and from the last one to the first; Dist says after how many advances it
      is at a frame. */
  lemma {:induction false} HandGoes(hand: int, s: nat, n: int, i: int)
    requires 0 <= hand < n && s < 2 * n && 0 <= i < n
    ensures HandAfter(hand, 0, n) == hand && 0 <= HandAfter(hand, s, n) < n
    ensures HandAfter(hand, s + 1, n) == if HandAfter(hand, s, n) + 1 == n then 0 else HandAfter(hand, s, n) + 1
    ensures 1 <= Dist(hand, i, n) <= n && HandAfter(hand, Dist(hand, i, n), n) == i
  {}

  lemma {:induction false} TracksNone(table: seq<BufDesc>)
    requires forall i {:trigger table[i]} | 0 <= i < |table| :: !table[i].valid
    ensures Tracks(table, [])
  {}

  /** Frame f has become free: the hand stands on it and has taken the reference bits on its way. */
  ghost predicate Stopped(c: Dial, d: Dial, f: int) {
    && d.hand == f && Victim(c.table, c.hand, f) && SweptTo(c.table, d.table, c.hand, f)
    && Way(c.table, c.hand, f) >= 0 && d.events == c.events + Turn(c.hand, Way(c.table, c.hand, f), |c.table|)
  }

  ghost predicate StopsAt(c: Dial, d: Dial, f: int) {
    forall e {:trigger Stopped(c, e, f)} | e == d :: Stopped(c, e, f)
  }

  /** All frames are pinned: two turns have taken all reference bits, and the hand is where it was. */
  ghost predicate WentRound(c: Dial, d: Dial) {
    && d.hand == c.hand && |d.table| == |c.table| && d.events == c.events + Turn(c.hand, 2 * |c.table|, |c.table|)
    && forall i {:trigger d.table[i]} | 0 <= i < |d.table| :: d.table[i] == c.table[i].(refbit := false)
  }

  ghost predicate GoesRound(c: Dial, d: Dial) {
    forall e {:trigger WentRound(c, e)} | e == d :: WentRound(c, e)
  }

  /** A page that was in frame f has one pin more, and its reference bit. */
  ghost predicate WasHit(c: Dial, d: Dial, f: int) {
    && 0 <= f < |c.table| && d.hand == c.hand && d.events == c.events + [Used(f)]
    && d.table == c.table[f := c.table[f].(pinCnt := c.table[f].pinCnt + 1, refbit := true)]
  }

  ghost predicate IsHit(c: Dial, d: Dial, f: int) {
    forall e {:trigger WasHit(c, e, f)} | e == d :: WasHit(c, e, f)
  }

  /** Frame f goes to a page, which is pinned and has its reference bit. */
  ghost predicate WasGiven(c: Dial, d: Dial, f: int, id: PageId) {
    && 0 <= f < |c.table| && d.hand == c.hand && d.events == c.events + [Used(f)]
    && d.table == c.table[f := BufDesc(id.file, id.pageNo, 1, false, true, true)]
  }

  ghost predicate IsGiven(c: Dial, d: Dial, f: int, id: PageId) {
    forall e {:trigger WasGiven(c, e, f, id)} | e == d :: WasGiven(c, e, f, id)
  }

  lemma {:induction false} Giving(c: Dial, f: int, id: PageId)
    requires Tracks(c.table, c.events) && 0 <= f < |c.table|
    ensures var table, events := c.table[f := Set(id)], c.events + [Used(f)];
      Tracks(table, events) && IsGiven(c, Dial(table, c.hand, events), f, id)
  {
    TracksUse(c.table, c.events, f, Set(id));
  }

  /** The clock chose frame f for a page: all other frames are as the sweep left them. */
  ghost predicate WasClaimed(c: Dial, d: Dial, f: int, id: PageId) {
    && d.hand == f && Victim(c.table, c.hand, f) && |d.table| == |c.table|
    && d.table[f] == BufDesc(id.file, id.pageNo, 1, false, true, true)
    && (forall i {:trigger SweptAt(c.table, d.table, c.hand, f, i)} | 0 <= i < |c.table| && i != f ::
          SweptAt(c.table, d.table, c.hand, f, i))
    && Way(c.table, c.hand, f) >= 0
    && d.events == c.events + Turn(c.hand, Way(c.table, c.hand, f), |c.table|) + [Used(f)]
  }

  ghost predicate Claims(c: Dial, d: Dial, f: int, id: PageId) {
    forall e {:trigger WasClaimed(c, e, f, id)} | e == d :: WasClaimed(c, e, f, id)
  }

  lemma {:induction false} StopsAndGives(c: Dial, b: Dial, d: Dial, f: int, id: PageId)
    requires StopsAt(c, b, f) && IsGiven(b, d, f, id)
    ensures Claims(c, d, f, id)
  {
    assert Stopped(c, b, f) && WasGiven(b, d, f, id);
    forall i {:trigger SweptAt(c.table, d.table, c.hand, f, i)} | 0 <= i < |c.table| && i != f
      ensures SweptAt(c.table, d.table, c.hand, f, i)
    {
      assert SweptAt(c.table, b.table, c.hand, f, i);
    }
  }

  // ---- What the hand takes ----

  /** Second chance: a page that was used since the hand last came to it is evicted only if all other pages are
      pinned or were used since then, too, and no frame is empty. */
  lemma {:induction false} SecondChance(c: Dial, f: int)
    requires Tracks(c.table, c.events) && Victim(c.table, c.hand, f) && c.table[f].valid && Recent(c.events, f)
    requires forall i | 0 <= i < |c.table| :: c.table[i].pinCnt >= 0
    ensures forall i {:trigger c.table[i]} | 0 <= i < |c.table| ::
      c.table[i].valid && (c.table[i].pinCnt > 0 || Recent(c.events, i))
  {
    assert TracksAll(c.table, c.events) && TracksAt(c.table, c.events, f);
    assert !ReadyAt(c.table, f);
    forall i {:trigger c.table[i]} | 0 <= i < |c.table|
      ensures c.table[i].valid && (c.table[i].pinCnt > 0 || Recent(c.events, i))
    {
      assert TracksAt(c.table, c.events, i) && !ReadyAt(c.table, i);
    }
  }

  /** If some unpinned page was not used since the hand came to it, the first such one on the way of the hand goes,
      or the first empty frame, whichever comes first. */
  lemma {:induction false} FirstGoes(c: Dial, f: int, i: int)
    requires Tracks(c.table, c.events) && Victim(c.table, c.hand, f) && 0 <= i < |c.table|
    requires !(c.table[i].valid && (c.table[i].pinCnt > 0 || Recent(c.events, i)))
    requires forall i | 0 <= i < |c.table| :: c.table[i].pinCnt >= 0
    ensures !(c.table[f].valid && (c.table[f].pinCnt > 0 || Recent(c.events, f)))
    ensures Dist(c.hand, f, |c.table|) <= Dist(c.hand, i, |c.table|)
  {
    assert TracksAll(c.table, c.events) && TracksAt(c.table, c.events, f) && TracksAt(c.table, c.events, i);
    assert ReadyAt(c.table, i);
    assert FirstReady(c.table, c.hand, f);
  }

  /** After the hand has stopped, exactly the frames it came to have lost their reference bits. */
  lemma {:induction false} TurnReaches(hand: int, k: nat, n: int, i: int)
    requires 0 <= hand < n && k <= 2 * n && 0 <= i < n
    ensures Reached(i) in Turn(hand, k, n) <==> Dist(hand, i, n) <= k
  {
    if k > 0 {
      TurnReaches(hand, k - 1, n, i);
      assert HandAfter(hand, k, n) == i <==> k == Dist(hand, i, n) || k == Dist(hand, i, n) + n;
    }
  }

  /** What a hit, a choice, and a search in vain leave: frame by frame. */
  lemma {:induction false} HitMeans(c: Dial, d: Dial, f: int, i: int)
    requires IsHit(c, d, f) && 0 <= i < |c.table|
    ensures d.hand == c.hand && d.events == c.events + [Used(f)] && |d.table| == |c.table| && 0 <= f < |c.table|
    ensures d.table[i] == if i == f then c.table[f].(refbit := true, pinCnt := c.table[f].pinCnt + 1) else c.table[i]
  {
    assert WasHit(c, d, f);
  }

  lemma {:induction false} ClaimsMean(c: Dial, d: Dial, f: int, id: PageId, i: int)
    requires Claims(c, d, f, id) && 0 <= i < |c.table| && 0 <= c.hand < |c.table|
    ensures Victim(c.table, c.hand, f) && d.hand == f && |d.table| == |c.table| && 0 <= f < |c.table|
    ensures d.events != [] && d.events[|d.events| - 1] == Used(f)
    ensures var n := |c.table|;
      d.table[i] == if i == f then BufDesc(id.file, id.pageNo, 1, false, true, true)
                    else if Reached(i) in Turn(c.hand, Way(c.table, c.hand, f), n) then c.table[i].(refbit := false)
                    else c.table[i]
  {
    assert WasClaimed(c, d, f, id);
    TurnReaches(c.hand, Way(c.table, c.hand, f), |c.table|, i);
    if i != f {
      assert SweptAt(c.table, d.table, c.hand, f, i);
    }
  }

  lemma {:induction false} RoundMeans(c: Dial, d: Dial, i: int)
    requires GoesRound(c, d) && 0 <= i < |c.table|
    ensures d.hand == c.hand && |d.table| == |c.table| && d.table[i] == c.table[i].(refbit := false)
    ensures d.events == c.events + Turn(c.hand, 2 * |c.table|, |c.table|)
  {
    assert WentRound(c, d);
  }
}
