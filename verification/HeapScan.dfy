/**
  Scans of a heap file (HeapFileScan).  An open scan keeps one pin on the header page and one on
  its current page.
 */
module HeapScans {
  import opened Bytes
  import opened Errors
  import opened Sequences
  import opened SlottedPage
  import opened HeapSpec
  import opened HeapStores
  import opened Filters

  ghost predicate Stop(f: Filter, e: Entry)
    requires Usable(f)
  {
    e.bytes == [] || MatchRec(f, e.bytes)
  }

  /** The records ahead from the first one a scan stops at: one that matches, or one of length 0,
      which it cannot read. */
  ghost function SkipTo(f: Filter, es: seq<Entry>): (r: seq<Entry>)
    requires Usable(f)
    ensures |r| <= |es| && (r != [] ==> Stop(f, r[0]))
  {
    if es == [] || Stop(f, es[0]) then es else SkipTo(f, es[1..])
  }

  /** The scan stops at a record that matches, or that it cannot read, and at none before that. */
  lemma {:induction false} SkipMeans(f: Filter, es: seq<Entry>)
    requires Usable(f)
    ensures var r := SkipTo(f, es);
      && es == es[..|es| - |r|] + r && (r != [] ==> r[0].bytes == [] || MatchRec(f, r[0].bytes))
      && forall e | e in es[..|es| - |r|] :: e.bytes != [] && !MatchRec(f, e.bytes)
  {
    if es != [] && !Stop(f, es[0]) {
      SkipMeans(f, es[1..]);
      var r := SkipTo(f, es[1..]);
      assert es[..|es| - |r|] == [es[0]] + es[1..][..|es| - 1 - |r|];
    }
  }

  ghost function Stopping(f: Filter): Entry -> bool
    requires Usable(f)
  {
    (e: Entry) => Usable(f) && Stop(f, e)
  }

  /** One call of scanNext takes one element off what a scan stops at, until none is left. */
  lemma {:induction false} StopsSkip(f: Filter, es: seq<Entry>)
    requires Usable(f)
    ensures var r := SkipTo(f, es);
      if r == [] then Pick(Stopping(f), es) == [] else Pick(Stopping(f), es) == [r[0]] + Pick(Stopping(f), r[1..])
  {
    if es != [] && !Stop(f, es[0]) {
      StopsSkip(f, es[1..]);
    }
  }

  /** A scan that was ended and is asked for a record reads the first page again,
      and gives up if there is no record on that page. */
  ghost function Reopened(ps: seq<PageState>): seq<Entry>
    requires AllValid(ps) && ps != []
  {
    if ps[0].area.NextLive(0) < SlotCount(ps[0]) then Listing(ps) else []
  }

  ghost predicate HasRecord(p: PageState) {
    p.area.NextLive(0) < SlotCount(p)
  }

  lemma {:induction false} NoEntries(ps: seq<PageState>, i: nat, j: nat)
    requires AllValid(ps) && j <= |ps|
    ensures FileEntries(ps, i, j) == [] <==> forall m | i <= m < j :: !HasRecord(ps[m])
    decreases j - i
  {
    if i < j {
      var p := ps[i];
      var r, n := p.area.NextLive(0), SlotCount(p);
      PageSplit(p, 0, r, n);
      if r == n {
        PageBeyond(p, 0, n);
      }
      NoEntries(ps, i + 1, j);
    }
  }

  /** A scan used again after it was ended sees the whole file exactly if its first page has a record, or
      no page has. */
  lemma {:induction false} ReopenedExact(ps: seq<PageState>)
    requires AllValid(ps) && ps != []
    ensures Reopened(ps) == Listing(ps) <==> HasRecord(ps[0]) || forall m | 0 <= m < |ps| :: !HasRecord(ps[m])
  {
    NoEntries(ps, 0, |ps|);
  }

  /** A file whose first page was emptied: the record on its second page is not found again. */
  lemma {:induction false} ReopenedLoses()
    ensures exists ps :: IsChain(ps) && AllValid(ps) && |Listing(ps)| == 1 && Reopened(ps) == []
  {
    var a := Area([7], [Slot(0, 1)], DATA_SIZE - 5);
    var ps := [PageState(EmptyArea, 2, 1), PageState(a, -1, 2)];
    EmptyAreaValid();
    assert LiveLength(a.slots[..0]) == 0;
    assert a.Covers(0, 0);
    assert ps[0].Valid() && ps[1].Valid();
    forall i {:trigger ChainAt(ps, i)} | 0 <= i < |ps| ensures ChainAt(ps, i) {}
    ListingOfOne(ps);
  }

  lemma {:induction false} ListingOfOne(ps: seq<PageState>)
    requires AllValid(ps) && |ps| == 2 && SlotCount(ps[0]) == 0 && SlotCount(ps[1]) == 1 && ps[1].area.Live(0)
    ensures |Listing(ps)| == 1
  {
    PageBeyond(ps[1], 1, 1);
    assert FileEntries(ps, 2, 2) == [];
    assert PageEntries(ps[1], 0, 1) == [EntryAt(ps[1], 0)] + PageEntries(ps[1], 1, 1);
    assert FileEntries(ps, 1, 2) == PageEntries(ps[1], 0, 1) + FileEntries(ps, 2, 2);
  }

  const NOTHING := Entry(NULLRID, [])

  class HeapFileScan {
    const store: HeapStore
    var hdrDirtyFlag: bool
    var hasPage: bool            // curPage != NULL
    var curPageNo: int
    var curDirtyFlag: bool
    var curRec: RID
    var filter: Filter
    var markedPageNo: int
    var markedRec: RID
    ghost const stray: set<int>  // pages that were changed and not pinned when the file was opened
    ghost var idx: nat           // the position of curPage in the chain
    ghost var markedIdx: nat
    ghost var rest: seq<Entry>   // the records ahead of the scan

    ghost predicate At(i: nat, pageNo: int, rec: RID)
      reads store`chain
    {
      i < |store.chain| && store.chain[i].pageNo == pageNo && rec.slotNo >= -1
    }

    /** What `rest` means, the current page being page i of the chain. */
    ghost predicate Ahead(i: nat)
      reads `hasPage, `curPageNo, `curRec, `rest, store`chain
    {
      && AllValid(store.chain) && i < |store.chain|
      && rest == if hasPage then From(store.chain, i, curRec.slotNo + 1)
                 else if curPageNo < 0 then []
                 else Reopened(store.chain)
    }

    /** The object knows where it is. */
    ghost predicate Placed()
      reads `hasPage, `idx, `curPageNo, `curRec, `rest, store`hdr, store`pages, store`numPages, store`chain
    {
      && store.Valid()
      && (hasPage ==> At(idx, curPageNo, curRec))
      && forall i {:trigger Ahead(i)} | i == (if hasPage then idx else 0) :: Ahead(i)
    }

    /** The pins on page n that are not this object's. */
    ghost function OtherPins(n: int): int
      reads `hasPage, `curPageNo, store`pins
    {
      store.pins[n] - Held(store.hdrPageNo, hasPage, curPageNo, n)
    }

    /** Page n was changed and this object is not going to unpin it dirty. */
    ghost predicate LeftDirty(n: int)
      reads `hdrDirtyFlag, `hasPage, `curPageNo, `curDirtyFlag, store`unsaved
    {
      n in store.unsaved && !Promised(store.hdrPageNo, hdrDirtyFlag, hasPage, curPageNo, curDirtyFlag, n)
    }

    /** The object took and gave back pins of its own only, and everything it changed in between
        it has unpinned dirty or is going to. */
    twostate predicate Conserved()
      reads `hdrDirtyFlag, `hasPage, `curPageNo, `curDirtyFlag, store`unsaved, store`pins
    {
      && (forall n {:trigger OtherPins(n)} :: OtherPins(n) == old(OtherPins(n)))
      && forall n {:trigger LeftDirty(n)} :: LeftDirty(n) ==> old(LeftDirty(n))
    }

    /** A changed page that this object will not unpin dirty is pinned by another client. */
    ghost predicate Minded()
      reads `hdrDirtyFlag, `hasPage, `curPageNo, `curDirtyFlag, store`unsaved, store`pins
    {
      forall n {:trigger LeftDirty(n)} | LeftDirty(n) && n !in stray :: OtherPins(n) > 0
    }

    /** The object holds its pins. */
    ghost predicate Pinned()
      reads `hdrDirtyFlag, `hasPage, `curPageNo, `curDirtyFlag, store`unsaved, store`pins
    {
      && OtherPins(store.hdrPageNo) >= 0 && OtherPins(curPageNo) >= 0 && Minded()
      && (curDirtyFlag ==> hasPage) && (!hasPage ==> curPageNo <= 0)
    }

    ghost predicate Valid()
      reads `hdrDirtyFlag, `hasPage, `idx, `curPageNo, `curRec, `curDirtyFlag, `filter, `rest
      reads store`hdr, store`pages, store`numPages, store`chain, store`pins, store`unsaved
    {
      Placed() && Pinned() && Usable(filter)
    }

    /** Nothing but the pages ahead of the current one is left to scan. */
    ghost predicate AtEnd(i: nat)
      reads `rest, store`chain
    {
      AllValid(store.chain) && i < |store.chain| && rest == FileEntries(store.chain, i + 1, |store.chain|)
    }

    ghost predicate PageDone()
      reads `idx, `rest, store`chain
    {
      forall i {:trigger AtEnd(i)} | i == idx :: AtEnd(i)
    }

    ghost predicate ComingAt(i: nat, es: seq<Entry>)
      reads store`chain
    {
      AllValid(store.chain) && i < |store.chain| && es == FileEntries(store.chain, i, |store.chain|)
    }

    /** `es` are the records of page i of the chain and of those behind it. */
    ghost predicate Coming(i: nat, es: seq<Entry>)
      reads store`chain
    {
      forall j {:trigger ComingAt(j, es)} | j == i :: ComingAt(j, es)
    }

    lemma {:induction false} DoneThenNext()
      requires Placed() && hasPage && PageDone()
      ensures if idx + 1 < |store.chain| then Coming(idx + 1, rest) else rest == []
    {
      assert AtEnd(idx);
    }

    ghost predicate Stands(i: nat, e: Entry)
      reads `curRec, store`chain
    {
      && i < |store.chain| && store.chain[i].Valid()
      && store.chain[i].area.Live(curRec.slotNo) && EntryAt(store.chain[i], curRec.slotNo) == e
    }

    /** The scan stands on record e. */
    ghost predicate IsOn(e: Entry)
      reads `hasPage, `idx, `curRec, store`chain
    {
      && hasPage && curRec == e.rid
      && forall i {:trigger Stands(i, e)} | i == idx :: Stands(i, e)
    }

    /** The heap file is opened with its first data page current. */
    constructor (store: HeapStore)
      requires store.Valid()
      modifies store`pins
      ensures Valid() && this.store == store && hasPage && curPageNo == store.hdr.firstPage && filter == NoFilter
      ensures stray == old(store.Strays()) && !Marked()
      ensures forall n {:trigger OtherPins(n)} :: OtherPins(n) == old(store.pins)[n]
      ensures forall n {:trigger LeftDirty(n)} :: LeftDirty(n) ==> n in store.unsaved
      ensures rest == store.Records()
    {
      this.store := store;
      hdrDirtyFlag, curDirtyFlag := false, false;
      hasPage := true;
      curPageNo := store.hdr.firstPage;
      curRec := NULLRID;
      filter := NoFilter;
      markedPageNo, markedRec := -1, NULLRID;
      idx, markedIdx, rest := 0, 0, store.Records();
      stray := store.Strays();
      new;
      store.Facts();
      store.PageAt(0);
      store.ReadPage(store.hdrPageNo);
      store.ReadPage(curPageNo);
      OpenedAhead();
    }

    lemma {:induction false} OpenedAhead()
      requires store.Valid() && hasPage && curPageNo == store.hdr.firstPage && curRec == NULLRID
      requires idx == 0 && rest == store.Records()
      ensures Placed()
    {
      store.Facts();
      FromPage(store.chain, 0);
      store.PageAt(0);
    }

    lemma {:induction false} Placing()
      requires store.Valid() && (hasPage ==> At(idx, curPageNo, curRec))
      requires AllValid(store.chain) || !hasPage
      requires rest == if hasPage then From(store.chain, idx, curRec.slotNo + 1)
                       else if curPageNo < 0 then [] else ReopenedRest()
      ensures Placed()
    {
      store.Facts();
    }

    // ---- Moving through the file ----

    /** Unpins the current page.  With number -1 the scan is at its end, with 0 it would start over. */
    method Release(pageNo: int)
      requires Valid() && hasPage && -1 <= pageNo <= 0
      modifies `hasPage, `curPageNo, `curDirtyFlag, `rest, store`pins, store`unsaved
      ensures Conserved()
      ensures Valid() && !hasPage && rest == if pageNo == 0 then ReopenedRest() else []
    {
      store.PageAt(idx);
      assert LeftDirty(curPageNo) <==> curPageNo in store.unsaved && !curDirtyFlag;
      store.UnPinPage(curPageNo, curDirtyFlag, stray);
      hasPage := false;
      curPageNo := pageNo;
      curDirtyFlag := false;
      rest := if pageNo == 0 then ReopenedRest() else [];
      Placing();
    }

    ghost function ReopenedRest(): seq<Entry>
      requires store.Valid()
      reads store`hdr, store`pages, store`numPages, store`chain
    {
      store.Facts();
      Reopened(store.chain)
    }

    /** Makes page i of the chain current, with the scan at record number rec of it. */
    method Acquire(pageNo: int, rec: RID, ghost i: nat)
      requires Valid() && !hasPage && At(i, pageNo, rec)
      modifies `hasPage, `curPageNo, `curDirtyFlag, `curRec, `idx, `rest, store`pins
      ensures Conserved()
      ensures Valid() && hasPage && curPageNo == pageNo && !curDirtyFlag && curRec == rec && idx == i
      ensures AllValid(store.chain) && rest == From(store.chain, i, rec.slotNo + 1)
    {
      store.PageNumber(i);
      store.ReadPage(pageNo);
      curPageNo := pageNo;
      curRec := rec;
      hasPage := true;
      curDirtyFlag := false;
      idx := i;
      store.Facts();
      rest := From(store.chain, i, rec.slotNo + 1);
      Placing();
    }

    /** The page the current one links to becomes current, if there is one. */
    method NextPage() returns (more: bool)
      requires Valid() && hasPage && PageDone()
      modifies `hasPage, `curPageNo, `curDirtyFlag, `curRec, `idx, `rest, store`pins, store`unsaved
      ensures Conserved()
      ensures Valid() && hasPage && idx == (if more then old(idx) + 1 else old(idx))
      ensures if more then Coming(idx, old(rest)) else rest == old(rest) == []
    {
      DoneThenNext();
      store.PageAt(idx);
      var nextPageNo := store.pages[curPageNo].nextPage;
      if nextPageNo == -1 {
        return false;
      }
      Release(-1);
      Acquire(nextPageNo, curRec, idx + 1);
      return true;
    }

    lemma {:induction false} AheadStep(r: int)
      requires Placed() && hasPage && r == store.chain[idx].area.NextLive(curRec.slotNo + 1)
      ensures AllValid(store.chain)
      ensures if r < SlotCount(store.chain[idx])
              then rest == [EntryAt(store.chain[idx], r)] + From(store.chain, idx, r + 1)
              else PageDone()
    {
      assert Ahead(idx);
      FromNext(store.chain, idx, curRec.slotNo + 1);
      if r >= SlotCount(store.chain[idx]) {
        assert AtEnd(idx);
      }
    }

    /** curPage->nextRecord(curRec, nextRid) */
    method NextOnPage() returns (found: bool, ghost e: Entry)
      requires Valid() && hasPage
      modifies `curRec, `rest
      ensures Valid()
      ensures found ==> IsOn(e) && old(rest) == [e] + rest
      ensures !found ==> rest == old(rest) && PageDone()
    {
      store.PageAt(idx);
      AheadStep(store.chain[idx].area.NextLive(curRec.slotNo + 1));
      var next := NextRecord(store.pages[curPageNo].area, curRec.slotNo);
      found := next.0 == OK;
      e := NOTHING;
      if found {
        e := StandOn(next.1);
      }
    }

    /** Record k of the current page becomes the current one. */
    method StandOn(k: int) returns (ghost e: Entry)
      requires Valid() && hasPage && AllValid(store.chain) && idx < |store.chain| && store.chain[idx].area.Live(k)
      modifies `curRec, `rest
      ensures Valid() && AllValid(store.chain)
      ensures e == EntryAt(store.chain[idx], k) && IsOn(e) && rest == From(store.chain, idx, k + 1)
    {
      curRec := RID(curPageNo, k);
      rest := From(store.chain, idx, k + 1);
      Placing();
      e := EntryAt(store.chain[idx], k);
    }

    lemma {:induction false} NoneHere(ahead: seq<Entry>)
      requires Placed() && hasPage && Coming(idx, ahead) && idx < |store.chain|
      requires store.chain[idx].area.NextLive(0) >= SlotCount(store.chain[idx])
      ensures rest == ahead && PageDone()
    {
      assert Ahead(idx) && ComingAt(idx, ahead);
      FromNext(store.chain, idx, 0);
      PageBeyond(store.chain[idx], curRec.slotNo + 1, SlotCount(store.chain[idx]));
      assert AtEnd(idx);
    }

    /** curPage->firstRecord(curRec), which leaves curRec alone when there is none. */
    method FirstOnPage(ghost ahead: seq<Entry>) returns (found: bool, ghost e: Entry)
      requires Valid() && hasPage && Coming(idx, ahead)
      modifies `curRec, `rest
      ensures Valid()
      ensures found ==> IsOn(e) && ahead == [e] + rest
      ensures !found ==> rest == ahead && PageDone()
      ensures found == (store.chain[idx].area.NextLive(0) < SlotCount(store.chain[idx]))
    {
      store.PageAt(idx);
      assert Ahead(idx) && ComingAt(idx, ahead);
      FromNext(store.chain, idx, 0);
      var first := FirstRecord(store.pages[curPageNo].area);
      found := first.0 == OK;
      e := NOTHING;
      if found {
        e := StandOn(first.1);
      } else {
        NoneHere(ahead);
      }
    }

    method TurnPage() returns (more: bool, found: bool, ghost e: Entry)
      requires Valid() && hasPage && PageDone()
      modifies `hasPage, `curPageNo, `curDirtyFlag, `curRec, `idx, `rest, store`pins, store`unsaved
      ensures Conserved()
      ensures Valid() && hasPage && idx == (if more then old(idx) + 1 else old(idx)) && (found ==> more)
      ensures found ==> IsOn(e) && old(rest) == [e] + rest
      ensures !found ==> rest == old(rest) && (if more then PageDone() else rest == [])
    {
      ghost var ahead := rest;
      more := NextPage();
      if more {
        found, e := FirstOnPage(ahead);
      } else {
        found, e := false, NOTHING;
      }
    }

    /** The current page has no more records: on to the first page that has one. */
    method SkipPages() returns (found: bool, ghost e: Entry)
      requires Valid() && hasPage && PageDone()
      modifies `hasPage, `curPageNo, `curDirtyFlag, `curRec, `idx, `rest, store`pins, store`unsaved
      ensures Conserved()
      ensures Valid() && hasPage
      ensures found ==> IsOn(e) && old(rest) == [e] + rest
      ensures !found ==> rest == old(rest) == []
    {
      var more := true;
      found, e := false, NOTHING;
      while !found && more
        invariant Valid() && hasPage
        invariant found ==> IsOn(e) && old(rest) == [e] + rest
        invariant !found ==> rest == old(rest) && (if more then PageDone() else rest == [])
        invariant Conserved()
        decreases |store.chain| - idx, more, !found
      {
        more, found, e := TurnPage();
      }
    }

    /** To the next record of the file, whether it matches or not. */
    method Advance() returns (found: bool, ghost e: Entry)
      requires Valid() && hasPage
      modifies `hasPage, `curPageNo, `curDirtyFlag, `curRec, `idx, `rest, store`pins, store`unsaved
      ensures Conserved()
      ensures Valid() && hasPage
      ensures found ==> IsOn(e) && old(rest) == [e] + rest
      ensures !found ==> rest == old(rest) == []
    {
      found, e := NextOnPage();
      if !found {
        found, e := SkipPages();
      }
    }

    // ---- The interface ----

    lemma {:induction false} OnBytes(e: Entry)
      requires Valid() && IsOn(e)
      ensures idx < |store.chain| && store.chain[idx].pageNo == curPageNo && curRec.slotNo >= 0
      ensures curPageNo in store.pages && store.pages[curPageNo] == store.chain[idx]
      ensures var a := store.chain[idx].area;
        && a.Live(curRec.slotNo) && a.Within(curRec.slotNo) && (a.Readable(curRec.slotNo) <==> e.bytes != [])
        && SlottedPage.GetRecord(a, curRec.slotNo) == if e.bytes == [] then (INVALIDSLOTNO, []) else (OK, e.bytes)
    {
      store.PageAt(idx);
      assert Stands(idx, e);
      assert store.chain[idx].area.Within(curRec.slotNo);
    }

    method StartScan(offset: int, length: int, typ: Datatype, value: seq<byte>, op: Operator) returns (status: Status)
      requires Valid() && (typ != STRING ==> |value| >= 4)
      modifies `filter
      ensures Conserved() && Valid()
      ensures var f := Filter(offset, length, typ, value, op);
        if Usable(f) then status == OK && filter == f else status == BADSCANPARM && filter == old(filter)
      ensures status == BADSCANPARM <==>
        offset < 0 || length < 1 || (typ == INTEGER && length != 4) || (typ == FLOAT && length != 4)
    {
      if offset < 0 || length < 1 || (typ == INTEGER && length != 4) || (typ == FLOAT && length != 4) {
        return BADSCANPARM;
      }
      filter := Filter(offset, length, typ, value, op);
      return OK;
    }

    method StartUnfiltered() returns (status: Status)
      requires Valid()
      modifies `filter
      ensures Valid() && Conserved() && status == OK && filter == NoFilter
    {
      filter := NoFilter;
      return OK;
    }

    /** What scanNext comes to, the records ahead from the next stop on being r. */
    ghost predicate CameTo(r: seq<Entry>, status: Status, outRid: RID)
      reads `hasPage, `idx, `curRec, `rest, store`chain
    {
      if r == [] then rest == [] && status == FILEEOF
      else
        && rest == r[1..] && IsOn(r[0])
        && status == (if r[0].bytes == [] then INVALIDSLOTNO else OK)
        && (status == OK ==> outRid == r[0].rid)
    }

    /** What scanNext answers, of the records r from the first one on that it stops at. */
    lemma {:induction false} CameMeans(r: seq<Entry>, status: Status, outRid: RID)
      requires CameTo(r, status, outRid)
      ensures r == [] ==> status == FILEEOF && rest == []
      ensures r != [] ==> rest == r[1..] && hasPage && curRec == r[0].rid && IsOn(r[0])
      ensures r != [] ==> if r[0].bytes == [] then status == INVALIDSLOTNO else status == OK && outRid == r[0].rid
    {}

    lemma {:induction false} Came(e: Entry, ahead: seq<Entry>, status: Status)
      requires IsOn(e) && ahead == [e] + rest && Usable(filter) && Stop(filter, e)
      requires status == if e.bytes == [] then INVALIDSLOTNO else OK
      ensures CameTo(SkipTo(filter, ahead), status, curRec)
    {
      assert ahead[1..] == rest;
    }

    lemma {:induction false} Passed(e: Entry, ahead: seq<Entry>)
      requires ahead == [e] + rest && Usable(filter) && !Stop(filter, e)
      ensures SkipTo(filter, ahead) == SkipTo(filter, rest)
    {
      assert ahead[1..] == rest;
    }

    /** The next record that matches.  A record of length 0 stops the scan with an error;
        at the end of the file every further call says so again. */
    method ScanNext() returns (status: Status, outRid: RID)
      requires Valid()
      modifies `hasPage, `curPageNo, `curDirtyFlag, `curRec, `idx, `rest, store`pins, store`unsaved
      ensures Conserved()
      ensures Valid() && CameTo(SkipTo(filter, old(rest)), status, outRid) && (old(hasPage) ==> hasPage)
    {
      if hasPage {
        status, outRid := ScanOn();
      } else if curPageNo < 0 {
        assert Ahead(0);
        status, outRid := FILEEOF, NULLRID;
      } else {
        status, outRid := ScanAgain();
      }
    }

    method ScanAgain() returns (status: Status, outRid: RID)
      requires Valid() && !hasPage && curPageNo >= 0
      modifies `hasPage, `curPageNo, `curDirtyFlag, `curRec, `idx, `rest, store`pins, store`unsaved
      ensures Conserved()
      ensures Valid() && CameTo(SkipTo(filter, old(rest)), status, outRid)
    {
      var found;
      ghost var e;
      found, e := Reopen();
      if found {
        status, outRid := StopOrGoOn(e, old(rest));
      } else {
        status, outRid := FILEEOF, NULLRID;
      }
    }

    /** The scan ends at the current record if it matches, and goes on otherwise. */
    method StopOrGoOn(ghost e: Entry, ghost ahead: seq<Entry>) returns (status: Status, outRid: RID)
      requires Valid() && hasPage && IsOn(e) && ahead == [e] + rest
      modifies `hasPage, `curPageNo, `curDirtyFlag, `curRec, `idx, `rest, store`pins, store`unsaved
      ensures Conserved()
      ensures Valid() && CameTo(SkipTo(filter, ahead), status, outRid)
    {
      var stop;
      stop, status := Check(e);
      outRid := curRec;
      if stop {
        Came(e, ahead, status);
      } else {
        Passed(e, ahead);
        status, outRid := ScanOn();
      }
    }

    /** The first page becomes current again, the scan before its first record. */
    method OpenFirst() returns (ghost ahead: seq<Entry>)
      requires Valid() && !hasPage && curPageNo >= 0
      modifies `hasPage, `curPageNo, `curDirtyFlag, `curRec, `idx, `rest, store`pins
      ensures Conserved()
      ensures Valid() && hasPage && Coming(idx, ahead) && idx < |store.chain|
      ensures old(rest) == if store.chain[idx].area.NextLive(0) < SlotCount(store.chain[idx]) then ahead else []
    {
      assert Ahead(0);
      store.PageAt(0);
      store.Facts();
      ahead := Listing(store.chain);
      Acquire(store.hdr.firstPage, NULLRID, 0);
    }

    /** The special case of a scan without a page: the first record of the first page. */
    method Reopen() returns (found: bool, ghost e: Entry)
      requires Valid() && !hasPage && curPageNo >= 0
      modifies `hasPage, `curPageNo, `curDirtyFlag, `curRec, `idx, `rest, store`pins, store`unsaved
      ensures Conserved()
      ensures Valid() && found == hasPage
      ensures found ==> IsOn(e) && old(rest) == [e] + rest
      ensures !found ==> rest == old(rest) == []
    {
      ghost var ahead := OpenFirst();
      found, e := FirstOnPage(ahead);
      if !found {
        Release(-1);
      }
    }

    /** Does the scan stop at the current record? */
    method Check(ghost e: Entry) returns (stop: bool, status: Status)
      requires Valid() && IsOn(e)
      ensures stop == Stop(filter, e) && status == if e.bytes == [] then INVALIDSLOTNO else OK
    {
      OnBytes(e);
      var got := SlottedPage.GetRecord(store.pages[curPageNo].area, curRec.slotNo);
      status := got.0;
      stop := status != OK || MatchRec(filter, got.1);
    }

    method ScanOn() returns (status: Status, outRid: RID)
      requires Valid() && hasPage
      modifies `hasPage, `curPageNo, `curDirtyFlag, `curRec, `idx, `rest, store`pins, store`unsaved
      ensures Conserved()
      ensures Valid() && hasPage && CameTo(SkipTo(filter, old(rest)), status, outRid)
    {
      var stop := false;
      status, outRid := OK, NULLRID;
      while !stop
        invariant Valid() && hasPage
        invariant if stop then CameTo(SkipTo(filter, old(rest)), status, outRid)
                  else SkipTo(filter, rest) == SkipTo(filter, old(rest))
        invariant Conserved()
        decreases |rest|, !stop
      {
        stop, status, outRid := Step();
      }
    }

    /** One turn of scanNext's loop. */
    method Step() returns (stop: bool, status: Status, outRid: RID)
      requires Valid() && hasPage
      modifies `hasPage, `curPageNo, `curDirtyFlag, `curRec, `idx, `rest, store`pins, store`unsaved
      ensures Conserved()
      ensures Valid() && hasPage
      ensures if stop then CameTo(SkipTo(filter, old(rest)), status, outRid)
              else SkipTo(filter, rest) == SkipTo(filter, old(rest)) && |rest| < |old(rest)|
    {
      var found;
      ghost var e;
      found, e := Advance();
      if !found {
        return true, FILEEOF, NULLRID;
      }
      stop, status := Check(e);
      outRid := curRec;
      if stop {
        Came(e, old(rest), status);
      } else {
        Passed(e, old(rest));
      }
    }

    /** The current record e, which may have been deleted meanwhile. */
    method GetRecord(ghost e: Entry) returns (status: Status, rec: seq<byte>)
      requires Valid() && (IsOn(e) || Gone())
      ensures (status, rec) == if IsOn(e) && e.bytes != [] then (OK, e.bytes) else (INVALIDSLOTNO, [])
    {
      OnPage(e);
      if IsOn(e) {
        OnBytes(e);
      } else {
        assert Absent(idx);
      }
      var got := SlottedPage.GetRecord(store.pages[curPageNo].area, curRec.slotNo);
      return got.0, got.1;
    }

    /** HeapFile::getRecord: whatever there is under a RID, on page i of the chain, which becomes current. */
    method GetAt(rid: RID, ghost i: nat) returns (status: Status, rec: seq<byte>)
      requires Valid() && rid.slotNo >= 0 && i < |store.chain| && store.chain[i].pageNo == rid.pageNo
      modifies `hasPage, `curPageNo, `curDirtyFlag, `curRec, `idx, `rest, store`pins, store`unsaved
      ensures Conserved()
      ensures Valid() && hasPage && idx == i && curRec == rid && store.chain[i].Valid()
      ensures (status, rec) == SlottedPage.GetRecord(store.chain[i].area, rid.slotNo)
    {
      store.Facts();
      store.PageAt(i);
      if hasPage && rid.pageNo == curPageNo {
        OnePlace(store.chain, idx, i);
        curRec := rid;
        rest := From(store.chain, idx, rid.slotNo + 1);
        Placing();
      } else {
        if hasPage {
          Release(-1);
        }
        Acquire(rid.pageNo, rid, i);
      }
      var got := SlottedPage.GetRecord(store.pages[curPageNo].area, curRec.slotNo);
      return got.0, got.1;
    }

    /** And that is the record of the file with this RID, if it has one. */
    method GetEntry(rid: RID, ghost e: Entry) returns (status: Status, rec: seq<byte>)
      requires Valid() && e in store.Records() && e.rid == rid
      modifies `hasPage, `curPageNo, `curDirtyFlag, `curRec, `idx, `rest, store`pins, store`unsaved
      ensures Conserved()
      ensures Valid() && IsOn(e) && (status, rec) == if e.bytes == [] then (INVALIDSLOTNO, []) else (OK, e.bytes)
    {
      store.Facts();
      ghost var i, k := Located(store.chain, e);
      status, rec := GetAt(rid, i);
      assert Stands(i, e);
      OnBytes(e);
    }

    /** Where the scan stands, the records are those behind it, the current one, and `rest`. */
    lemma {:induction false} Position(e: Entry) returns (before: seq<Entry>)
      requires Valid() && IsOn(e)
      ensures store.Records() == before + [e] + rest
      ensures AllValid(store.chain) && idx < |store.chain| && store.chain[idx].area.Live(curRec.slotNo)
      ensures before == Before(store.chain, idx, curRec.slotNo) && rest == From(store.chain, idx, curRec.slotNo + 1)
    {
      assert Ahead(idx) && Stands(idx, e);
      ListingAt(store.chain, idx, curRec.slotNo);
      before := Before(store.chain, idx, curRec.slotNo);
    }

    /** curPage->deleteRecord(curRec) */
    method RemoveCurrent(ghost e: Entry) returns (status: Status, ghost before: seq<Entry>)
      requires Valid() && (IsOn(e) || Gone())
      modifies `curDirtyFlag, store`pages, store`chain, store`unsaved
      ensures Conserved()
      ensures Valid() && status == if old(IsOn(e)) && e.bytes != [] then OK else INVALIDSLOTNO
      ensures status == OK ==> old(store.Records()) == before + [e] + rest && store.Records() == before + rest && Gone()
      ensures status == OK ==> CutAt(old(store.chain), store.chain, idx, curRec.slotNo)
      ensures status != OK ==> store.Records() == old(store.Records())
    {
      OnPage(e);
      curDirtyFlag := true;
      forall n {:trigger LeftDirty(n)} | LeftDirty(n) ensures old(LeftDirty(n)) {}
      before := [];
      if store.pages[curPageNo].area.Readable(curRec.slotNo) {
        before := Position(e);
        status := OK;
        RemoveReadable();
      } else {
        status := INVALIDSLOTNO;
      }
    }

    lemma {:induction false} OnPage(e: Entry)
      requires Valid() && (IsOn(e) || Gone())
      ensures hasPage && idx < |store.chain| && store.chain[idx].pageNo == curPageNo && curRec.slotNo >= 0
      ensures curPageNo in store.pages && store.pages[curPageNo] == store.chain[idx]
      ensures store.chain[idx].area.Readable(curRec.slotNo) <==> IsOn(e) && e.bytes != []
    {
      if IsOn(e) {
        OnBytes(e);
      } else {
        assert Absent(idx);
        store.PageAt(idx);
      }
    }

    method RemoveReadable()
      requires Valid() && hasPage && curDirtyFlag && idx < |store.chain|
      requires store.chain[idx].area.Readable(curRec.slotNo)
      modifies store`pages, store`chain, store`unsaved
      ensures Conserved() && Valid() && Gone()
      ensures AllValid(old(store.chain)) && store.Records() == Before(old(store.chain), idx, curRec.slotNo) + rest
      ensures CutAt(old(store.chain), store.chain, idx, curRec.slotNo)
    {
      ghost var i, k := idx, curRec.slotNo;
      store.Facts();
      assert Ahead(i);
      ReadableWithin(store.chain[i], k);
      DeleteListing(store.chain, i, k);
      RemoveEntry(store.chain[i], k, k);
      ghost var qs := store.chain[i := RemoveFrom(store.chain[i], k)];
      assert AllValid(qs) && rest == From(qs, i, k + 1) && !qs[i].area.Live(k);
      store.RemoveRecord(curPageNo, curRec.slotNo, i);
      assert store.chain == qs && idx == i && curRec.slotNo == k;
      Placing();
    }

    /** The current record was deleted, or there is none. */
    ghost predicate Absent(i: nat)
      reads `curRec, store`chain
    {
      i < |store.chain| && !store.chain[i].area.Live(curRec.slotNo)
    }

    ghost predicate Gone()
      reads `hasPage, `idx, `curRec, store`chain
    {
      hasPage && curRec.slotNo >= 0 && forall i {:trigger Absent(i)} | i == idx :: Absent(i)
    }

    /** Deletes the current record; the scan goes on behind it.  recCnt is lowered in any case,
        so it stays the number of records exactly when there was a record to delete: not when
        deleteRecord is called again, nor for a record of length 0. */
    method DeleteRecord(ghost e: Entry) returns (status: Status, ghost before: seq<Entry>)
      requires Valid() && (IsOn(e) || Gone())
      modifies `curDirtyFlag, `hdrDirtyFlag, store`pages, store`chain, store`hdr, store`unsaved
      ensures Conserved()
      ensures Valid() && status == if old(IsOn(e)) && e.bytes != [] then OK else INVALIDSLOTNO
      ensures status == OK ==> old(store.Records()) == before + [e] + rest && store.Records() == before + rest && Gone()
      ensures status == OK ==> CutAt(old(store.chain), store.chain, idx, curRec.slotNo)
      ensures status != OK ==> store.Records() == old(store.Records())
      ensures old(store.Counted()) ==> (store.Counted() <==> status == OK)
      ensures store.hdr == old(store.hdr).(recCnt := old(store.hdr).recCnt - 1)
    {
      status, before := RemoveCurrent(e);
      LowerCount();
    }

    /** Marks the current page as changed, so that it will be unpinned dirty. */
    method MarkDirty() returns (status: Status)
      requires Valid() && hasPage
      modifies `curDirtyFlag
      ensures Conserved()
      ensures Valid() && status == OK && !LeftDirty(curPageNo)
    {
      curDirtyFlag := true;
      return OK;
    }

    /** Gives the current page back.  A scan that had one would start over if it were used again. */
    method EndScan() returns (status: Status)
      requires Valid()
      modifies `hasPage, `curPageNo, `curDirtyFlag, `rest, store`pins, store`unsaved
      ensures Conserved()
      ensures Valid() && !hasPage && status == OK
      ensures rest == if old(hasPage) then ReopenedRest() else old(rest)
    {
      if hasPage {
        Release(0);
      }
      return OK;
    }

    // ---- Marking a position ----

    /** The mark is a page of the chain and a record number. */
    ghost predicate Marked()
      reads `markedIdx, `markedPageNo, `markedRec, store`chain
    {
      At(markedIdx, markedPageNo, markedRec) && markedPageNo >= 1
    }

    /** The records behind the mark. */
    ghost function MarkedRest(): seq<Entry>
      requires Marked() && AllValid(store.chain)
      reads `markedIdx, `markedPageNo, `markedRec, store`chain
    {
      From(store.chain, markedIdx, markedRec.slotNo + 1)
    }

    ghost predicate MarkStands(i: nat, e: Entry)
      reads `markedRec, store`chain
    {
      && i < |store.chain| && store.chain[i].Valid()
      && store.chain[i].area.Live(markedRec.slotNo) && EntryAt(store.chain[i], markedRec.slotNo) == e
    }

    /** The mark is on record e. */
    ghost predicate MarkOn(e: Entry)
      reads `markedIdx, `markedRec, store`chain
    {
      markedRec == e.rid && forall i {:trigger MarkStands(i, e)} | i == markedIdx :: MarkStands(i, e)
    }

    /** A scan that has been ended has no page to mark: what it marks is page 0, or -1 at the end of the file. */
    method MarkScan() returns (status: Status)
      requires Valid()
      modifies `markedPageNo, `markedRec, `markedIdx
      ensures Valid() && status == OK && AllValid(store.chain) && Marked() == hasPage
      ensures hasPage ==> MarkedRest() == rest
      ensures forall e {:trigger IsOn(e)} | IsOn(e) :: MarkOn(e)
      ensures markedPageNo == curPageNo && markedRec == curRec && markedIdx == idx
    {
      markedPageNo := curPageNo;
      markedRec := curRec;
      markedIdx := idx;
      MarkedHere();
      forall e {:trigger IsOn(e)} | IsOn(e) ensures MarkOn(e) {
        assert Stands(idx, e);
      }
      return OK;
    }

    lemma {:induction false} MarkedHere()
      requires Valid() && markedPageNo == curPageNo && markedRec == curRec && markedIdx == idx
      ensures AllValid(store.chain) && Marked() == hasPage && (hasPage ==> MarkedRest() == rest)
    {
      store.Facts();
      if hasPage {
        store.PageAt(idx);
        assert Ahead(idx);
      }
    }

    /** Back to the mark, on whatever page the scan is now: the records behind the mark are ahead
        again, and if the scan stood on a record when it was marked it stands on it again. */
    method ResetScan() returns (status: Status)
      requires Valid() && Marked()
      modifies `hasPage, `curPageNo, `curDirtyFlag, `curRec, `idx, `rest, store`pins, store`unsaved
      ensures Conserved()
      ensures Valid() && Marked() && AllValid(store.chain)
      ensures status == OK && hasPage && curRec == markedRec && idx == markedIdx && rest == MarkedRest()
      ensures forall e {:trigger MarkOn(e)} | MarkOn(e) :: IsOn(e)
    {
      store.Facts();
      if markedPageNo != curPageNo {
        TurnBack();
      } else {
        StepBack();
      }
      forall e {:trigger MarkOn(e)} | MarkOn(e) ensures IsOn(e) {
        assert MarkStands(markedIdx, e);
      }
      return OK;
    }

    /** resetScan, if no page was current when the mark was set.  It is right if none has become current since.
        Otherwise the page is given back and one that does not exist is asked for; the object still takes itself to
        have a page then, and can only be destroyed. */
    method ResetNowhere() returns (status: Status)
      requires Valid() && markedPageNo <= 0
      modifies `curPageNo, `curRec, `rest, store`pins, store`unsaved
      ensures status == if markedPageNo == old(curPageNo) then OK else BADPAGENO
      ensures Valid() <==> !hasPage
      ensures Valid() ==> Conserved() && (status == OK ==> rest == old(rest))
      ensures forall n :: store.pins[n] == old(OtherPins(n)) + Held(store.hdrPageNo, false, 0, n)
      ensures forall n :: n in store.unsaved ==> old(LeftDirty(n)) || (n == store.hdrPageNo && hdrDirtyFlag)
    {
      if markedPageNo == curPageNo {
        if hasPage {
          store.PageAt(idx);
        }
        assert !hasPage && Ahead(0);
        curRec := markedRec;
        status := OK;
        Placing();
      } else {
        status := BADPAGENO;
        if hasPage {
          store.PageAt(idx);
          assert LeftDirty(curPageNo) <==> curPageNo in store.unsaved && !curDirtyFlag;
          store.UnPinPage(curPageNo, curDirtyFlag, stray);
          curPageNo, curRec := markedPageNo, markedRec;
          NoSuchPage();
        } else {
          curPageNo, curRec := markedPageNo, markedRec;
          rest := if curPageNo < 0 then [] else ReopenedRest();
          Placing();
          store.Facts();
          assert OtherPins(curPageNo) >= 0;
          assert forall n {:trigger LeftDirty(n)} :: LeftDirty(n) == old(LeftDirty(n));
        }
      }
    }

    lemma {:induction false} NoSuchPage()
      requires hasPage && curPageNo <= 0
      ensures !Valid()
    {
      if Valid() {
        store.PageAt(idx);
      }
    }

    /** The marked page is current. */
    method StepBack()
      requires Valid() && Marked() && markedPageNo == curPageNo
      modifies `curRec, `rest
      ensures Valid() && hasPage && idx == markedIdx && curRec == markedRec
      ensures AllValid(store.chain) && rest == From(store.chain, idx, curRec.slotNo + 1)
    {
      SamePage();
      store.Facts();
      curRec := markedRec;
      rest := From(store.chain, idx, curRec.slotNo + 1);
      Placing();
    }

    /** The marked page becomes current. */
    method TurnBack()
      requires Valid() && Marked() && AllValid(store.chain)
      modifies `hasPage, `curPageNo, `curDirtyFlag, `curRec, `idx, `rest, store`pins, store`unsaved
      ensures Conserved()
      ensures Valid() && hasPage && curRec == markedRec && idx == markedIdx
      ensures AllValid(store.chain) && rest == From(store.chain, idx, curRec.slotNo + 1)
    {
      if hasPage {
        Release(-1);
      }
      Acquire(markedPageNo, markedRec, markedIdx);
    }

    /** Page numbers tell positions in the chain apart. */
    lemma {:induction false} SamePage()
      requires Valid() && Marked() && markedPageNo == curPageNo
      ensures hasPage && idx == markedIdx
    {
      store.Facts();
      if hasPage {
        OnePlace(store.chain, idx, markedIdx);
      }
    }

    /** The destructors: every pin the object took is given back, and every page changed through
        it was unpinned dirty. */
    method Destroy() returns (status: Status)
      requires Valid()
      modifies `hasPage, `curPageNo, `curDirtyFlag, `rest, store`pins, store`unsaved
      ensures store.Valid() && status == OK
      ensures forall n :: store.pins[n] == old(OtherPins(n))
      ensures forall n :: n in store.unsaved ==> old(LeftDirty(n))
      ensures store.Strays() <= stray
    {
      status := EndScan();
      label Ended:
      assert LeftDirty(store.hdrPageNo) <==> store.hdrPageNo in store.unsaved && !hdrDirtyFlag;
      store.UnPinPage(store.hdrPageNo, hdrDirtyFlag, stray);
      forall n ensures store.pins[n] == old(OtherPins(n)) && (n in store.unsaved ==> old(LeftDirty(n))) {
        assert old@Ended(OtherPins(n)) == old(OtherPins(n)) && (old@Ended(LeftDirty(n)) ==> old(LeftDirty(n)));
      }
      forall n | n in store.Strays() ensures n in stray {
        assert old(LeftDirty(n)) && old(OtherPins(n)) == 0;
      }
    }

    /** headerPage->recCnt-- */
    method LowerCount()
      requires Valid()
      modifies `hdrDirtyFlag, store`hdr, store`unsaved
      ensures Conserved()
      ensures Valid() && store.Records() == old(store.Records())
      ensures store.hdr == old(store.hdr).(recCnt := old(store.hdr).recCnt - 1)
    {
      store.SetCount(store.hdr.recCnt - 1);
      hdrDirtyFlag := true;
    }
  }
}
