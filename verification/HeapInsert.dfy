/**
  Inserting into a heap file (InsertFileScan).
 */
module HeapInserts {
  import opened Bytes
  import opened Sequences
  import opened Errors
  import opened SlottedPage
  import opened HeapSpec
  import opened HeapGrowth
  import opened HeapStores

  /** What insertRecord does to the chain ps, the next page of the file being n, and what it answers. */
  ghost predicate Outcome(ps: seq<PageState>, qs: seq<PageState>, rec: seq<byte>, n: int, status: Status, outRid: RID)
    requires ps != []
  {
    && qs == (if |rec| > DATA_SIZE then ps else InsertInto(ps, rec, n))
    && status == (if |rec| > DATA_SIZE then INVALIDRECLEN
                  else if FitsLast(ps, rec) || |rec| <= MAX_RECORD then OK else NOSPACE)
    && (status == OK ==> outRid == NewEntry(ps, rec, n).rid)
  }

  class InsertFileScan {
    const store: HeapStore
    var hdrDirtyFlag: bool
    var hasPage: bool            // curPage != NULL
    var curPageNo: int
    var curDirtyFlag: bool
    ghost const stray: set<int>  // pages that were changed and not pinned when the file was opened

    /** The pins on page n that are not this object's. */
    ghost function OtherPins(n: int): int
      reads `hasPage, `curPageNo, store`pins
    {
      store.pins[n] - Held(store.hdrPageNo, hasPage, curPageNo, n)
    }

    /** Page n was changed and this object is not going to unpin it dirty: the destructor does so
        with the last page whatever curDirtyFlag says. */
    ghost predicate LeftDirty(n: int)
      reads `hdrDirtyFlag, `hasPage, `curPageNo, store`unsaved
    {
      n in store.unsaved && !Promised(store.hdrPageNo, hdrDirtyFlag, hasPage, curPageNo, true, n)
    }

    /** The object took and gave back pins of its own only, and everything it changed in between
        it has unpinned dirty or is going to. */
    twostate predicate Conserved()
      reads `hdrDirtyFlag, `hasPage, `curPageNo, store`unsaved, store`pins
    {
      && (forall n {:trigger OtherPins(n)} :: OtherPins(n) == old(OtherPins(n)))
      && forall n {:trigger LeftDirty(n)} :: LeftDirty(n) ==> old(LeftDirty(n))
    }

    /** A changed page that this object will not unpin dirty is pinned by another client. */
    ghost predicate Minded()
      reads `hdrDirtyFlag, `hasPage, `curPageNo, store`unsaved, store`pins
    {
      forall n {:trigger LeftDirty(n)} | LeftDirty(n) && n !in stray :: OtherPins(n) > 0
    }

    ghost predicate Pinned()
      reads `hdrDirtyFlag, `hasPage, `curPageNo, store`hdr, store`pins, store`unsaved
    {
      && OtherPins(store.hdrPageNo) >= 0 && OtherPins(curPageNo) >= 0
      && (hasPage ==> curPageNo == store.hdr.lastPage) && Minded()
    }

    ghost predicate Valid()
      reads `hdrDirtyFlag, `hasPage, `curPageNo
      reads store`hdr, store`pages, store`numPages, store`chain, store`pins, store`unsaved
    {
      store.Valid() && Pinned()
    }

    /** Opens the file and goes to its last page. */
    constructor (store: HeapStore)
      requires store.Valid()
      modifies store`pins, store`unsaved
      ensures Valid() && this.store == store && hasPage && stray == old(store.Strays())
      ensures forall n {:trigger OtherPins(n)} :: OtherPins(n) == old(store.pins)[n]
      ensures forall n {:trigger LeftDirty(n)} :: LeftDirty(n) ==> n in old(store.unsaved)
    {
      this.store := store;
      hdrDirtyFlag, curDirtyFlag := false, false;
      hasPage := true;
      curPageNo := store.hdr.firstPage;
      stray := store.Strays();
      new;
      store.Facts();
      store.PageAt(0);
      store.ReadPage(store.hdrPageNo);
      store.ReadPage(curPageNo);
      label Opened:
      GoToLast();
      forall n {:trigger OtherPins(n)} ensures OtherPins(n) == old(store.pins)[n] {
        assert OtherPins(n) == old@Opened(OtherPins(n));
      }
    }

    /** The current page, if there is one, is the last page of the chain. */
    lemma {:induction false} LastPage()
      requires Valid()
      ensures store.Linked(store.chain) && store.hdr.lastPage == Last(store.chain).pageNo
      ensures store.hdr.lastPage in store.pages && store.pages[store.hdr.lastPage] == Last(store.chain)
      ensures store.hdr.lastPage != store.hdrPageNo && AllValid(store.chain)
    {
      store.Facts();
      store.PageAt(|store.chain| - 1);
    }

    /** From the first page to the last one. */
    method GoToLast()
      requires store.Valid() && hasPage && curPageNo != store.hdrPageNo && !curDirtyFlag
      requires forall n {:trigger OtherPins(n)} :: OtherPins(n) >= if n in store.unsaved && n !in stray then 1 else 0
      modifies `curPageNo, store`pins, store`unsaved
      ensures forall n {:trigger OtherPins(n)} :: OtherPins(n) == old(OtherPins(n))
      ensures store.unsaved == old(store.unsaved) && Valid()
    {
      LastNo();
      assert OtherPins(store.hdrPageNo) >= 0 && OtherPins(store.hdr.lastPage) >= 0;
      if curPageNo != store.hdr.lastPage {
        assert OtherPins(curPageNo) >= 0;
        store.UnPinPage(curPageNo, curDirtyFlag, stray);
        curPageNo := store.hdr.lastPage;
        store.ReadPage(curPageNo);
      }
    }

    lemma {:induction false} LastNo()
      requires store.Valid()
      ensures store.hdr.lastPage != store.hdrPageNo && 1 <= store.hdr.lastPage < store.numPages
    {
      store.Facts();
      store.PageAt(|store.chain| - 1);
    }

    /** The last page becomes current. */
    method ToLast()
      requires Valid()
      modifies `hasPage, `curPageNo, store`pins
      ensures Conserved() && Valid() && hasPage
    {
      if !hasPage {
        LastNo();
        curPageNo := store.hdr.lastPage;
        store.ReadPage(curPageNo);
        hasPage := true;
      }
    }

    /** The record fits the last page. */
    method AddHere(rec: seq<byte>) returns (outRid: RID)
      requires Valid() && hasPage && FitsLast(store.chain, rec)
      modifies `hdrDirtyFlag, `curDirtyFlag, store`hdr, store`pages, store`chain, store`unsaved
      ensures Conserved()
      ensures Valid() && Outcome(old(store.chain), store.chain, rec, store.numPages, OK, outRid)
      ensures store.hdr == old(store.hdr).(recCnt := old(store.hdr).recCnt + 1)
    {
      LastPage();
      FitsShort(store.chain, rec);
      outRid := RID(curPageNo, FreeSlot(store.pages[curPageNo].area.slots));
      store.AddRecord(rec);
      curDirtyFlag := true;
      store.SetCount(store.hdr.recCnt + 1);
      hdrDirtyFlag := true;
    }

    /** A new page is allocated and linked behind the last one. */
    method LinkNew() returns (newPageNo: int)
      requires Valid() && hasPage
      modifies `hdrDirtyFlag, store`hdr, store`pages, store`numPages, store`chain, store`pins, store`unsaved
      ensures store.Valid() && store.chain == AddPage(old(store.chain), old(store.numPages)) && hdrDirtyFlag
      ensures store.hdr.recCnt == old(store.hdr).recCnt && store.numPages == old(store.numPages) + 1
      ensures newPageNo == old(store.numPages) == store.hdr.lastPage && newPageNo != store.hdrPageNo
      ensures curPageNo != newPageNo && store.Pinned(newPageNo, 1)
      ensures store.unsaved == old(store.unsaved) + {store.hdrPageNo, newPageNo, curPageNo}
    {
      LastPage();
      store.NextIsNew();
      newPageNo := store.AllocPage();
      store.LinkPage(newPageNo);
      store.Facts();
      hdrDirtyFlag := true;
    }

    /** The last page is full: the new one becomes current. */
    method TurnPage()
      requires Valid() && hasPage
      modifies `hdrDirtyFlag, `curPageNo, store`hdr, store`pages, store`numPages, store`chain, store`pins, store`unsaved
      ensures Conserved()
      ensures Valid() && hasPage && store.chain == AddPage(old(store.chain), old(store.numPages))
      ensures store.hdr.recCnt == old(store.hdr).recCnt && store.numPages == old(store.numPages) + 1
    {
      var newPageNo := LinkNew();
      store.UnPinPage(curPageNo, true, stray);
      curPageNo := newPageNo;
    }

    /** Adds a record; a new page is linked behind the last one if it does not fit there. */
    method InsertRecord(rec: seq<byte>) returns (status: Status, outRid: RID)
      requires Valid()
      modifies this, store`hdr, store`pages, store`numPages, store`chain, store`pins, store`unsaved
      ensures Conserved()
      ensures Valid()
      ensures Outcome(old(store.chain), store.chain, rec, old(store.numPages), status, outRid)
      ensures status == if |rec| > 1004 then INVALIDRECLEN else if |rec| > 1000 then NOSPACE else OK
      ensures store.hdr.recCnt == old(store.hdr).recCnt + if status == OK then 1 else 0
      ensures store.numPages == NextNumber(old(store.chain), rec, old(store.numPages))
    {
      if |rec| > PAGESIZE - DPFIXED {
        return INVALIDRECLEN, NULLRID;
      }
      ToLast();
      LastPage();
      if Fits(store.pages[curPageNo].area, rec) {
        FitsShort(store.chain, rec);
        outRid := AddHere(rec);
        status := OK;
      } else {
        status, outRid := AddBehind(rec);
      }
    }

    /** The record goes on a new page, if it fits there. */
    method AddBehind(rec: seq<byte>) returns (status: Status, outRid: RID)
      requires Valid() && hasPage && !FitsLast(store.chain, rec) && |rec| <= DATA_SIZE
      modifies this, store`hdr, store`pages, store`numPages, store`chain, store`pins, store`unsaved
      ensures Conserved()
      ensures Valid()
      ensures Outcome(old(store.chain), store.chain, rec, old(store.numPages), status, outRid)
      ensures store.hdr.recCnt == old(store.hdr).recCnt + if status == OK then 1 else 0
      ensures store.numPages == NextNumber(old(store.chain), rec, old(store.numPages))
    {
      TurnPage();
      LastPage();
      if !Fits(store.pages[curPageNo].area, rec) {
        return NOSPACE, NULLRID;
      }
      outRid := AddHere(rec);
      return OK, outRid;
    }

    /** The last page is given back, dirty whatever happened to it. */
    method Release()
      requires Valid()
      modifies `hasPage, `curPageNo, store`pins, store`unsaved
      ensures Conserved() && Valid() && !hasPage
    {
      if hasPage {
        store.UnPinPage(curPageNo, true, stray);
        hasPage := false;
        curPageNo := 0;
      }
    }

    /** The destructors: both pins are given back. */
    method Destroy()
      requires Valid()
      modifies `hasPage, `curPageNo, store`pins, store`unsaved
      ensures store.Valid()
      ensures forall n :: store.pins[n] == old(OtherPins(n))
      ensures forall n :: n in store.unsaved ==> old(LeftDirty(n))
      ensures store.Strays() <= stray
    {
      Release();
      label Released:
      assert LeftDirty(store.hdrPageNo) <==> store.hdrPageNo in store.unsaved && !hdrDirtyFlag;
      store.UnPinPage(store.hdrPageNo, hdrDirtyFlag, stray);
      forall n ensures store.pins[n] == old(OtherPins(n)) && (n in store.unsaved ==> old(LeftDirty(n))) {
        assert old@Released(OtherPins(n)) == old(OtherPins(n)) && (old@Released(LeftDirty(n)) ==> old(LeftDirty(n)));
      }
      forall n | n in store.Strays() ensures n in stray {
        assert old(LeftDirty(n)) && old(OtherPins(n)) == 0;
      }
    }
  }

  /** What an insertion does to the records: one more, under the RID that is returned and with its bytes; or nothing. */
  lemma {:induction false} InsertedRecord(
      ps: seq<PageState>, qs: seq<PageState>, rec: seq<byte>, n: int, status: Status, outRid: RID)
    requires IsChain(ps) && NewTo(ps, n) && Outcome(ps, qs, rec, n, status, outRid)
    ensures AllValid(ps) && AllValid(qs)
    ensures multiset(Listing(qs))
         == if status == OK then multiset(Listing(ps)) + multiset{Entry(outRid, rec)} else multiset(Listing(ps))
  {
    ChainValid(ps);
    if status == OK {
      var back := InsertExact(ps, rec, n);
      assert Listing(ps) == Front(Listing(ps), back) + back;
    } else if |rec| <= DATA_SIZE {
      InsertTooLong(ps, rec, n);
    }
  }

  // ---- Filling a result relation ----

  /** Inserting the records `recs` leads from one state of a file to the other. */
  ghost predicate FilledTo(now: Snapshot, base: Snapshot, recs: seq<seq<byte>>) {
    && base.chain != [] && (now.chain, now.numPages) == InsertAll(base.chain, base.numPages, recs)
    && now.recCnt == base.recCnt + |recs|
  }

  /** Since the file was as in `base`, the records `recs` were inserted. */
  ghost predicate Filled(store: HeapStore, base: Snapshot, recs: seq<seq<byte>>)
    reads store`hdr, store`chain, store`numPages
  {
    forall now {:trigger FilledTo(now, base, recs)} | now == store.Now() :: FilledTo(now, base, recs)
  }

  lemma {:induction false} FilledStart(store: HeapStore)
    requires store.chain != []
    ensures Filled(store, store.Now(), [])
  {}

  lemma {:induction false} FilledNone(store: HeapStore, base: Snapshot)
    requires Filled(store, base, [])
    ensures store.chain == base.chain
  {
    assert FilledTo(store.Now(), base, []);
  }

  /** What filling does to the records: they are those there were and one for each record of the list, with its
      bytes. */
  lemma {:induction false} FilledListing(store: HeapStore, base: Snapshot, recs: seq<seq<byte>>)
    returns (es: seq<Entry>)
    requires store.Valid() && Filled(store, base, recs) && Short(recs)
    requires IsChain(base.chain) && NewTo(base.chain, base.numPages) && AllValid(base.chain)
    ensures AllValid(store.chain) && multiset(Listing(store.chain)) == multiset(Listing(base.chain)) + multiset(es)
    ensures |es| == |recs| && forall t | 0 <= t < |recs| :: es[t].bytes == recs[t]
    ensures store.hdr.recCnt == base.recCnt + |recs|
  {
    assert FilledTo(store.Now(), base, recs);
    assert Gained(base.chain, base.chain, []);
    es := InsertAllKeeps(base.chain, base.numPages, recs);
    forall t | 0 <= t < |recs| ensures es[t].bytes == recs[t] {
      MapIndex(BytesOf, es, t);
    }
  }

  /** recCnt stays the number of records. */
  lemma {:induction false} FilledCounted(store: HeapStore, base: Snapshot, recs: seq<seq<byte>>)
    requires store.Valid() && Filled(store, base, recs) && Short(recs)
    requires IsChain(base.chain) && NewTo(base.chain, base.numPages) && AllValid(base.chain)
    requires base.recCnt == |Listing(base.chain)|
    ensures store.Counted()
  {
    assert FilledTo(store.Now(), base, recs);
    assert Gained(base.chain, base.chain, []);
    var es := InsertAllKeeps(base.chain, base.numPages, recs);
    store.Facts();
    assert |multiset(Listing(store.chain))| == |multiset(Listing(base.chain)) + multiset(es)|;
  }

  lemma {:induction false} FitsShort(ps: seq<PageState>, rec: seq<byte>)
    requires IsChain(ps) && FitsLast(ps, rec)
    ensures |rec| <= MAX_RECORD
  {
    assert ChainAt(ps, |ps| - 1);
  }

  /** A record too long for a page is refused and adds nothing to the listing. */
  lemma {:induction false} RefusedListing(ps: seq<PageState>, rec: seq<byte>, n: int)
    requires IsChain(ps) && NewTo(ps, n) && |rec| > MAX_RECORD
    ensures !FitsLast(ps, rec) && AllValid(ps) && AllValid(InsertInto(ps, rec, n))
    ensures Listing(InsertInto(ps, rec, n)) == Listing(ps)
  {
    if FitsLast(ps, rec) {
      FitsShort(ps, rec);
    }
    InsertTooLong(ps, rec, n);
  }

  /** One more record, if it is short enough for a page. */
  method Append(ins: InsertFileScan, rec: seq<byte>, ghost base: Snapshot, ghost recs: seq<seq<byte>>)
    returns (status: Status)
    requires ins.Valid() && Filled(ins.store, base, recs)
    modifies ins, ins.store
    ensures ins.Valid() && ins.Conserved() && (status == OK <==> |rec| <= MAX_RECORD)
    ensures status == OK ==> Filled(ins.store, base, recs + [rec])
    ensures status != OK ==> ins.store.Records() == old(ins.store.Records()) && status in {INVALIDRECLEN, NOSPACE}
  {
    assert FilledTo(ins.store.Now(), base, recs);
    ins.store.NextIsNew();
    ins.store.Facts();
    if |rec| > MAX_RECORD {
      RefusedListing(ins.store.chain, rec, ins.store.numPages);
    } else {
      InsertAllOne(base.chain, base.numPages, recs, rec);
    }
    var rid;
    status, rid := ins.InsertRecord(rec);
  }

  /** The file is opened for one record. */
  method AddRecord(store: HeapStore, rec: seq<byte>, ghost base: Snapshot, ghost recs: seq<seq<byte>>)
    returns (status: Status)
    requires store.Valid() && Filled(store, base, recs) && |rec| <= MAX_RECORD
    modifies store
    ensures store.Valid() && status == OK && Filled(store, base, recs + [rec])
    ensures forall n :: store.pins[n] == old(store.pins)[n]
  {
    var ifs := new InsertFileScan(store);
    label Opened:
    status := Append(ifs, rec, base, recs);
    label Inserted:
    ifs.Destroy();
    forall n ensures store.pins[n] == old(store.pins)[n] {
      assert old@Inserted(ifs.OtherPins(n)) == old@Opened(ifs.OtherPins(n));
    }
  }
}
