/**
  A run of an external sort (RUN in sort.h): the scan of its file, the record it has in memory, and its mark.
 */
module RunFiles {
  import opened Errors
  import opened Sequences
  import opened HeapSpec
  import opened HeapGrowth
  import opened HeapStores
  import opened HeapScans
  import opened Filters
  import opened MergeOrder
  import opened RunValues
  import opened ScanRuns

  /** A scan for everything stops at every record. */
  lemma {:induction false} SkipNothing(es: seq<Entry>)
    ensures SkipTo(NoFilter, es) == es
  {
    assert es != [] ==> Stop(NoFilter, es[0]);
  }

  predicate SameBytes(recs: seq<Rec>, es: seq<Entry>, i: nat)
    requires i < |recs| == |es|
  {
    recs[i] == es[i].bytes
  }

  /** `recs` are the bytes of the records. */
  ghost predicate AreBytes(recs: seq<Rec>, es: seq<Entry>) {
    |recs| == |es| && forall i {:trigger SameBytes(recs, es, i)} | 0 <= i < |recs| :: SameBytes(recs, es, i)
  }

  lemma {:induction false} MapBytes(es: seq<Entry>)
    ensures AreBytes(Map(BytesOf, es), es)
  {
    forall i {:trigger SameBytes(Map(BytesOf, es), es, i)} | 0 <= i < |Map(BytesOf, es)|
      ensures SameBytes(Map(BytesOf, es), es, i)
    {
      MapIndex(BytesOf, es, i);
    }
  }

  /** The record a run has in memory is record i of its file, or none if i < 0. */
  predicate Names(rid: RID, es: seq<Entry>, i: int) {
    if i < 0 then rid.pageNo < 0 else i < |es| && rid == es[i].rid && rid.pageNo >= 0
  }

  ghost predicate ReadTo(scan: HeapFileScan, all: seq<Entry>, at: nat)
    reads scan, scan.store
  {
    && scan.Valid() && scan.filter == NoFilter && scan.hasPage && scan.store.Records() == all && Solid(all)
    && at <= |all| && scan.rest == all[at..]
  }

  /** An unfiltered scan of the records `all` has read the first `at` of them. */
  ghost predicate Reading(scan: HeapFileScan, all: seq<Entry>, at: nat)
    reads scan, scan.store
  {
    forall n {:trigger ReadTo(scan, all, n)} | n == at :: ReadTo(scan, all, n)
  }

  lemma {:induction false} NextOf(scan: HeapFileScan, all: seq<Entry>, at: nat)
    requires Reading(scan, all, at)
    ensures ReadTo(scan, all, at) && SkipTo(scan.filter, scan.rest) == scan.rest
    ensures if at < |all| then
              scan.rest != [] && scan.rest[0] == all[at] && scan.rest[1..] == all[at + 1..] && Legible(all[at])
            else scan.rest == []
  {
    assert ReadTo(scan, all, at);
    SkipNothing(scan.rest);
    assert at < |all| ==> all[at] in all;
  }

  /** scanNext and getRecord. */
  method ReadNext(scan: HeapFileScan, ghost all: seq<Entry>, ghost at: nat)
    returns (status: Status, rid: RID, rec: Rec)
    requires Reading(scan, all, at)
    modifies scan`hasPage, scan`curPageNo, scan`curDirtyFlag, scan`curRec, scan`idx, scan`rest
    modifies scan.store`pins, scan.store`unsaved
    ensures scan.Conserved()
    ensures if at < |all| then
              && status == OK && Reading(scan, all, at + 1) && scan.IsOn(all[at])
              && rid == all[at].rid && rec == all[at].bytes
            else status == FILEEOF && Reading(scan, all, at)
  {
    NextOf(scan, all, at);
    status, rid := scan.ScanNext();
    rec := [];
    if status != FILEEOF {
      status, rec := scan.GetRecord(all[at]);
      assert ReadTo(scan, all, at + 1);
    } else {
      assert ReadTo(scan, all, at);
    }
  }

  lemma {:induction false} OnNumber(scan: HeapFileScan, all: seq<Entry>, at: nat, e: Entry)
    requires Reading(scan, all, at) && scan.IsOn(e)
    ensures e.rid.pageNo >= 1
  {
    assert ReadTo(scan, all, at);
    scan.OnBytes(e);
    scan.store.PageAt(scan.idx);
    assert scan.Stands(scan.idx, e);
  }

  ghost predicate MarkedTo(scan: HeapFileScan, all: seq<Entry>, at: nat)
    reads scan`markedIdx, scan`markedPageNo, scan`markedRec, scan.store`chain
  {
    AllValid(scan.store.chain) && scan.Marked() && at <= |all| && scan.MarkedRest() == all[at..]
  }

  /** The mark of the scan is behind the first `at` records. */
  ghost predicate MarkedAt(scan: HeapFileScan, all: seq<Entry>, at: nat)
    reads scan`markedIdx, scan`markedPageNo, scan`markedRec, scan.store`chain
  {
    forall n {:trigger MarkedTo(scan, all, n)} | n == at :: MarkedTo(scan, all, n)
  }

  /** markScan */
  method Mark(scan: HeapFileScan, ghost all: seq<Entry>, ghost at: nat)
    requires Reading(scan, all, at)
    modifies scan`markedPageNo, scan`markedRec, scan`markedIdx
    ensures Reading(scan, all, at) && MarkedAt(scan, all, at)
    ensures forall e {:trigger scan.IsOn(e)} | scan.IsOn(e) :: scan.MarkOn(e)
  {
    assert ReadTo(scan, all, at);
    var status := scan.MarkScan();
    assert ReadTo(scan, all, at) && MarkedTo(scan, all, at);
  }

  /** resetScan */
  method Reset(scan: HeapFileScan, ghost all: seq<Entry>, ghost at: nat, ghost back: nat)
    requires Reading(scan, all, at) && MarkedAt(scan, all, back)
    modifies scan`hasPage, scan`curPageNo, scan`curDirtyFlag, scan`curRec, scan`idx, scan`rest
    modifies scan.store`pins, scan.store`unsaved
    ensures scan.Conserved()
    ensures Reading(scan, all, back) && MarkedAt(scan, all, back)
    ensures forall e {:trigger scan.MarkOn(e)} | scan.MarkOn(e) :: scan.IsOn(e)
  {
    assert ReadTo(scan, all, at) && MarkedTo(scan, all, back);
    var status := scan.ResetScan();
    assert ReadTo(scan, all, back) && MarkedTo(scan, all, back);
  }

  /** getRecord, of the record the scan stands on. */
  method ReadAgain(scan: HeapFileScan, ghost all: seq<Entry>, ghost at: nat, ghost i: nat) returns (rec: Rec)
    requires Reading(scan, all, at) && i < |all| && scan.IsOn(all[i])
    ensures rec == all[i].bytes
  {
    assert ReadTo(scan, all, at);
    assert all[i] in all && Legible(all[i]);
    var status;
    status, rec := scan.GetRecord(all[i]);
  }

  /** What fetching does to the fields of a run. */
  lemma {:induction false} FetchedFields(r: Run, es: seq<Entry>)
    requires r.Ok() && !r.valid && AreBytes(r.recs, es)
    ensures r.Fetched().Ok()
    ensures r.Fetched() == if r.at < |es| then r.(valid := true, rid := r.at, rec := es[r.at].bytes, at := r.at + 1)
                           else r.(valid := true, rid := -1)
  {
    assert r.at < |es| ==> SameBytes(r.recs, es, r.at);
  }

  class RunFile {
    const inFile: HeapFileScan
    var valid: bool
    var rid: RID
    var rec: Rec
    var mark: RID
    ghost const entries: seq<Entry>   // the records of the file
    ghost var marked: bool            // setMark() was called
    ghost var abs: Run                // what this run is as a value

    ghost predicate Scanning(r: Run)
      reads this, inFile, inFile.store
    {
      && Reading(inFile, entries, r.at)
      && (0 <= r.rid < |entries| ==> inFile.IsOn(entries[r.rid]))
      && (0 <= r.mark < |entries| ==> inFile.MarkOn(entries[r.mark]))
      && (marked ==> MarkedAt(inFile, entries, r.scanMark))
    }

    /** The fields are those of the value r. */
    ghost predicate Is(r: Run)
      reads this
    {
      && r == abs && r.Ok() && AreBytes(r.recs, entries)
      && valid == r.valid && rec == r.rec && Names(rid, entries, r.rid) && Names(mark, entries, r.mark)
    }

    ghost predicate Valid()
      reads this, inFile, inFile.store
    {
      forall r {:trigger Is(r)} {:trigger Scanning(r)} | r == abs :: Is(r) && Scanning(r)
    }

    /** startScans: the file is opened and will be scanned from its start. */
    constructor (store: HeapStore)
      requires store.Valid() && Solid(store.Records())
      modifies store`pins
      ensures Valid() && abs == Run.Start(Map(BytesOf, store.Records())) && inFile.store == store && fresh(inFile)
      ensures !marked
    {
      var scan := new HeapFileScan(store);
      var status := scan.StartUnfiltered();
      inFile, marked := scan, false;
      valid, rid, rec, mark := false, NULLRID, [], NULLRID;
      entries, abs := store.Records(), Run.Start(Map(BytesOf, store.Records()));
      new;
      MapBytes(entries);
      assert ReadTo(inFile, entries, 0);
    }

    /** The part of next() that fetches a record, if the run has none in memory. */
    method Fetch()
      requires Valid()
      modifies `valid, `rid, `rec, `abs
      modifies inFile, inFile.store`pins, inFile.store`unsaved
      ensures Valid() && old(abs).Ok() && abs == old(abs).Fetched()
    {
      assert Is(abs) && Scanning(abs);
      if !valid {
        FetchNext();
      }
    }

    method FetchNext()
      requires Valid() && !valid
      modifies `valid, `rid, `rec, `abs
      modifies inFile, inFile.store`pins, inFile.store`unsaved
      ensures Valid() && old(abs).Ok() && abs == old(abs).Fetched()
    {
      assert Is(abs) && Scanning(abs);
      FetchedFields(abs, entries);
      var status, next, bytes := ReadNext(inFile, entries, abs.at);
      if status == FILEEOF {
        Become(true, RID(-1, rid.slotNo), rec, abs.Fetched());
      } else {
        OnNumber(inFile, entries, abs.at + 1, entries[abs.at]);
        Become(true, next, bytes, abs.Fetched());
      }
    }

    /** The fields of the run, its scan being where it should be. */
    method Become(valid: bool, rid: RID, rec: Rec, ghost r: Run)
      requires Scanning(r) && r.Ok() && AreBytes(r.recs, entries) && valid == r.valid && rec == r.rec
      requires Names(rid, entries, r.rid) && Names(mark, entries, r.mark)
      modifies this`valid, this`rid, this`rec, `abs
      ensures Valid() && abs == r
    {
      this.valid, this.rid, this.rec := valid, rid, rec;
      abs := r;
      assert Is(r) && Scanning(r);
    }

    /** The record in memory is given to the caller. */
    method Take()
      requires Valid() && valid && abs.rid >= 0
      modifies `valid, `abs
      ensures Valid() && abs == old(abs).(valid := false)
    {
      assert Is(abs) && Scanning(abs);
      valid := false;
      abs := abs.(valid := false);
    }

    /** The part of setMark() that concerns a run. */
    method SetMark()
      requires Valid()
      modifies `mark, `abs, `marked, inFile
      ensures Valid() && abs == old(abs).(scanMark := old(abs).at, mark := old(abs).rid) && marked
    {
      assert Is(abs) && Scanning(abs);
      Mark(inFile, entries, abs.at);
      assert 0 <= abs.rid < |entries| ==> inFile.IsOn(entries[abs.rid]);
      mark, marked := rid, true;
      abs := abs.(scanMark := abs.at, mark := abs.rid);
      assert Is(abs) && Scanning(abs);
    }

    /** The part of gotoMark(). */
    method GotoMark()
      requires Valid() && marked
      modifies `valid, `rid, `rec, `abs
      modifies inFile, inFile.store`pins, inFile.store`unsaved
      ensures Valid() && old(abs).Ok() && abs == BackAt(old(abs))
    {
      assert Is(abs) && Scanning(abs);
      Reset(inFile, entries, abs.at, abs.scanMark);
      assert 0 <= abs.mark < |entries| ==> inFile.MarkOn(entries[abs.mark]);
      var bytes := rec;
      if mark.pageNo >= 0 {
        assert SameBytes(abs.recs, entries, abs.mark);
        bytes := ReadAgain(inFile, entries, abs.scanMark, abs.mark);
      }
      Become(true, mark, bytes, BackAt(abs));
    }
  }
}
