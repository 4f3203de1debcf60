/**
  The delete operator (delete.C).
 */
module DeleteQuery {
  import opened Bytes
  import opened Errors
  import opened Sequences
  import opened HeapSpec
  import opened HeapStores
  import opened HeapScans
  import opened Filters
  import opened Schema
  import opened ScanRuns
  import opened CatalogRecords
  import opened AttrCatalog

  function Always(r: RID): bool { true }

  lemma {:induction false} DeletedCount(f: Filter, es: seq<Entry>)
    requires Usable(f)
    ensures |Pick(Stays(f, Always), es)| == |es| - |Pick(Matches(f), es)|
  {
    PickSplits(Matches(f), es);
    PickSame(Stays(f, Always), Not(Matches(f)), es);
  }

  /** What is left, record by record: those that the condition does not select. */
  lemma {:induction false} LeftMeans(f: Filter, es: seq<Entry>, e: Entry)
    requires Usable(f)
    ensures e in Pick(Stays(f, Always), es) <==> e in es && !MatchRec(f, e.bytes)
  {
    PickedMeans(f, Always, es, e);
  }

  method DeleteNext(hfs: HeapFileScan, ghost all: seq<Entry>, ghost got: seq<Entry>)
    returns (next: Status, ghost got': seq<Entry>)
    requires Sweeping(hfs, Always, all, got)
    modifies hfs, hfs.store
    ensures Sweeping(hfs, Always, all, got') && hfs.Conserved() && hfs.filter == old(hfs.filter)
    ensures if next == OK then |hfs.rest| < |old(hfs.rest)| else hfs.rest == []
  {
    var rid;
    ghost var e;
    next, rid, e := NextMatch(hfs, Always, all, got);
    got' := got;
    if next == OK {
      DropRecord(hfs, Always, all, got, e);
      got' := got + [e];
    }
  }

  method DeleteAll(hfs: HeapFileScan)
    requires hfs.Valid() && hfs.store.Counted() && hfs.rest == hfs.store.Records() && Solid(hfs.rest)
    modifies hfs, hfs.store
    ensures hfs.Valid() && hfs.store.Counted() && hfs.Conserved()
    ensures hfs.store.Records() == Pick(Stays(old(hfs.filter), Always), old(hfs.store.Records()))
  {
    ghost var all, got: seq<Entry> := hfs.store.Records(), [];
    SweptStart(hfs.filter, Always, all);
    var next := OK;
    while next == OK
      invariant hfs.Conserved() && hfs.filter == old(hfs.filter)
      invariant Sweeping(hfs, Always, all, got)
      invariant next == OK || hfs.rest == []
      decreases |hfs.rest|, next == OK
    {
      next, got := DeleteNext(hfs, all, got);
    }
    SweptAll(hfs.filter, Always, all, hfs.store.Records(), got);
  }

  method DeleteAndClose(hfs: HeapFileScan) returns (status: Status)
    requires hfs.Valid() && hfs.store.Counted() && hfs.rest == hfs.store.Records() && Solid(hfs.rest)
    modifies hfs, hfs.store
    ensures hfs.store.Valid() && hfs.store.Counted() && status == OK
    ensures hfs.store.Records() == Pick(Stays(old(hfs.filter), Always), old(hfs.store.Records()))
    ensures hfs.store.hdr.recCnt
         == old(hfs.store.hdr).recCnt - |Pick(Matches(old(hfs.filter)), old(hfs.store.Records()))|
    ensures forall n :: hfs.store.pins[n] == old(hfs.OtherPins(n))
    ensures forall n :: n in hfs.store.unsaved ==> old(hfs.LeftDirty(n))
  {
    DeletedCount(hfs.filter, hfs.store.Records());
    DeleteAll(hfs);
    label Done:
    status := hfs.Destroy();
    forall n ensures hfs.store.pins[n] == old(hfs.OtherPins(n)) && (n in hfs.store.unsaved ==> old(hfs.LeftDirty(n))) {
      assert old@Done(hfs.OtherPins(n)) == old(hfs.OtherPins(n));
      assert old@Done(hfs.LeftDirty(n)) ==> old(hfs.LeftDirty(n));
    }
  }

  /** The condition of a deletion, from what the catalog says of the attribute; or why there is none. */
  datatype Condition = Where(f: Filter) | Refused(status: Status)

  ghost function ConditionOf(
      cat: seq<Entry>, relName: seq<byte>, attrName: seq<byte>, typ: Datatype, value: seq<byte>, op: Operator)
    : Condition
  {
    if attrName == [] then Where(NoFilter)
    else if relName == [] then Refused(BADCATPARM)
    else
      var k := First(OfAttr(relName, attrName), cat);
      if k == |cat| then Refused(ATTRNOTFOUND)
      else
        var f := Filter(DescOf(cat[k]).attrOffset, DescOf(cat[k]).attrLen, typ, value, op);
        if Usable(f) then Where(f) else Refused(BADSCANPARM)
  }

  method StartOn(
      hfs: HeapFileScan, attrName: seq<byte>, attrDesc: AttrDesc, typ: Datatype, value: seq<byte>, op: Operator)
    returns (status: Status)
    requires hfs.Valid() && (typ != STRING ==> |value| >= 4)
    modifies hfs`filter
    ensures hfs.Valid() && hfs.Conserved()
    ensures var f := Filter(attrDesc.attrOffset, attrDesc.attrLen, typ, value, op);
      if attrName == [] then status == OK && hfs.filter == NoFilter
      else if Usable(f) then status == OK && hfs.filter == f
      else status == BADSCANPARM
  {
    if attrName == [] {
      status := hfs.StartUnfiltered();
    } else {
      status := hfs.StartScan(attrDesc.attrOffset, attrDesc.attrLen, typ, value, op);
    }
  }

  /** Looks the attribute up, if there is one, while the scan is open; it may be one of the same catalog. */
  method InfoBeside(hfs: HeapFileScan, attrCat: HeapStore, relName: seq<byte>, attrName: seq<byte>)
    returns (status: Status, attrDesc: AttrDesc)
    requires hfs.Valid() && attrCat.Valid() && attrCat.Counted() && IsCatalog(attrCat.Records()) && NoNul(relName)
    modifies attrCat`pins, attrCat`unsaved
    ensures hfs.Conserved()
    ensures hfs.Valid() && attrCat.Valid() && forall n :: attrCat.pins[n] == old(attrCat.pins)[n]
    ensures var cat := old(attrCat.Records());
      var k := First(OfAttr(relName, attrName), cat);
      if attrName == [] then status == OK
      else if relName == [] then status == BADCATPARM
      else if k < |cat| then status == OK && attrDesc == DescOf(cat[k])
      else status == ATTRNOTFOUND
  {
    status, attrDesc := OK, AttrDesc([], [], 0, STRING, 0);
    if attrName != [] {
      status, attrDesc := GetInfo(attrCat, relName, attrName);
      forall n {:trigger hfs.LeftDirty(n)} | hfs.LeftDirty(n) ensures old(hfs.LeftDirty(n)) {}
    }
  }

  /** The scan gets its condition: all records, or those whose attribute compares as the operator says with a
      value that has the type the caller gives it. */
  method StartCondition(
      hfs: HeapFileScan, attrCat: HeapStore, relName: seq<byte>, attrName: seq<byte>, typ: Datatype, value: seq<byte>,
      op: Operator)
    returns (status: Status)
    requires hfs.Valid() && NoNul(relName) && (typ != STRING ==> |value| >= 4)
    requires attrCat.Valid() && attrCat.Counted() && IsCatalog(attrCat.Records())
    modifies hfs`filter, attrCat`pins, attrCat`unsaved
    ensures hfs.Valid() && hfs.Conserved() && attrCat.Valid() && forall n :: attrCat.pins[n] == old(attrCat.pins)[n]
    ensures ConditionOf(old(attrCat.Records()), relName, attrName, typ, value, op)
         == if status == OK then Where(hfs.filter) else Refused(status)
  {
    var attrDesc;
    status, attrDesc := InfoBeside(hfs, attrCat, relName, attrName);
    if status == OK {
      status := StartOn(hfs, attrName, attrDesc, typ, value, op);
    }
  }

  /** Deletes the records that match, in any relation and also in the attribute catalog: exactly the others are left,
      with their RIDs and bytes, and recCnt goes down by the number deleted.  If the attribute is unknown or startScan
      refuses the condition the file is as it was, but the scan that was opened for it is never closed and keeps its
      two pins. */
  method QuDelete(
      relation: HeapStore, attrCat: HeapStore, relName: seq<byte>, attrName: seq<byte>, op: Operator, typ: Datatype,
      value: seq<byte>)
    returns (status: Status)
    requires relation.Valid() && relation.Counted() && Solid(relation.Records())
    requires attrCat.Valid() && attrCat.Counted() && IsCatalog(attrCat.Records())
    requires NoNul(relName) && (typ != STRING ==> |value| >= 4)
    modifies relation, attrCat`pins, attrCat`unsaved
    ensures relation.Valid() && relation.Counted() && attrCat.Valid()
    ensures relation != attrCat ==> forall n :: attrCat.pins[n] == old(attrCat.pins)[n]
    ensures var cat := old(attrCat.Records());
      var k := First(OfAttr(relName, attrName), cat);
      var f := if attrName == [] || k == |cat| then NoFilter
               else Filter(DescOf(cat[k]).attrOffset, DescOf(cat[k]).attrLen, typ, value, op);
      var refusal := if attrName == [] then OK
                     else if relName == [] then BADCATPARM
                     else if k == |cat| then ATTRNOTFOUND
                     else if Usable(f) then OK else BADSCANPARM;
      && status == refusal
      && if status == OK then
        && Usable(f) && relation.Records() == Pick(Stays(f, Always), old(relation.Records()))
        && relation.hdr.recCnt == old(relation.hdr).recCnt - |Pick(Matches(f), old(relation.Records()))|
        && (forall n :: relation.pins[n] == old(relation.pins)[n]) && relation.unsaved <= old(relation.unsaved)
      else
        && relation.Records() == old(relation.Records())
        && forall n :: relation.pins[n] == old(relation.pins)[n]
                       + Held(relation.hdrPageNo, true, old(relation.hdr).firstPage, n)
  {
    var hfs := new HeapFileScan(relation);
    label Opened:
    status := StartCondition(hfs, attrCat, relName, attrName, typ, value, op);
    if status == OK {
      label Started:
      status := DeleteAndClose(hfs);
      forall n ensures relation.pins[n] == old(relation.pins)[n] {
        assert old@Started(hfs.OtherPins(n)) == old@Opened(hfs.OtherPins(n));
      }
      forall n | n in relation.unsaved ensures n in old(relation.unsaved) {
        assert old@Started(hfs.LeftDirty(n)) ==> old@Opened(hfs.LeftDirty(n));
      }
    } else {
      forall n ensures relation.pins[n] == old(relation.pins)[n] + Held(relation.hdrPageNo, true, hfs.curPageNo, n) {
        assert hfs.OtherPins(n) == old@Opened(hfs.OtherPins(n));
      }
    }
  }
}
