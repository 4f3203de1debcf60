/**
  The select operator (select.C): projections of the matching records go to the result relation.
 */
module SelectQuery {
  import opened Bytes
  import opened Errors
  import opened Sequences
  import opened Memory
  import opened HeapSpec
  import opened HeapGrowth
  import opened HeapStores
  import opened HeapScans
  import opened HeapInserts
  import opened Filters
  import opened Schema
  import opened ScanRuns

  function Projecting(attrs: seq<AttrDesc>): Entry -> seq<byte> {
    (e: Entry) => Project(e.bytes, attrs)
  }

  /** Builds the output record: each attribute is copied out of the scanned record. */
  method CopyAttrs(rec: seq<byte>, projNames: seq<AttrDesc>, reclen: nat) returns (outputData: array<byte>)
    requires AllWithin(rec, projNames) && reclen == Width(projNames)
    ensures fresh(outputData) && outputData.Length == reclen && outputData[..] == Project(rec, projNames)
  {
    outputData := new byte[reclen];
    var outputOffset := 0;
    for j := 0 to |projNames|
      invariant outputOffset == Width(projNames[..j]) && 0 <= outputOffset <= reclen
      invariant outputData[..outputOffset] == Project(rec, projNames[..j])
    {
      outputOffset := CopyOne(rec, projNames, reclen, outputData, outputOffset, j);
    }
    assert projNames[..|projNames|] == projNames;
  }

  method CopyOne(rec: seq<byte>, projNames: seq<AttrDesc>, reclen: nat, outputData: array<byte>, outputOffset: nat,
      j: nat)
    returns (next: nat)
    requires AllWithin(rec, projNames) && reclen == Width(projNames) == outputData.Length && j < |projNames|
    requires outputOffset == Width(projNames[..j]) <= reclen
    requires outputData[..outputOffset] == Project(rec, projNames[..j])
    modifies outputData
    ensures next == Width(projNames[..j + 1]) <= reclen && outputData[..next] == Project(rec, projNames[..j + 1])
  {
    var a := projNames[j];
    assert a in projNames && Within(rec, a);
    assert projNames[..j + 1][..j] == projNames[..j];
    forall b | b in projNames ensures b.attrLen >= 0 {
      assert Within(rec, b);
    }
    WidthGrows(projNames, j + 1);
    MemCpy(outputData, outputOffset, Field(rec, a));
    next := outputOffset + a.attrLen;
    PutPrefix(old(outputData[..]), outputOffset, Field(rec, a));
    assert outputData[..next] == outputData[..][..next];
  }

  predicate Long(e: Entry, attrs: seq<AttrDesc>) { AllWithin(e.bytes, attrs) }

  /** The records of the relation are long enough for the attributes. */
  ghost predicate AllLong(es: seq<Entry>, attrs: seq<AttrDesc>) {
    forall e {:trigger Long(e, attrs)} | e in es :: Long(e, attrs)
  }

  function Never(r: RID): bool { false }

  /** The record the scan stands on is projected and inserted. */
  method CopyOut(
      hfs: HeapFileScan, insertRel: InsertFileScan, projNames: seq<AttrDesc>, reclen: nat,
      ghost e: Entry, ghost base: Snapshot, ghost recs: seq<seq<byte>>)
    returns (status: Status)
    requires hfs.Valid() && hfs.IsOn(e) && e.bytes != []
    requires insertRel.Valid() && hfs.store != insertRel.store
    requires reclen == Width(projNames) && AllWithin(e.bytes, projNames)
    requires Filled(insertRel.store, base, recs)
    modifies insertRel, insertRel.store
    ensures insertRel.Valid() && insertRel.Conserved() && (status == OK <==> reclen <= MAX_RECORD)
    ensures status == OK ==> Filled(insertRel.store, base, recs + [Project(e.bytes, projNames)])
    ensures status != OK ==>
      insertRel.store.Records() == old(insertRel.store.Records()) && status in {INVALIDRECLEN, NOSPACE}
  {
    var scanRec;
    status, scanRec := hfs.GetRecord(e);
    var outputData := CopyAttrs(scanRec, projNames, reclen);
    status := Append(insertRel, outputData[..], base, recs);
  }

  /** The result has got the projections of the records the scan came to. */
  ghost predicate Copying(
      hfs: HeapFileScan, insertRel: InsertFileScan, projNames: seq<AttrDesc>,
      all: seq<Entry>, got: seq<Entry>, base: Snapshot)
    reads hfs, hfs.store, insertRel, insertRel.store
  {
    && Sweeping(hfs, Never, all, got) && AllLong(all, projNames)
    && insertRel.Valid() && hfs.store != insertRel.store
    && Filled(insertRel.store, base, Map(Projecting(projNames), got))
  }

  /** The matching record the scan came to is copied. */
  method CopyHere(
      hfs: HeapFileScan, insertRel: InsertFileScan, projNames: seq<AttrDesc>, reclen: nat,
      ghost all: seq<Entry>, ghost got: seq<Entry>, ghost e: Entry, ghost base: Snapshot)
    returns (status: Status)
    requires Arrived(hfs, Never, all, got, e) && AllLong(all, projNames) && reclen == Width(projNames)
    requires insertRel.Valid() && hfs.store != insertRel.store
    requires Filled(insertRel.store, base, Map(Projecting(projNames), got))
    modifies insertRel, insertRel.store
    ensures insertRel.Conserved() && (status == OK <==> reclen <= MAX_RECORD)
    ensures if status == OK then Copying(hfs, insertRel, projNames, all, got + [e], base)
            else Refused(hfs, insertRel, all, status) && insertRel.store.Records() == old(insertRel.store.Records())
  {
    WantedIn(hfs, all, got, e);
    SweptIn(hfs.filter, Never, all, hfs.store.Records(), got, e, hfs.rest);
    assert Long(e, projNames);
    SweptKeep(hfs.filter, Never, all, hfs.store.Records(), got, e, hfs.rest);
    MapOne(Projecting(projNames), got, e);
    status := CopyOut(hfs, insertRel, projNames, reclen, e, base, Map(Projecting(projNames), got));
  }

  /** What ScanSelect has to copy, if the scan has not begun. */
  ghost function Wanted(hfs: HeapFileScan): seq<Entry>
    requires hfs.Valid()
    reads hfs, hfs.store
  {
    Pick(Matches(hfs.filter), hfs.store.Records())
  }

  /** Having come to a record, the scan is bound to copy one. */
  lemma {:induction false} WantedIn(hfs: HeapFileScan, all: seq<Entry>, got: seq<Entry>, e: Entry)
    requires Arrived(hfs, Never, all, got, e)
    ensures Pick(Matches(hfs.filter), all) != []
  {
    SweptIn(hfs.filter, Never, all, hfs.store.Records(), got, e, hfs.rest);
    PickIn(Matches(hfs.filter), all, e);
  }

  /** One turn of ScanSelect's loop. */
  method CopyNext(
      hfs: HeapFileScan, insertRel: InsertFileScan, projNames: seq<AttrDesc>, reclen: nat,
      ghost all: seq<Entry>, ghost got: seq<Entry>, ghost base: Snapshot)
    returns (next: Status, status: Status, ghost got': seq<Entry>)
    requires Copying(hfs, insertRel, projNames, all, got, base) && reclen == Width(projNames)
    modifies hfs, hfs.store`pins, hfs.store`unsaved, insertRel, insertRel.store
    ensures hfs.Conserved() && insertRel.Conserved() && hfs.filter == old(hfs.filter)
    ensures if status == OK then Copying(hfs, insertRel, projNames, all, got', base)
            else Refused(hfs, insertRel, all, status) && insertRel.store.Records() == old(insertRel.store.Records())
    ensures if next == OK then |hfs.rest| < |old(hfs.rest)| else hfs.rest == [] && got' == got && status == OK
    ensures next == OK ==> (status == OK <==> reclen <= MAX_RECORD)
    ensures status == next == OK ==> |got'| == |got| + 1
  {
    var rid;
    ghost var e;
    next, rid, e := NextMatch(hfs, Never, all, got);
    status := OK;
    got' := got;
    if next == OK {
      status := CopyHere(hfs, insertRel, projNames, reclen, all, got, e, base);
      got' := got + [e];
    }
  }

  /** The result relation refused a record. */
  ghost predicate Refused(hfs: HeapFileScan, insertRel: InsertFileScan, all: seq<Entry>, status: Status)
    reads hfs, hfs.store, insertRel, insertRel.store
  {
    hfs.Valid() && insertRel.Valid() && Pick(Matches(hfs.filter), all) != [] && status in {INVALIDRECLEN, NOSPACE}
  }

  /** The loop of ScanSelect.  A record too wide for a page stops it at once, with the result unchanged. */
  method CopyLoop(
      hfs: HeapFileScan, insertRel: InsertFileScan, projNames: seq<AttrDesc>, reclen: nat,
      ghost all: seq<Entry>, ghost base: Snapshot)
    returns (status: Status, ghost got: seq<Entry>)
    requires Copying(hfs, insertRel, projNames, all, [], base) && reclen == Width(projNames)
    modifies hfs, hfs.store`pins, hfs.store`unsaved, insertRel, insertRel.store
    ensures hfs.Conserved() && insertRel.Conserved() && hfs.filter == old(hfs.filter)
    ensures if status == OK then Copying(hfs, insertRel, projNames, all, got, base) && hfs.rest == []
            else Refused(hfs, insertRel, all, status) && insertRel.store.Records() == old(insertRel.store.Records())
    ensures if status == OK then reclen <= MAX_RECORD || got == [] else reclen > MAX_RECORD
  {
    FilledNone(insertRel.store, base);
    status, got := OK, [];
    var next := OK;
    while next == OK && status == OK
      invariant hfs.Conserved() && insertRel.Conserved() && hfs.filter == old(hfs.filter)
      invariant if status == OK then Copying(hfs, insertRel, projNames, all, got, base)
                else Refused(hfs, insertRel, all, status) && insertRel.store.Records() == old(insertRel.store.Records())
      invariant status == OK && got == [] ==> insertRel.store.Records() == old(insertRel.store.Records())
      invariant reclen <= MAX_RECORD || got == [] || status != OK
      invariant if status == OK then next == OK || hfs.rest == [] else reclen > MAX_RECORD
      decreases |hfs.rest|, next == OK, status == OK
    {
      next, status, got := CopyNext(hfs, insertRel, projNames, reclen, all, got, base);
      if status == OK && got == [] {
        FilledNone(insertRel.store, base);
      }
    }
  }

  /** All of ScanSelect's copying, from the start of the scan. */
  method CopyAll(hfs: HeapFileScan, insertRel: InsertFileScan, projNames: seq<AttrDesc>, reclen: nat)
    returns (status: Status)
    requires hfs.Valid() && hfs.store.Counted() && hfs.rest == hfs.store.Records() && Solid(hfs.rest)
    requires AllLong(hfs.rest, projNames) && reclen == Width(projNames)
    requires insertRel.Valid() && hfs.store != insertRel.store && insertRel.store.chain != []
    modifies hfs, hfs.store`pins, hfs.store`unsaved, insertRel, insertRel.store
    ensures hfs.Valid() && insertRel.Valid() && hfs.Conserved() && insertRel.Conserved()
    ensures status == OK <==> old(Wanted(hfs)) == [] || reclen <= MAX_RECORD
    ensures status == OK ==>
      Filled(insertRel.store, old(insertRel.store.Now()), Map(Projecting(projNames), old(Wanted(hfs))))
    ensures status != OK ==>
      && insertRel.store.Records() == old(insertRel.store.Records()) && status in {INVALIDRECLEN, NOSPACE}
  {
    ghost var all, base := hfs.store.Records(), insertRel.store.Now();
    SweptStart(hfs.filter, Never, all);
    FilledStart(insertRel.store);
    ghost var got;
    status, got := CopyLoop(hfs, insertRel, projNames, reclen, all, base);
    if status == OK {
      SweptAll(hfs.filter, Never, all, hfs.store.Records(), got);
    }
  }

  /** The result relation is open while the records are copied. */
  method FillResult(hfs: HeapFileScan, result: HeapStore, projNames: seq<AttrDesc>, reclen: nat)
    returns (status: Status)
    requires hfs.Valid() && hfs.store.Counted() && hfs.rest == hfs.store.Records() && Solid(hfs.rest)
    requires AllLong(hfs.rest, projNames) && reclen == Width(projNames)
    requires result.Valid() && hfs.store != result
    modifies hfs, hfs.store`pins, hfs.store`unsaved, result
    ensures hfs.Valid() && result.Valid() && hfs.Conserved()
    ensures status == OK <==> old(Wanted(hfs)) == [] || reclen <= MAX_RECORD
    ensures status == OK ==> Filled(result, old(result.Now()), Map(Projecting(projNames), old(Wanted(hfs))))
    ensures status != OK ==> result.Records() == old(result.Records()) && status in {INVALIDRECLEN, NOSPACE}
    ensures forall n :: result.pins[n] == old(result.pins)[n]
  {
    var insertRel := new InsertFileScan(result);
    label Opened:
    status := CopyAll(hfs, insertRel, projNames, reclen);
    label Copied:
    insertRel.Destroy();
    forall n ensures result.pins[n] == old(result.pins)[n] {
      assert old@Copied(insertRel.OtherPins(n)) == old@Opened(insertRel.OtherPins(n));
    }
  }

  /** After an error the scan is not closed. */
  method FillAndClose(hfs: HeapFileScan, result: HeapStore, projNames: seq<AttrDesc>, reclen: nat)
    returns (status: Status)
    requires hfs.Valid() && hfs.store.Counted() && hfs.rest == hfs.store.Records() && Solid(hfs.rest)
    requires AllLong(hfs.rest, projNames) && reclen == Width(projNames)
    requires result.Valid() && hfs.store != result
    modifies hfs, hfs.store`pins, hfs.store`unsaved, result
    ensures hfs.store.Valid() && result.Valid()
    ensures status == OK <==> old(Wanted(hfs)) == [] || reclen <= MAX_RECORD
    ensures status == OK ==>
      && Filled(result, old(result.Now()), Map(Projecting(projNames), old(Wanted(hfs))))
      && forall n :: hfs.store.pins[n] == old(hfs.OtherPins(n))
    ensures status != OK ==> result.Records() == old(result.Records()) && status in {INVALIDRECLEN, NOSPACE}
    ensures forall n :: result.pins[n] == old(result.pins)[n]
  {
    status := FillResult(hfs, result, projNames, reclen);
    if status == OK {
      label Copied:
      var ended := hfs.Destroy();
      forall n ensures hfs.store.pins[n] == old(hfs.OtherPins(n)) {
        assert old@Copied(hfs.OtherPins(n)) == old(hfs.OtherPins(n));
      }
    }
  }

  /** Copies the projections of the matching records, in scan order, to the end of the result relation.
      The source is unchanged and both files get their pins back.  If the projection is too wide
      for a page nothing is added. */
  method ScanSelect(
      relation: HeapStore, result: HeapStore, projNames: seq<AttrDesc>, filtered: bool, attrDesc: AttrDesc,
      op: Operator, value: seq<byte>, reclen: nat)
    returns (status: Status)
    requires relation.Valid() && relation.Counted() && Solid(relation.Records())
    requires AllLong(relation.Records(), projNames)
    requires result.Valid() && result != relation && reclen == Width(projNames)
    requires attrDesc.attrType != STRING ==> |value| >= 4
    modifies relation`pins, relation`unsaved, result
    ensures relation.Valid() && result.Valid()
    ensures var f := if !filtered then NoFilter
                     else Filter(attrDesc.attrOffset, attrDesc.attrLen, attrDesc.attrType, value, op);
      if !Usable(f) then status == BADSCANPARM && result.Records() == old(result.Records())
      else
        var wanted := Pick(Matches(f), old(relation.Records()));
        && (status == OK <==> wanted == [] || reclen <= MAX_RECORD)
        && (if status == OK then
              && Filled(result, old(result.Now()), Map(Projecting(projNames), wanted))
              && (forall n :: relation.pins[n] == old(relation.pins)[n])
            else result.Records() == old(result.Records()) && status in {INVALIDRECLEN, NOSPACE})
    ensures status != BADSCANPARM ==> forall n :: result.pins[n] == old(result.pins)[n]
  {
    var hfs := new HeapFileScan(relation);
    if filtered {
      status := hfs.StartScan(attrDesc.attrOffset, attrDesc.attrLen, attrDesc.attrType, value, op);
    } else {
      status := hfs.StartUnfiltered();
    }
    if status != OK {
      return;
    }
    label Started:
    status := FillAndClose(hfs, result, projNames, reclen);
    if status == OK {
      forall n ensures relation.pins[n] == old(relation.pins)[n] {
        assert old@Started(hfs.OtherPins(n)) == old(relation.pins)[n];
      }
    }
  }

  /** Record t of what the result gets, of the t-th record wanted: it is as wide as the projection, and attribute m
      stands where the lengths before it add up to, with the bytes it has in that record. */
  lemma {:induction false} SelectedRecord(wanted: seq<Entry>, projNames: seq<AttrDesc>, t: nat, m: nat)
    requires AllLong(wanted, projNames) && t < |wanted|
    ensures var recs := Map(Projecting(projNames), wanted);
      && |recs| == |wanted| && |recs[t]| == Width(projNames)
      && (m < |projNames| ==>
            var a, w := projNames[m], Width(projNames[..m]);
            && 0 <= w && 0 <= a.attrLen && w + a.attrLen <= |recs[t]|
            && 0 <= a.attrOffset && a.attrOffset + a.attrLen <= |wanted[t].bytes|
            && recs[t][w..w + a.attrLen] == wanted[t].bytes[a.attrOffset..a.attrOffset + a.attrLen])
  {
    MapIndex(Projecting(projNames), wanted, t);
    assert wanted[t] in wanted && Long(wanted[t], projNames);
    ProjectWidth(wanted[t].bytes, projNames);
    if m < |projNames| {
      assert projNames[m] in projNames && Within(wanted[t].bytes, projNames[m]);
      ProjectField(wanted[t].bytes, projNames, m);
    }
  }

  /** Selecting all attributes in schema order copies the records unchanged. */
  lemma {:induction false} SelectAllCopies(attrs: seq<AttrDesc>, es: seq<Entry>)
    requires LaidOut(attrs) && forall e | e in es :: |e.bytes| == Width(attrs)
    ensures Map(Projecting(attrs), es) == Map(BytesOf, es)
  {
    if es != [] {
      ProjectAll(es[0].bytes, attrs);
      SelectAllCopies(attrs, es[1..]);
    }
  }
}
