/**
  The nested-loops join (join.C).
 */
module JoinQuery {
  import opened Bytes
  import opened Errors
  import opened Sequences
  import opened Memory
  import opened HeapSpec
  import opened HeapGrowth
  import opened HeapStores
  import opened HeapScans
  import opened HeapInserts
  import opened Filters
  import opened Schema
  import opened ScanRuns
  import opened CatalogRecords
  import opened AttrCatalog
  import SelectQuery

  /** What the caller says of a join attribute: type and length in an attrInfo.  The program has -1 in both. */
  datatype AttrSpec = AttrSpec(attrType: int, attrLen: int)

  /** A join of the relations of attr1 (outer) and attr2 (inner) on attr1 op attr2. */
  datatype Join = Join(projNames: seq<AttrDesc>, attr1: AttrDesc, op: Operator, attr2: AttrDesc) {

    /** Attributes of the outer relation are told by its name. */
    predicate OfOuter(a: AttrDesc) { a.relName == attr1.relName }

    /** The record an attribute of the result is copied from. */
    function Source(outer: seq<byte>, inner: seq<byte>, a: AttrDesc): seq<byte> {
      if OfOuter(a) then outer else inner
    }

    /** The catalog has the join attributes with one type and one length. */
    predicate Comparable() {
      attr1.attrType == attr2.attrType && attr1.attrLen == attr2.attrLen
    }

    /** attr1 as the inner scan reads it: the type and the length are those of attr2. */
    function Seen(): AttrDesc {
      attr1.(attrType := attr2.attrType, attrLen := attr2.attrLen)
    }

    /** attr2 is an attribute a scan can filter on. */
    predicate Filtering() {
      attr2.attrOffset >= 0 && attr2.attrLen >= 1 && (attr2.attrType != STRING ==> attr2.attrLen == 4)
    }

    predicate SourceWithin(outer: seq<byte>, inner: seq<byte>, a: AttrDesc) { Within(Source(outer, inner, a), a) }

    /** The records are long enough for the attributes used. */
    predicate Fits(outer: seq<byte>, inner: seq<byte>) {
      && Within(outer, Seen())
      && forall a {:trigger SourceWithin(outer, inner, a)} | a in projNames :: SourceWithin(outer, inner, a)
    }

    /** The condition on inner records that startScan gets: the operator is flipped, and the value is
        a pointer into the outer record. */
    function InnerFilter(outer: seq<byte>): Filter
      requires Within(outer, Seen())
    {
      Filter(attr2.attrOffset, attr2.attrLen, attr2.attrType, outer[attr1.attrOffset..], Flip(op))
    }
  }

  /** The joined record, up to attribute k. */
  function Joined(j: Join, outer: seq<byte>, inner: seq<byte>, k: nat): seq<byte>
    requires k <= |j.projNames|
  {
    if k == 0 then []
    else
      var a := j.projNames[k - 1];
      Joined(j, outer, inner, k - 1) + Field(j.Source(outer, inner, a), a)
  }

  function Pairing(j: Join, outer: seq<byte>): Entry -> seq<byte> {
    (inner: Entry) => Joined(j, outer, inner.bytes, |j.projNames|)
  }

  lemma {:induction false} JoinedWidth(j: Join, outer: seq<byte>, inner: seq<byte>, k: nat)
    requires k <= |j.projNames| && j.Fits(outer, inner)
    ensures |Joined(j, outer, inner, k)| == Width(j.projNames[..k]) <= Width(j.projNames)
    decreases k
  {
    forall a | a in j.projNames ensures a.attrLen >= 0 {
      assert j.SourceWithin(outer, inner, a);
    }
    WidthGrows(j.projNames, k);
    if k > 0 {
      JoinedWidth(j, outer, inner, k - 1);
      assert j.projNames[..k][..k - 1] == j.projNames[..k - 1];
      assert j.SourceWithin(outer, inner, j.projNames[k - 1]);
    }
  }

  /** Copies the attributes out of the outer and inner record into the output buffer. */
  method CopyAttrs(j: Join, outer: seq<byte>, inner: seq<byte>, outputData: array<byte>)
    requires j.Fits(outer, inner) && outputData.Length == Width(j.projNames)
    modifies outputData
    ensures outputData[..] == Joined(j, outer, inner, |j.projNames|)
  {
    var outputOffset := 0;
    for i := 0 to |j.projNames|
      invariant outputOffset == |Joined(j, outer, inner, i)| <= outputData.Length
      invariant outputData[..outputOffset] == Joined(j, outer, inner, i)
    {
      outputOffset := CopyOne(j, outer, inner, outputData, outputOffset, i);
    }
    JoinedWidth(j, outer, inner, |j.projNames|);
    assert j.projNames[..|j.projNames|] == j.projNames;
  }

  method CopyOne(j: Join, outer: seq<byte>, inner: seq<byte>, outputData: array<byte>, outputOffset: nat, i: nat)
    returns (next: nat)
    requires j.Fits(outer, inner) && outputData.Length == Width(j.projNames) && i < |j.projNames|
    requires outputOffset == |Joined(j, outer, inner, i)| <= outputData.Length
    requires outputData[..outputOffset] == Joined(j, outer, inner, i)
    modifies outputData
    ensures next == |Joined(j, outer, inner, i + 1)| <= outputData.Length
    ensures outputData[..next] == Joined(j, outer, inner, i + 1)
  {
    var a := j.projNames[i];
    JoinedWidth(j, outer, inner, i + 1);
    assert j.SourceWithin(outer, inner, a);
    var field := Field(if j.OfOuter(a) then outer else inner, a);
    MemCpy(outputData, outputOffset, field);
    next := outputOffset + a.attrLen;
    PutPrefix(old(outputData[..]), outputOffset, field);
    assert outputData[..next] == outputData[..][..next];
  }

  // ---- The inner scan ----

  predicate FitsPair(j: Join, o: Entry, i: Entry) { j.Fits(o.bytes, i.bytes) }

  /** The outer record o fits with every inner one. */
  ghost predicate FitsInner(j: Join, o: Entry, inner: seq<Entry>) {
    Within(o.bytes, j.Seen()) && forall i {:trigger FitsPair(j, o, i)} | i in inner :: FitsPair(j, o, i)
  }

  ghost predicate FitsAll(j: Join, outer: seq<Entry>, inner: seq<Entry>) {
    forall o {:trigger FitsInner(j, o, inner)} | o in outer :: FitsInner(j, o, inner)
  }

  /** The inner records that go with o, in scan order. */
  function Partners(j: Join, o: Entry, inner: seq<Entry>): seq<Entry> {
    if Within(o.bytes, j.Seen()) && j.Filtering() then Pick(Matches(j.InnerFilter(o.bytes)), inner) else []
  }

  /** The records the join produces: outer-major, both in scan order. */
  function JoinRecs(j: Join, outer: seq<Entry>, inner: seq<Entry>): seq<seq<byte>> {
    if outer == [] then []
    else
      var o := outer[|outer| - 1];
      JoinRecs(j, outer[..|outer| - 1], inner) + Map(Pairing(j, o.bytes), Partners(j, o, inner))
  }

  lemma {:induction false} JoinRecsOne(j: Join, outer: seq<Entry>, o: Entry, inner: seq<Entry>)
    ensures JoinRecs(j, outer + [o], inner)
         == JoinRecs(j, outer, inner) + Map(Pairing(j, o.bytes), Partners(j, o, inner))
  {
    assert (outer + [o])[..|outer|] == outer;
  }

  /** The output so far is what was there before the inner scan, and the pairs of o with what it came to. */
  ghost predicate Joining(
      innerScan: HeapFileScan, resultRel: InsertFileScan, j: Join, o: Entry,
      all: seq<Entry>, got: seq<Entry>, base: Snapshot, recs: seq<seq<byte>>)
    reads innerScan, innerScan.store, resultRel, resultRel.store
  {
    && Sweeping(innerScan, SelectQuery.Never, all, got) && FitsInner(j, o, all)
    && resultRel.Valid() && innerScan.store != resultRel.store
    && Filled(resultRel.store, base, recs + Map(Pairing(j, o.bytes), got))
  }

  /** One pair is written to the result. */
  method JoinHere(
      innerScan: HeapFileScan, resultRel: InsertFileScan, outputData: array<byte>, j: Join, outerRec: seq<byte>,
      ghost o: Entry, ghost all: seq<Entry>, ghost got: seq<Entry>, ghost e: Entry, ghost base: Snapshot,
      ghost recs: seq<seq<byte>>)
    requires Arrived(innerScan, SelectQuery.Never, all, got, e) && FitsInner(j, o, all) && outerRec == o.bytes
    requires resultRel.Valid() && innerScan.store != resultRel.store
    requires Filled(resultRel.store, base, recs + Map(Pairing(j, o.bytes), got))
    requires outputData.Length == Width(j.projNames) <= MAX_RECORD
    modifies outputData, resultRel, resultRel.store
    ensures Joining(innerScan, resultRel, j, o, all, got + [e], base, recs) && resultRel.Conserved()
  {
    SweptIn(innerScan.filter, SelectQuery.Never, all, innerScan.store.Records(), got, e, innerScan.rest);
    assert FitsPair(j, o, e);
    SweptKeep(innerScan.filter, SelectQuery.Never, all, innerScan.store.Records(), got, e, innerScan.rest);
    MapOne(Pairing(j, o.bytes), got, e);
    Regroup(recs, Map(Pairing(j, o.bytes), got), [Pairing(j, o.bytes)(e)]);
    WritePair(innerScan, resultRel, outputData, j, outerRec, e, base, recs + Map(Pairing(j, o.bytes), got));
  }

  method WritePair(
      innerScan: HeapFileScan, resultRel: InsertFileScan, outputData: array<byte>, j: Join, outerRec: seq<byte>,
      ghost e: Entry, ghost base: Snapshot, ghost recs: seq<seq<byte>>)
    requires innerScan.Valid() && innerScan.IsOn(e) && Legible(e) && j.Fits(outerRec, e.bytes)
    requires resultRel.Valid() && innerScan.store != resultRel.store && Filled(resultRel.store, base, recs)
    requires outputData.Length == Width(j.projNames) <= MAX_RECORD
    modifies outputData, resultRel, resultRel.store
    ensures resultRel.Valid() && resultRel.Conserved()
    ensures Filled(resultRel.store, base, recs + [Pairing(j, outerRec)(e)])
  {
    var status, innerRec := innerScan.GetRecord(e);
    CopyAttrs(j, outerRec, innerRec, outputData);
    status := Append(resultRel, outputData[..], base, recs);
  }

  method InnerNext(
      innerScan: HeapFileScan, resultRel: InsertFileScan, outputData: array<byte>, j: Join, outerRec: seq<byte>,
      ghost o: Entry, ghost all: seq<Entry>, ghost got: seq<Entry>, ghost base: Snapshot, ghost recs: seq<seq<byte>>)
    returns (next: Status, ghost got': seq<Entry>)
    requires Joining(innerScan, resultRel, j, o, all, got, base, recs) && outerRec == o.bytes
    requires outputData.Length == Width(j.projNames) <= MAX_RECORD
    modifies innerScan, innerScan.store`pins, innerScan.store`unsaved, outputData, resultRel, resultRel.store
    ensures innerScan.Conserved() && resultRel.Conserved() && innerScan.filter == old(innerScan.filter)
    ensures Joining(innerScan, resultRel, j, o, all, got', base, recs)
    ensures if next == OK then |innerScan.rest| < |old(innerScan.rest)| else innerScan.rest == []
  {
    var rid;
    ghost var e;
    next, rid, e := NextMatch(innerScan, SelectQuery.Never, all, got);
    got' := got;
    if next == OK {
      JoinHere(innerScan, resultRel, outputData, j, outerRec, o, all, got, e, base, recs);
      got' := got + [e];
    }
  }

  /** The inner loop: the outer record o is paired with every inner record that matches. */
  method InnerLoop(
      innerScan: HeapFileScan, resultRel: InsertFileScan, outputData: array<byte>, j: Join, outerRec: seq<byte>,
      ghost o: Entry, ghost base: Snapshot, ghost recs: seq<seq<byte>>)
    requires innerScan.Valid() && innerScan.store.Counted() && innerScan.rest == innerScan.store.Records()
    requires Solid(innerScan.rest)
    requires FitsInner(j, o, innerScan.rest) && outerRec == o.bytes
    requires resultRel.Valid() && innerScan.store != resultRel.store && Filled(resultRel.store, base, recs)
    requires outputData.Length == Width(j.projNames) <= MAX_RECORD
    modifies innerScan, innerScan.store`pins, innerScan.store`unsaved, outputData, resultRel, resultRel.store
    ensures innerScan.Valid() && resultRel.Valid() && innerScan.Conserved() && resultRel.Conserved()
    ensures Filled(resultRel.store, base, recs + Map(Pairing(j, o.bytes), old(SelectQuery.Wanted(innerScan))))
  {
    ghost var all, got: seq<Entry> := innerScan.store.Records(), [];
    SweptStart(innerScan.filter, SelectQuery.Never, all);
    assert recs + [] == recs;
    var next := OK;
    while next == OK
      invariant innerScan.Conserved() && resultRel.Conserved() && innerScan.filter == old(innerScan.filter)
      invariant Joining(innerScan, resultRel, j, o, all, got, base, recs)
      invariant next == OK || innerScan.rest == []
      decreases |innerScan.rest|, next == OK
    {
      next, got := InnerNext(innerScan, resultRel, outputData, j, outerRec, o, all, got, base, recs);
    }
    SweptAll(innerScan.filter, SelectQuery.Never, all, innerScan.store.Records(), got);
  }

  method InnerLoopAndClose(
      innerScan: HeapFileScan, resultRel: InsertFileScan, outputData: array<byte>, j: Join, outerRec: seq<byte>,
      ghost o: Entry, ghost base: Snapshot, ghost recs: seq<seq<byte>>)
    requires innerScan.Valid() && innerScan.store.Counted() && innerScan.rest == innerScan.store.Records()
    requires Solid(innerScan.rest)
    requires FitsInner(j, o, innerScan.rest) && outerRec == o.bytes
    requires resultRel.Valid() && innerScan.store != resultRel.store && Filled(resultRel.store, base, recs)
    requires outputData.Length == Width(j.projNames) <= MAX_RECORD
    modifies innerScan, innerScan.store`pins, innerScan.store`unsaved, outputData, resultRel, resultRel.store
    ensures innerScan.store.Valid() && resultRel.Valid() && resultRel.Conserved()
    ensures Filled(resultRel.store, base, recs + Map(Pairing(j, o.bytes), old(SelectQuery.Wanted(innerScan))))
    ensures forall m :: innerScan.store.pins[m] == old(innerScan.OtherPins(m))
    ensures forall m :: m in innerScan.store.unsaved ==> old(innerScan.LeftDirty(m))
  {
    InnerLoop(innerScan, resultRel, outputData, j, outerRec, o, base, recs);
    label Looped:
    var status := innerScan.Destroy();
    forall m ensures innerScan.store.pins[m] == old(innerScan.OtherPins(m))
                  && (m in innerScan.store.unsaved ==> old(innerScan.LeftDirty(m))) {
      assert old@Looped(innerScan.OtherPins(m)) == old(innerScan.OtherPins(m));
      assert old@Looped(innerScan.LeftDirty(m)) ==> old(innerScan.LeftDirty(m));
    }
  }

  /** A scan of the inner relation is opened for one outer record and closed again. */
  method ScanInner(
      inner: HeapStore, resultRel: InsertFileScan, outputData: array<byte>, j: Join, outerRec: seq<byte>,
      ghost o: Entry, ghost base: Snapshot, ghost recs: seq<seq<byte>>)
    requires outerRec == o.bytes && j.Filtering()
    requires inner.Valid() && inner.Counted() && Solid(inner.Records()) && FitsInner(j, o, inner.Records())
    requires resultRel.Valid() && inner != resultRel.store && Filled(resultRel.store, base, recs)
    requires outputData.Length == Width(j.projNames) <= MAX_RECORD
    modifies inner`pins, inner`unsaved, outputData, resultRel, resultRel.store
    ensures resultRel.Valid() && resultRel.Conserved() && inner.Valid()
    ensures forall m :: inner.pins[m] == old(inner.pins)[m]
    ensures forall m :: m in inner.unsaved ==> m in old(inner.unsaved)
    ensures Filled(resultRel.store, base, recs + Map(Pairing(j, o.bytes), Partners(j, o, old(inner.Records()))))
  {
    var innerScan := new HeapFileScan(inner);
    var status := innerScan.StartScan(j.attr2.attrOffset, j.attr2.attrLen, j.attr2.attrType,
                                      outerRec[j.attr1.attrOffset..], Flip(j.op));
    label Opened:
    InnerLoopAndClose(innerScan, resultRel, outputData, j, outerRec, o, base, recs);
    forall m ensures inner.pins[m] == old(inner.pins)[m] {
      assert old@Opened(innerScan.OtherPins(m)) == old(inner.pins)[m];
    }
    forall m | m in inner.unsaved ensures m in old(inner.unsaved) {
      assert old@Opened(innerScan.LeftDirty(m)) ==> m in old(inner.unsaved);
    }
  }

  // ---- The outer scan ----

  ghost predicate Ready(inner: HeapStore, all: seq<Entry>)
    reads inner
  {
    inner.Valid() && inner.Counted() && inner.Records() == all && Solid(all)
  }

  ghost predicate JoiningOuter(
      outerScan: HeapFileScan, inner: HeapStore, resultRel: InsertFileScan, j: Join,
      all: seq<Entry>, innerAll: seq<Entry>, got: seq<Entry>, base: Snapshot)
    reads outerScan, outerScan.store, inner, resultRel, resultRel.store
  {
    && Sweeping(outerScan, SelectQuery.Never, all, got) && FitsAll(j, all, innerAll) && Ready(inner, innerAll)
    && resultRel.Valid() && inner != resultRel.store && outerScan.store != resultRel.store
    && Filled(resultRel.store, base, JoinRecs(j, got, innerAll))
  }

  /** The inner relation is scanned for the record the outer scan stands on.  The two relations may be the same:
      the outer scan keeps its place, its record and its pins. */
  method ScanBeside(
      outerScan: HeapFileScan, inner: HeapStore, resultRel: InsertFileScan, outputData: array<byte>, j: Join,
      ghost o: Entry, ghost base: Snapshot, ghost recs: seq<seq<byte>>)
    requires outerScan.Valid() && outerScan.IsOn(o) && o.bytes != [] && outerScan.store != resultRel.store
    requires inner.Valid() && inner.Counted() && Solid(inner.Records()) && FitsInner(j, o, inner.Records())
    requires resultRel.Valid() && inner != resultRel.store && Filled(resultRel.store, base, recs)
    requires j.Filtering() && outputData.Length == Width(j.projNames) <= MAX_RECORD
    modifies inner`pins, inner`unsaved, outputData, resultRel, resultRel.store
    ensures outerScan.Conserved() && resultRel.Conserved()
    ensures outerScan.Valid() && resultRel.Valid() && inner.Valid()
    ensures forall m :: inner.pins[m] == old(inner.pins)[m]
    ensures Filled(resultRel.store, base, recs + Map(Pairing(j, o.bytes), Partners(j, o, old(inner.Records()))))
  {
    var status, outerRec := outerScan.GetRecord(o);
    ScanInner(inner, resultRel, outputData, j, outerRec, o, base, recs);
    forall n {:trigger outerScan.LeftDirty(n)} | outerScan.LeftDirty(n) ensures old(outerScan.LeftDirty(n)) {}
  }

  /** One outer record. */
  method OuterHere(
      outerScan: HeapFileScan, inner: HeapStore, resultRel: InsertFileScan, outputData: array<byte>, j: Join,
      ghost o: Entry, ghost all: seq<Entry>, ghost innerAll: seq<Entry>, ghost got: seq<Entry>, ghost base: Snapshot)
    requires Arrived(outerScan, SelectQuery.Never, all, got, o) && FitsAll(j, all, innerAll) && Ready(inner, innerAll)
    requires resultRel.Valid() && inner != resultRel.store && outerScan.store != resultRel.store
    requires Filled(resultRel.store, base, JoinRecs(j, got, innerAll))
    requires j.Filtering() && outputData.Length == Width(j.projNames) <= MAX_RECORD
    modifies inner`pins, inner`unsaved, outputData, resultRel, resultRel.store
    ensures outerScan.Conserved() && resultRel.Conserved()
    ensures JoiningOuter(outerScan, inner, resultRel, j, all, innerAll, got + [o], base)
    ensures forall m :: inner.pins[m] == old(inner.pins)[m]
  {
    SweptIn(outerScan.filter, SelectQuery.Never, all, outerScan.store.Records(), got, o, outerScan.rest);
    assert FitsInner(j, o, innerAll);
    SweptKeep(outerScan.filter, SelectQuery.Never, all, outerScan.store.Records(), got, o, outerScan.rest);
    JoinRecsOne(j, got, o, innerAll);
    ScanBeside(outerScan, inner, resultRel, outputData, j, o, base, JoinRecs(j, got, innerAll));
  }

  method OuterNext(
      outerScan: HeapFileScan, inner: HeapStore, resultRel: InsertFileScan, outputData: array<byte>, j: Join,
      ghost all: seq<Entry>, ghost innerAll: seq<Entry>, ghost got: seq<Entry>, ghost base: Snapshot)
    returns (next: Status, ghost got': seq<Entry>)
    requires JoiningOuter(outerScan, inner, resultRel, j, all, innerAll, got, base)
    requires j.Filtering() && outputData.Length == Width(j.projNames) <= MAX_RECORD
    modifies outerScan, outerScan.store`pins, outerScan.store`unsaved, inner`pins, inner`unsaved
    modifies outputData, resultRel, resultRel.store
    ensures JoiningOuter(outerScan, inner, resultRel, j, all, innerAll, got', base)
    ensures outerScan.Conserved() && resultRel.Conserved() && outerScan.filter == old(outerScan.filter)
    ensures inner != outerScan.store ==> forall m :: inner.pins[m] == old(inner.pins)[m]
    ensures if next == OK then |outerScan.rest| < |old(outerScan.rest)| else outerScan.rest == []
  {
    var rid;
    ghost var o;
    next, rid, o := NextMatch(outerScan, SelectQuery.Never, all, got);
    got' := got;
    if next == OK {
      OuterHere(outerScan, inner, resultRel, outputData, j, o, all, innerAll, got, base);
      got' := got + [o];
    }
  }

  method OuterLoop(
      outerScan: HeapFileScan, inner: HeapStore, resultRel: InsertFileScan, outputData: array<byte>, j: Join,
      ghost innerAll: seq<Entry>)
    requires outerScan.Valid() && outerScan.store.Counted() && outerScan.rest == outerScan.store.Records()
    requires outerScan.filter == NoFilter && Solid(outerScan.rest) && FitsAll(j, outerScan.rest, innerAll)
    requires Ready(inner, innerAll) && resultRel.Valid() && resultRel.store.chain != []
    requires inner != resultRel.store && outerScan.store != resultRel.store
    requires j.Filtering() && outputData.Length == Width(j.projNames) <= MAX_RECORD
    modifies outerScan, outerScan.store`pins, outerScan.store`unsaved, inner`pins, inner`unsaved
    modifies outputData, resultRel, resultRel.store
    ensures outerScan.Valid() && resultRel.Valid() && inner.Valid() && outerScan.Conserved() && resultRel.Conserved()
    ensures inner != outerScan.store ==> forall m :: inner.pins[m] == old(inner.pins)[m]
    ensures Filled(resultRel.store, old(resultRel.store.Now()), JoinRecs(j, old(outerScan.store.Records()), innerAll))
  {
    ghost var all, base := outerScan.store.Records(), resultRel.store.Now();
    ghost var got: seq<Entry> := [];
    SweptStart(outerScan.filter, SelectQuery.Never, all);
    FilledStart(resultRel.store);
    var next := OK;
    while next == OK
      invariant outerScan.Conserved() && resultRel.Conserved() && outerScan.filter == NoFilter
      invariant JoiningOuter(outerScan, inner, resultRel, j, all, innerAll, got, base)
      invariant inner != outerScan.store ==> forall m :: inner.pins[m] == old(inner.pins)[m]
      invariant next == OK || outerScan.rest == []
      decreases |outerScan.rest|, next == OK
    {
      next, got := OuterNext(outerScan, inner, resultRel, outputData, j, all, innerAll, got, base);
    }
    SweptAll(NoFilter, SelectQuery.Never, all, outerScan.store.Records(), got);
    Unfiltered(all);
  }

  lemma {:induction false} Unfiltered(es: seq<Entry>)
    ensures Pick(Matches(NoFilter), es) == es
  {
    forall e | e in es ensures Matches(NoFilter)(e) {}
    PickAll(Matches(NoFilter), es);
  }

  /** The outer scan, from its first record until it is closed. */
  method JoinAndClose(
      outerScan: HeapFileScan, inner: HeapStore, resultRel: InsertFileScan, outputData: array<byte>, j: Join,
      ghost innerAll: seq<Entry>)
    requires outerScan.Valid() && outerScan.store.Counted() && outerScan.rest == outerScan.store.Records()
    requires outerScan.filter == NoFilter && Solid(outerScan.rest) && FitsAll(j, outerScan.rest, innerAll)
    requires Ready(inner, innerAll) && resultRel.Valid() && resultRel.store.chain != []
    requires inner != resultRel.store && outerScan.store != resultRel.store
    requires j.Filtering() && outputData.Length == Width(j.projNames) <= MAX_RECORD
    modifies outerScan, outerScan.store`pins, outerScan.store`unsaved, inner`pins, inner`unsaved
    modifies outputData, resultRel, resultRel.store
    ensures outerScan.store.Valid() && resultRel.Valid() && inner.Valid() && resultRel.Conserved()
    ensures forall m :: outerScan.store.pins[m] == old(outerScan.OtherPins(m))
    ensures inner != outerScan.store ==> forall m :: inner.pins[m] == old(inner.pins)[m]
    ensures Filled(resultRel.store, old(resultRel.store.Now()), JoinRecs(j, old(outerScan.store.Records()), innerAll))
  {
    OuterLoop(outerScan, inner, resultRel, outputData, j, innerAll);
    label Looped:
    var status := outerScan.Destroy();
    forall m ensures outerScan.store.pins[m] == old(outerScan.OtherPins(m)) {
      assert old@Looped(outerScan.OtherPins(m)) == old(outerScan.OtherPins(m));
    }
  }

  /** The join into a result relation that is open. */
  method JoinInto(resultRel: InsertFileScan, outer: HeapStore, inner: HeapStore, j: Join) returns (status: Status)
    requires outer.Valid() && outer.Counted() && Solid(outer.Records())
    requires inner.Valid() && inner.Counted() && Solid(inner.Records())
    requires resultRel.Valid() && resultRel.store.chain != [] && resultRel.store != outer && resultRel.store != inner
    requires j.Filtering() && 0 <= Width(j.projNames) <= MAX_RECORD
    requires FitsAll(j, outer.Records(), inner.Records())
    modifies outer`pins, outer`unsaved, inner`pins, inner`unsaved, resultRel, resultRel.store
    ensures outer.Valid() && inner.Valid() && resultRel.Valid() && resultRel.Conserved() && status == OK
    ensures Filled(resultRel.store, old(resultRel.store.Now()), JoinRecs(j, old(outer.Records()), old(inner.Records())))
    ensures forall m :: outer.pins[m] == old(outer.pins)[m] && inner.pins[m] == old(inner.pins)[m]
  {
    var outputData := new byte[Width(j.projNames)];
    var outerScan := new HeapFileScan(outer);
    status := outerScan.StartUnfiltered();
    JoinAndClose(outerScan, inner, resultRel, outputData, j, inner.Records());
  }

  /** Opens the result, joins, and closes it. */
  method JoinAll(result: HeapStore, outer: HeapStore, inner: HeapStore, j: Join)
    requires outer.Valid() && outer.Counted() && Solid(outer.Records())
    requires inner.Valid() && inner.Counted() && Solid(inner.Records())
    requires result.Valid() && result != outer && result != inner
    requires Joinable(j, outer.Records(), inner.Records())
    modifies outer`pins, outer`unsaved, inner`pins, inner`unsaved, result
    ensures outer.Valid() && inner.Valid() && result.Valid()
    ensures Filled(result, old(result.Now()), JoinRecs(j, old(outer.Records()), old(inner.Records())))
    ensures forall m :: outer.pins[m] == old(outer.pins)[m] && inner.pins[m] == old(inner.pins)[m]
                     && result.pins[m] == old(result.pins)[m]
  {
    var resultRel := new InsertFileScan(result);
    label Opened:
    var status := JoinInto(resultRel, outer, inner, j);
    label Joined:
    resultRel.Destroy();
    forall m ensures result.pins[m] == old(result.pins)[m] {
      assert old@Joined(resultRel.OtherPins(m)) == old@Opened(resultRel.OtherPins(m));
    }
  }

  // ---- The attributes in the catalog ----

  datatype AttrName = AttrName(relName: seq<byte>, attrName: seq<byte>)

  predicate AllNames(names: seq<AttrName>) { forall a | a in names :: NoNul(a.relName) }

  /** What getInfo answers. */
  ghost function InfoStatus(cat: seq<Entry>, a: AttrName): Status {
    if a.relName == [] || a.attrName == [] then BADCATPARM
    else if First(OfAttr(a.relName, a.attrName), cat) < |cat| then OK
    else ATTRNOTFOUND
  }

  ghost function InfoOf(cat: seq<Entry>, a: AttrName): AttrDesc {
    var k := First(OfAttr(a.relName, a.attrName), cat);
    if k < |cat| then DescOf(cat[k]) else AttrDesc([], [], 0, STRING, 0)
  }

  /** The answer for the first of the attributes that the catalog does not have, or OK. */
  ghost function LookStatus(cat: seq<Entry>, names: seq<AttrName>): Status {
    if names == [] then OK
    else if InfoStatus(cat, names[0]) != OK then InfoStatus(cat, names[0])
    else LookStatus(cat, names[1..])
  }

  ghost function InfosOf(cat: seq<Entry>, names: seq<AttrName>): (descs: seq<AttrDesc>)
    ensures |descs| == |names| && forall i | 0 <= i < |names| :: descs[i] == InfoOf(cat, names[i])
  {
    seq(|names|, i requires 0 <= i < |names| => InfoOf(cat, names[i]))
  }

  lemma {:induction false} LookOne(cat: seq<Entry>, names: seq<AttrName>, i: nat)
    requires i < |names|
    ensures var one := InfoStatus(cat, names[i]);
      LookStatus(cat, names[i..]) == if one != OK then one else LookStatus(cat, names[i + 1..])
    ensures InfosOf(cat, names[..i + 1]) == InfosOf(cat, names[..i]) + [InfoOf(cat, names[i])]
  {
    assert names[i..][0] == names[i] && names[i..][1..] == names[i + 1..];
  }

  /** Looks the attributes up one after the other, until one is not found. */
  method LookUp(attrCat: HeapStore, names: seq<AttrName>) returns (status: Status, descs: seq<AttrDesc>)
    requires attrCat.Valid() && attrCat.Counted() && IsCatalog(attrCat.Records()) && AllNames(names)
    modifies attrCat`pins, attrCat`unsaved
    ensures attrCat.Valid() && forall n :: attrCat.pins[n] == old(attrCat.pins)[n]
    ensures status == LookStatus(old(attrCat.Records()), names)
    ensures status == OK ==> descs == InfosOf(old(attrCat.Records()), names)
  {
    ghost var cat := attrCat.Records();
    descs := [];
    for i := 0 to |names|
      invariant attrCat.Valid() && attrCat.Records() == cat && forall n :: attrCat.pins[n] == old(attrCat.pins)[n]
      invariant LookStatus(cat, names) == LookStatus(cat, names[i..]) && descs == InfosOf(cat, names[..i])
    {
      LookOne(cat, names, i);
      var attrDesc;
      status, attrDesc := GetInfo(attrCat, names[i].relName, names[i].attrName);
      if status != OK {
        return;
      }
      descs := descs + [attrDesc];
    }
    assert names[..|names|] == names;
    status := OK;
  }

  /** Looking up succeeds exactly if the catalog has an entry with both names, and gives the first one. */
  lemma {:induction false} InfoMeans(cat: seq<Entry>, a: AttrName)
    requires IsCatalog(cat)
    ensures InfoStatus(cat, a) == OK <==>
      && a.relName != [] && a.attrName != []
      && exists e :: e in cat && DescOf(e).relName == a.relName && DescOf(e).attrName == a.attrName
    ensures InfoStatus(cat, a) == OK ==>
      exists k :: 0 <= k < |cat| && InfoOf(cat, a) == DescOf(cat[k])
               && DescOf(cat[k]).relName == a.relName && DescOf(cat[k]).attrName == a.attrName
               && forall i | 0 <= i < k :: DescOf(cat[i]).relName != a.relName || DescOf(cat[i]).attrName != a.attrName
  {
    FirstAttr(cat, a.relName, a.attrName);
    var k := First(OfAttr(a.relName, a.attrName), cat);
    if e :| e in cat && DescOf(e).relName == a.relName && DescOf(e).attrName == a.attrName {
      var i :| 0 <= i < |cat| && cat[i] == e;
      assert k <= i;
    }
    assert k < |cat| ==> cat[k] in cat;
  }

  lemma {:induction false} LookMeans(cat: seq<Entry>, names: seq<AttrName>)
    ensures LookStatus(cat, names) == OK <==> forall a | a in names :: InfoStatus(cat, a) == OK
  {
    if names != [] {
      LookMeans(cat, names[1..]);
      assert forall a :: a in names <==> a == names[0] || a in names[1..];
    }
  }

  /** What the code needs of the attributes it finds: the projection fits a page, and the records are long enough. */
  ghost predicate Joinable(j: Join, outer: seq<Entry>, inner: seq<Entry>) {
    j.Filtering() && 0 <= Width(j.projNames) <= MAX_RECORD && FitsAll(j, outer, inner)
  }

  /** Joins two relations, which may be the same one, and may be the attribute catalog.  The result, a relation of
      its own, gets a record for every pair that matches, in outer-major order; the joined files are unchanged, and
      every pin is given back.  It is refused if and only if the caller's types or lengths differ, whatever the
      catalog says of the attributes, or the catalog does not have one of them. */
  method QuNlJoin(
      result: HeapStore, outer: HeapStore, inner: HeapStore, attrCat: HeapStore, projNames: seq<AttrName>,
      a1: AttrName, spec1: AttrSpec, op: Operator, a2: AttrName, spec2: AttrSpec)
    returns (status: Status)
    requires outer.Valid() && outer.Counted() && Solid(outer.Records())
    requires inner.Valid() && inner.Counted() && Solid(inner.Records())
    requires attrCat.Valid() && attrCat.Counted() && IsCatalog(attrCat.Records()) && AllNames(projNames + [a1, a2])
    requires result.Valid() && result != outer && result != inner && result != attrCat
    requires LookStatus(attrCat.Records(), projNames + [a1, a2]) == OK ==>
      var cat := attrCat.Records();
      Joinable(Join(InfosOf(cat, projNames), InfoOf(cat, a1), op, InfoOf(cat, a2)), outer.Records(), inner.Records())
    modifies outer`pins, outer`unsaved, inner`pins, inner`unsaved, attrCat`pins, attrCat`unsaved, result
    ensures outer.Valid() && inner.Valid() && attrCat.Valid() && result.Valid()
    ensures status == if spec1 != spec2 then ATTRTYPEMISMATCH
                      else LookStatus(old(attrCat.Records()), projNames + [a1, a2])
    ensures if status == OK then
              var cat := old(attrCat.Records());
              var j := Join(InfosOf(cat, projNames), InfoOf(cat, a1), op, InfoOf(cat, a2));
              Filled(result, old(result.Now()), JoinRecs(j, old(outer.Records()), old(inner.Records())))
            else result.Records() == old(result.Records())
    ensures forall m :: outer.pins[m] == old(outer.pins)[m] && inner.pins[m] == old(inner.pins)[m]
                     && result.pins[m] == old(result.pins)[m] && attrCat.pins[m] == old(attrCat.pins)[m]
  {
    if spec1.attrType != spec2.attrType || spec1.attrLen != spec2.attrLen {
      return ATTRTYPEMISMATCH;
    }
    var descs;
    status, descs := LookUp(attrCat, projNames + [a1, a2]);
    if status == OK {
      var n := |projNames|;
      var j := Join(descs[..n], descs[n], op, descs[n + 1]);
      assert descs[..n] == InfosOf(old(attrCat.Records()), projNames);
      JoinAll(result, outer, inner, j);
    }
  }

  // ---- What the join means ----

  predicate Attributed(j: Join, o: Entry, i: Entry) {
    j.Filtering() && Within(o.bytes, j.Seen()) && Within(i.bytes, j.attr2)
  }

  /** o.attr1 op i.attr2, in the order of the type of attr2. */
  predicate Related(j: Join, o: Entry, i: Entry) {
    && Attributed(j, o, i)
    && Compare(j.op, Order(j.attr2.attrType, Field(o.bytes, j.Seen()), Field(i.bytes, j.attr2), j.attr2.attrLen))
  }

  /** The comparison of the attributes is right: neither an order of ints too far apart nor whether an infinity
      is equal to itself is asked for. */
  predicate Sound(j: Join, o: Entry, i: Entry)
    requires Attributed(j, o, i)
  {
    Comparison(Flip(j.op), j.attr2.attrType, Field(i.bytes, j.attr2), Field(o.bytes, j.Seen()))
  }

  /** The inner scan with its flipped operator and its value in the outer record finds o's partners, by the bytes
      of o.attr1 taken for a value of the type of attr2, exactly if the comparison is right. */
  lemma {:induction false} PartnerSeen(j: Join, o: Entry, i: Entry)
    requires Attributed(j, o, i)
    ensures MatchRec(j.InnerFilter(o.bytes), i.bytes) == Related(j, o, i) <==> Sound(j, o, i)
  {
    var typ, n := j.attr2.attrType, j.attr2.attrLen;
    var value, a, b := o.bytes[j.attr1.attrOffset..], Field(o.bytes, j.Seen()), Field(i.bytes, j.attr2);
    assert value[..n] == a;
    OrderPrefix(typ, b, value, n);
    CompareMeaning(Flip(j.op), typ, b, value, n);
    FlipMeaning(j.op, typ, a, b, n);
  }

  /** That is a comparison of the two attributes if the catalog has them with one type and length. */
  lemma {:induction false} PartnerMeaning(j: Join, o: Entry, i: Entry)
    requires j.Comparable() && Attributed(j, o, i)
    ensures var typ, a, b := j.attr1.attrType, Field(o.bytes, j.attr1), Field(i.bytes, j.attr2);
      && Enough(typ, a) && Enough(typ, b)
      && (MatchRec(j.InnerFilter(o.bytes), i.bytes) == Compare(j.op, Order(typ, a, b, j.attr1.attrLen))
          <==> Comparison(Flip(j.op), typ, b, a))
  {
    assert j.Seen() == j.attr1;
    PartnerSeen(j, o, i);
  }

  /** An int 65 is joined with the string "A", for no attribute is compared with the other's type. */
  lemma {:induction false} MixedTypes(name: seq<byte>)
    ensures var a, b := AttrDesc([], name, 0, INTEGER, 4), AttrDesc([1], name, 0, STRING, 2);
      var j, o, i := Join([], a, EQ, b), Entry(NULLRID, IntBytes(65)), Entry(NULLRID, [65, 0]);
      !j.Comparable() && Partners(j, o, [i]) == [i]
  {
    var a, b := AttrDesc([], name, 0, INTEGER, 4), AttrDesc([1], name, 0, STRING, 2);
    var j, o, i := Join([], a, EQ, b), Entry(NULLRID, IntBytes(65)), Entry(NULLRID, [65, 0]);
    PartnerSeen(j, o, i);
    var x, y := Field(o.bytes, j.Seen()), Field(i.bytes, b);
    assert x == [65, 0] && y == [65, 0];
    LexZero(CString(x, 2), CString(y, 2));
    assert Sound(j, o, i) && Related(j, o, i);
    assert Pick(Matches(j.InnerFilter(o.bytes)), [i]) == [i] by {
      PickOne(Matches(j.InnerFilter(o.bytes)), [], i);
    }
  }

  function RelatedTo(j: Join, o: Entry): Entry -> bool {
    (i: Entry) => Related(j, o, i)
  }

  /** Every comparison o takes part in is right. */
  ghost predicate SoundFor(j: Join, o: Entry, inner: seq<Entry>) {
    && j.Filtering() && Within(o.bytes, j.Seen())
    && forall i {:trigger Attributed(j, o, i)} | i in inner :: Attributed(j, o, i) && Sound(j, o, i)
  }

  lemma {:induction false} PartnersRelated(j: Join, o: Entry, inner: seq<Entry>)
    requires SoundFor(j, o, inner)
    ensures Partners(j, o, inner) == Pick(RelatedTo(j, o), inner)
  {
    forall i | i in inner ensures Matches(j.InnerFilter(o.bytes))(i) == RelatedTo(j, o)(i) {
      assert Attributed(j, o, i);
      PartnerSeen(j, o, i);
    }
    PickSame(Matches(j.InnerFilter(o.bytes)), RelatedTo(j, o), inner);
  }

  /** The projections of the pairs (o, i) with o.attr1 op i.attr2. */
  function Pairs(j: Join, outer: seq<Entry>, inner: seq<Entry>): seq<seq<byte>> {
    if outer == [] then []
    else
      var o := outer[|outer| - 1];
      Pairs(j, outer[..|outer| - 1], inner) + Map(Pairing(j, o.bytes), Pick(RelatedTo(j, o), inner))
  }

  /** The join produces exactly the pairs whose attributes are related, in outer-major order. */
  lemma {:induction false} JoinExact(j: Join, outer: seq<Entry>, inner: seq<Entry>)
    requires forall o {:trigger SoundFor(j, o, inner)} | o in outer :: SoundFor(j, o, inner)
    ensures JoinRecs(j, outer, inner) == Pairs(j, outer, inner)
  {
    if outer != [] {
      var o := outer[|outer| - 1];
      assert SoundFor(j, o, inner);
      PartnersRelated(j, o, inner);
      forall p {:trigger SoundFor(j, p, inner)} | p in outer[..|outer| - 1] ensures SoundFor(j, p, inner) {
        assert p in outer && SoundFor(j, p, inner);
      }
      JoinExact(j, outer[..|outer| - 1], inner);
    }
  }

  // ---- What the join appends ----

  /** From w on r has the bytes of attribute a in the record `from`. */
  predicate Copied(r: seq<byte>, w: int, from: seq<byte>, a: AttrDesc) {
    && 0 <= w && 0 <= a.attrLen && w + a.attrLen <= |r| && 0 <= a.attrOffset && a.attrOffset + a.attrLen <= |from|
    && r[w..w + a.attrLen] == from[a.attrOffset..a.attrOffset + a.attrLen]
  }

  predicate CopiedAt(j: Join, r: seq<byte>, o: seq<byte>, i: seq<byte>, m: nat)
    requires m < |j.projNames|
  {
    Copied(r, Width(j.projNames[..m]), j.Source(o, i, j.projNames[m]), j.projNames[m])
  }

  /** r is the joined record of o and i: each attribute of the projection, in order, from the record it belongs to. */
  ghost predicate IsJoined(j: Join, r: seq<byte>, o: seq<byte>, i: seq<byte>) {
    && |r| == Width(j.projNames)
    && forall m {:trigger CopiedAt(j, r, o, i, m)} | 0 <= m < |j.projNames| :: CopiedAt(j, r, o, i, m)
  }

  lemma {:induction false} PairJoined(j: Join, o: seq<byte>, i: Entry)
    requires j.Fits(o, i.bytes)
    ensures IsJoined(j, Pairing(j, o)(i), o, i.bytes)
  {
    var n := |j.projNames|;
    var r := Joined(j, o, i.bytes, n);
    JoinedWidth(j, o, i.bytes, n);
    assert j.projNames[..n] == j.projNames;
    forall m {:trigger CopiedAt(j, r, o, i.bytes, m)} | 0 <= m < n ensures CopiedAt(j, r, o, i.bytes, m) {
      assert j.SourceWithin(o, i.bytes, j.projNames[m]);
      JoinedField(j, o, i.bytes, n, m);
    }
  }

  predicate Before(s: (int, int), t: (int, int)) { s.0 < t.0 || (s.0 == t.0 && s.1 < t.1) }

  ghost predicate PairAt(j: Join, outer: seq<Entry>, inner: seq<Entry>, r: seq<byte>, at: (int, int)) {
    && 0 <= at.0 < |outer| && 0 <= at.1 < |inner|
    && Within(outer[at.0].bytes, j.Seen()) && j.Filtering()
    && MatchRec(j.InnerFilter(outer[at.0].bytes), inner[at.1].bytes)
    && IsJoined(j, r, outer[at.0].bytes, inner[at.1].bytes)
  }

  /** The records of one outer record. */
  lemma {:induction false} RowRecords(j: Join, outer: seq<Entry>, inner: seq<Entry>, p: nat)
    returns (at: seq<(int, int)>)
    requires j.Filtering() && p < |outer| && FitsInner(j, outer[p], inner)
    ensures var recs := Map(Pairing(j, outer[p].bytes), Partners(j, outer[p], inner));
      && |at| == |recs|
      && forall t {:trigger at[t]} | 0 <= t < |at| :: at[t].0 == p && PairAt(j, outer, inner, recs[t], at[t])
    ensures forall t, u | 0 <= t < u < |at| :: at[t].1 < at[u].1
    ensures forall q | 0 <= q < |inner| && MatchRec(j.InnerFilter(outer[p].bytes), inner[q].bytes) :: (p, q) in at
  {
    var o := outer[p];
    var f := j.InnerFilter(o.bytes);
    var found := Pick(Matches(f), inner);
    var idx := PickIndexes(Matches(f), inner);
    at := seq(|idx|, t requires 0 <= t < |idx| => (p, idx[t]));
    forall t {:trigger at[t]} | 0 <= t < |at|
      ensures PairAt(j, outer, inner, Map(Pairing(j, o.bytes), found)[t], at[t])
    {
      MapIndex(Pairing(j, o.bytes), found, t);
      assert found[t] == inner[idx[t]] && FitsPair(j, o, inner[idx[t]]);
      PairJoined(j, o.bytes, inner[idx[t]]);
    }
    forall q | 0 <= q < |inner| && MatchRec(f, inner[q].bytes) ensures (p, q) in at {
      assert Matches(f)(inner[q]);
      var t :| 0 <= t < |idx| && idx[t] == q;
      assert at[t] == (p, q);
    }
  }

  ghost predicate Rows(j: Join, outer: seq<Entry>, inner: seq<Entry>, recs: seq<seq<byte>>, at: seq<(int, int)>) {
    && |at| == |recs|
    && (forall t {:trigger at[t]} | 0 <= t < |at| :: PairAt(j, outer, inner, recs[t], at[t]))
    && (forall t, u {:trigger at[t], at[u]} | 0 <= t < u < |at| :: Before(at[t], at[u]))
    && (forall p, q {:trigger (p, q) in at} | 0 <= p < |outer| && 0 <= q < |inner| && Within(outer[p].bytes, j.Seen())
          && j.Filtering() && MatchRec(j.InnerFilter(outer[p].bytes), inner[q].bytes) :: (p, q) in at)
  }

  lemma {:induction false} MoreRows(
      j: Join, outer: seq<Entry>, inner: seq<Entry>, front: seq<seq<byte>>, at: seq<(int, int)>, row: seq<seq<byte>>,
      more: seq<(int, int)>)
    requires j.Filtering() && outer != [] && Rows(j, outer[..|outer| - 1], inner, front, at)
    requires Within(outer[|outer| - 1].bytes, j.Seen()) && |more| == |row|
    requires forall t {:trigger more[t]} | 0 <= t < |more| ::
      more[t].0 == |outer| - 1 && PairAt(j, outer, inner, row[t], more[t])
    requires forall t, u | 0 <= t < u < |more| :: more[t].1 < more[u].1
    requires forall q | 0 <= q < |inner| && MatchRec(j.InnerFilter(outer[|outer| - 1].bytes), inner[q].bytes) ::
      (|outer| - 1, q) in more
    ensures Rows(j, outer, inner, front + row, at + more)
  {
    var n := |outer| - 1;
    forall t {:trigger (at + more)[t]} | 0 <= t < |at + more|
      ensures PairAt(j, outer, inner, (front + row)[t], (at + more)[t])
    {
      if t < |at| {
        assert PairAt(j, outer[..n], inner, front[t], at[t]);
      } else {
        assert more[t - |at|] == (at + more)[t];
      }
    }
    forall t, u {:trigger (at + more)[t], (at + more)[u]} | 0 <= t < u < |at + more|
      ensures Before((at + more)[t], (at + more)[u])
    {
      if u < |at| {
        assert Before(at[t], at[u]);
      } else if t < |at| {
        assert PairAt(j, outer[..n], inner, front[t], at[t]) && more[u - |at|].0 == n;
      } else {
        assert more[t - |at|].0 == n && more[u - |at|].0 == n;
      }
    }
    forall p, q {:trigger (p, q) in at + more} | 0 <= p < |outer| && 0 <= q < |inner|
      && Within(outer[p].bytes, j.Seen()) && MatchRec(j.InnerFilter(outer[p].bytes), inner[q].bytes)
      ensures (p, q) in at + more
    {
      if p < n {
        assert outer[..n][p] == outer[p] && (p, q) in at;
      } else {
        assert (n, q) in more;
      }
    }
  }

  /** The pairs of records that the join is made of. */
  lemma {:induction false} RowsOf(j: Join, outer: seq<Entry>, inner: seq<Entry>) returns (at: seq<(int, int)>)
    requires j.Filtering() && FitsAll(j, outer, inner)
    ensures Rows(j, outer, inner, JoinRecs(j, outer, inner), at)
  {
    at := [];
    if outer != [] {
      var n := |outer| - 1;
      forall o {:trigger FitsInner(j, o, inner)} | o in outer[..n] ensures FitsInner(j, o, inner) {
        assert o in outer;
      }
      assert outer[n] in outer && FitsInner(j, outer[n], inner);
      var front := RowsOf(j, outer[..n], inner);
      var row := RowRecords(j, outer, inner, n);
      MoreRows(j, outer, inner, JoinRecs(j, outer[..n], inner), front,
               Map(Pairing(j, outer[n].bytes), Partners(j, outer[n], inner)), row);
      at := front + row;
    }
  }

  /** Record t of what the result relation gets, of the outer record p and the inner record q: it is as wide as the
      projection, and attribute m stands where the lengths before it add up to, with the bytes it has in the outer
      record if it has the relation name of the first join attribute, and else in the inner one. */
  lemma {:induction false} RowRecord(
      j: Join, outer: seq<Entry>, inner: seq<Entry>, recs: seq<seq<byte>>, at: seq<(int, int)>, t: nat, m: nat)
    requires Rows(j, outer, inner, recs, at) && t < |recs|
    ensures |at| == |recs| && 0 <= at[t].0 < |outer| && 0 <= at[t].1 < |inner| && |recs[t]| == Width(j.projNames)
    ensures m < |j.projNames| ==>
      var r, a, w := recs[t], j.projNames[m], Width(j.projNames[..m]);
      var from := if a.relName == j.attr1.relName then outer[at[t].0].bytes else inner[at[t].1].bytes;
      && 0 <= w && 0 <= a.attrLen && w + a.attrLen <= |r| && 0 <= a.attrOffset && a.attrOffset + a.attrLen <= |from|
      && r[w..w + a.attrLen] == from[a.attrOffset..a.attrOffset + a.attrLen]
  {
    assert PairAt(j, outer, inner, recs[t], at[t]);
    if m < |j.projNames| {
      assert CopiedAt(j, recs[t], outer[at[t].0].bytes, inner[at[t].1].bytes, m);
    }
  }

  /** The records are in the order of the outer relation and then of the inner one, with one for each pair whose inner
      record passes the scan's condition, and none for any other. */
  lemma {:induction false} RowPairs(
      j: Join, outer: seq<Entry>, inner: seq<Entry>, recs: seq<seq<byte>>, at: seq<(int, int)>, p: nat, q: nat)
    requires Rows(j, outer, inner, recs, at) && FitsAll(j, outer, inner) && j.Filtering()
    requires p < |outer| && q < |inner|
    ensures forall t, u {:trigger at[t], at[u]} | 0 <= t < u < |at| ::
      at[t].0 < at[u].0 || (at[t].0 == at[u].0 && at[t].1 < at[u].1)
    ensures 0 <= j.attr1.attrOffset && j.attr1.attrOffset + j.attr2.attrLen <= |outer[p].bytes|
    ensures var f := Filter(j.attr2.attrOffset, j.attr2.attrLen, j.attr2.attrType,
                            outer[p].bytes[j.attr1.attrOffset..], Flip(j.op));
      Usable(f) && ((p, q) in at <==> MatchRec(f, inner[q].bytes))
  {
    forall t, u {:trigger at[t], at[u]} | 0 <= t < u < |at|
      ensures at[t].0 < at[u].0 || (at[t].0 == at[u].0 && at[t].1 < at[u].1)
    {
      assert Before(at[t], at[u]);
    }
    assert outer[p] in outer && FitsInner(j, outer[p], inner);
    if t :| 0 <= t < |at| && at[t] == (p, q) {
      assert PairAt(j, outer, inner, recs[t], at[t]);
    }
  }

  // ---- What a joined record holds ----

  /** Attribute m of the projection stands in the joined record where the lengths before it add up to, with the
      value it has in the record of its relation. */
  lemma {:induction false} JoinedField(j: Join, outer: seq<byte>, inner: seq<byte>, k: nat, m: nat)
    requires j.Fits(outer, inner) && m < k <= |j.projNames|
    ensures var a := j.projNames[m];
      StandsAt(Joined(j, outer, inner, k), Width(j.projNames[..m]), Field(j.Source(outer, inner, a), a))
    decreases k
  {
    var r, front, a := Joined(j, outer, inner, k), Joined(j, outer, inner, k - 1), j.projNames[k - 1];
    var s := Field(j.Source(outer, inner, a), a);
    if m < k - 1 {
      var b := j.projNames[m];
      JoinedField(j, outer, inner, k - 1, m);
      StandsStill(r, front, s, Width(j.projNames[..m]), Field(j.Source(outer, inner, b), b));
    } else {
      JoinedWidth(j, outer, inner, k - 1);
      StandsLast(r, front, s, Width(j.projNames[..m]));
    }
  }

  /** The record an attribute belongs to: o is of the relation of attr1, i of that of attr2. */
  predicate RightSource(j: Join, outer: seq<byte>, inner: seq<byte>, a: AttrDesc) {
    && (a.relName == j.attr1.relName ==> j.Source(outer, inner, a) == outer)
    && (a.relName == j.attr2.relName ==> j.Source(outer, inner, a) == inner)
  }

  /** The attributes of a join are taken from the right records if and only if it joins two relations, or a record
      with itself, or has no attribute of the relation it joins with itself. */
  lemma {:induction false} SourcesRight(j: Join, outer: seq<byte>, inner: seq<byte>)
    ensures (forall a {:trigger RightSource(j, outer, inner, a)} | a in j.projNames :: RightSource(j, outer, inner, a))
            <==> j.attr1.relName != j.attr2.relName || outer == inner || forall a | a in j.projNames :: !j.OfOuter(a)
  {
    if j.attr1.relName == j.attr2.relName && outer != inner {
      forall a | a in j.projNames && j.OfOuter(a) ensures !RightSource(j, outer, inner, a) {}
    }
  }

  /** Joining a relation with itself takes every attribute from the outer record. */
  lemma {:induction false} SelfJoin(j: Join, outer: seq<byte>, inner: seq<byte>, k: nat)
    requires k <= |j.projNames| && forall a | a in j.projNames :: j.OfOuter(a)
    ensures Joined(j, outer, inner, k) == Project(outer, j.projNames[..k])
    decreases k
  {
    if k > 0 {
      SelfJoin(j, outer, inner, k - 1);
      var front, a := j.projNames[..k], j.projNames[k - 1];
      assert a in j.projNames && j.OfOuter(a);
      assert front[..k - 1] == j.projNames[..k - 1] && front[k - 1] == a;
      assert Project(outer, front) == Project(outer, front[..k - 1]) + Field(outer, a);
    }
  }
}
