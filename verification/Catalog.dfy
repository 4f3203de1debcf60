/**
  Catalog records: their bytes, and the condition the catalogs are scanned with.
 */
module CatalogRecords {
  import opened Bytes
  import opened Floats
  import opened Filters
  import opened Schema

  const MAXNAME := 32
  const ATTRDESC_SIZE := 76      // sizeof(AttrDesc)
  const RELDESC_SIZE := 36       // sizeof(RelDesc)

  /** The characters of a C string. */
  predicate NoNul(name: seq<byte>) { forall i | 0 <= i < |name| :: name[i] != 0 }

  /** A name that fits with its NUL. */
  predicate IsName(name: seq<byte>) { NoNul(name) && |name| < MAXNAME }

  /** char[MAXNAME], padded with NULs as addInfo does. */
  function NameField(name: seq<byte>): (f: seq<byte>)
    requires |name| < MAXNAME
    ensures |f| == MAXNAME && f[..|name|] == name && f[|name|] == 0
  {
    name + Zeros(MAXNAME - |name|)
  }

  function TypeCode(t: Datatype): int {
    match t case STRING => 0 case INTEGER => 1 case FLOAT => 2
  }

  function TypeOf(v: int): Datatype {
    if v == 0 then STRING else if v == 1 then INTEGER else FLOAT
  }

  predicate Storable(a: AttrDesc) {
    IsName(a.relName) && IsName(a.attrName) && Int32(a.attrOffset) && Int32(a.attrLen)
  }

  function Encode(a: AttrDesc): (b: seq<byte>)
    requires Storable(a)
    ensures |b| == ATTRDESC_SIZE
  {
    NameField(a.relName) + NameField(a.attrName)
    + IntBytes(a.attrOffset) + IntBytes(TypeCode(a.attrType)) + IntBytes(a.attrLen)
  }

  function Decode(b: seq<byte>): AttrDesc
    requires |b| == ATTRDESC_SIZE
  {
    AttrDesc(CString(b[..32], 32), CString(b[32..64], 32), GetInt(b[64..68], 0), TypeOf(GetInt(b[68..72], 0)),
             GetInt(b[72..76], 0))
  }

  /** What a C string reads of a name with a NUL behind it. */
  lemma {:induction false} ReadName(f: seq<byte>, name: seq<byte>, n: nat, i: nat)
    requires NoNul(name) && |name| < |f| && f[..|name|] == name && f[|name|] == 0 && i <= |name|
    ensures CString(f, n, i) == if n <= i then [] else if n <= |name| then name[i..n] else name[i..]
    decreases n - i
  {
    if i < n && i < |name| {
      assert f[i] == name[i];
      ReadName(f, name, n, i + 1);
      assert [name[i]] + name[i + 1..] == name[i..];
      if n <= |name| {
        assert [name[i]] + name[i + 1..n] == name[i..n];
      }
    }
  }

  lemma {:induction false} FieldsOf(x: seq<byte>, y: seq<byte>, u: seq<byte>, v: seq<byte>, w: seq<byte>)
    requires |x| == |y| == MAXNAME && |u| == |v| == |w| == 4
    ensures var b := x + y + u + v + w;
      b[..32] == x && b[32..64] == y && b[64..68] == u && b[68..72] == v && b[72..76] == w
  {}

  lemma {:induction false} DecodeFields(x: seq<byte>, y: seq<byte>, u: seq<byte>, v: seq<byte>, w: seq<byte>)
    requires |x| == |y| == MAXNAME && |u| == |v| == |w| == 4
    ensures Decode(x + y + u + v + w)
         == AttrDesc(CString(x, 32), CString(y, 32), GetInt(u, 0), TypeOf(GetInt(v, 0)), GetInt(w, 0))
  {
    FieldsOf(x, y, u, v, w);
  }

  /** Reading a catalog record gives back what was stored. */
  lemma {:induction false} DecodeEncode(a: AttrDesc)
    requires Storable(a)
    ensures Decode(Encode(a)) == a
  {
    DecodeFields(NameField(a.relName), NameField(a.attrName),
                 IntBytes(a.attrOffset), IntBytes(TypeCode(a.attrType)), IntBytes(a.attrLen));
    ReadName(NameField(a.relName), a.relName, 32, 0);
    ReadName(NameField(a.attrName), a.attrName, 32, 0);
    assert TypeOf(TypeCode(a.attrType)) == a.attrType;
  }

  /** startScan(0, relation.length() + 1, STRING, relation.c_str(), EQ) */
  function NameFilter(relation: seq<byte>): Filter {
    Filter(0, |relation| + 1, STRING, relation + [0], EQ)
  }

  /** The catalogs are scanned for one relation name: a record matches exactly if its name, up to the
      NUL, is that name, and not if it only begins with it. */
  lemma {:induction false} NameMatch(relation: seq<byte>, name: seq<byte>, rec: seq<byte>)
    requires NoNul(relation) && IsName(name) && |rec| > MAXNAME && rec[..MAXNAME] == NameField(name)
    ensures MatchRec(NameFilter(relation), rec) <==> relation == name
  {
    var n := |relation| + 1;
    assert rec[..|name|] == name && rec[|name|] == 0 by {
      assert rec[..|name|] == rec[..MAXNAME][..|name|] && rec[|name|] == rec[..MAXNAME][|name|];
    }
    if n <= |rec| {
      var value := relation + [0];
      ReadName(value, relation, n, 0);
      StrnCmpIsLex(rec[0..n], value, n, 0);
      RoundedSign(StrnCmp(rec[0..n], value, n));
      assert Passes(EQ, STRING, rec[0..n], value, n) == Asked(EQ, STRING, rec[0..n], value, n);
      LexZero(CString(rec[0..n], n), CString(value, n));
      CStringPrefix(rec, n, 0);
      assert rec[0..n] == rec[..n];
      ReadName(rec, name, n, 0);
    }
  }

  /** Each record of the attribute catalog is one that addInfo stored. */
  predicate IsAttrRecord(b: seq<byte>) {
    |b| == ATTRDESC_SIZE && Storable(Decode(b)) && Encode(Decode(b)) == b
  }

  lemma {:induction false} AttrRecordMatch(relation: seq<byte>, b: seq<byte>)
    requires NoNul(relation) && IsAttrRecord(b)
    ensures MatchRec(NameFilter(relation), b) <==> Decode(b).relName == relation
  {
    var a := Decode(b);
    FieldsOf(NameField(a.relName), NameField(a.attrName),
             IntBytes(a.attrOffset), IntBytes(TypeCode(a.attrType)), IntBytes(a.attrLen));
    NameMatch(relation, a.relName, b);
  }

  /** Where AttrDesc has its members. */
  lemma {:induction false} EncodeLayout(a: AttrDesc)
    requires Storable(a)
    ensures var b := Encode(a);
      && |b| == 76 && CString(b[..32], 32) == a.relName && CString(b[32..64], 32) == a.attrName
      && GetInt(b[64..68], 0) == a.attrOffset && GetInt(b[72..76], 0) == a.attrLen
      && GetInt(b[68..72], 0) == match a.attrType case STRING => 0 case INTEGER => 1 case FLOAT => 2
  {
    var x, y := NameField(a.relName), NameField(a.attrName);
    FieldsOf(x, y, IntBytes(a.attrOffset), IntBytes(TypeCode(a.attrType)), IntBytes(a.attrLen));
    ReadName(x, a.relName, 32, 0);
    ReadName(y, a.attrName, 32, 0);
  }

  lemma {:induction false} EncodedIsRecord(a: AttrDesc)
    requires Storable(a)
    ensures IsAttrRecord(Encode(a))
  {
    DecodeEncode(a);
  }

  /** A record of the relation catalog. */
  function EncodeRel(relName: seq<byte>, attrCnt: int): (b: seq<byte>)
    requires IsName(relName) && Int32(attrCnt)
    ensures |b| == RELDESC_SIZE && b[..MAXNAME] == NameField(relName)
  {
    NameField(relName) + IntBytes(attrCnt)
  }

  predicate IsRelRecord(b: seq<byte>) {
    && |b| == RELDESC_SIZE && IsName(CString(b[..MAXNAME], MAXNAME))
    && b[..MAXNAME] == NameField(CString(b[..MAXNAME], MAXNAME))
  }

  lemma {:induction false} RelRecordMatch(relation: seq<byte>, b: seq<byte>)
    requires NoNul(relation) && IsRelRecord(b)
    ensures MatchRec(NameFilter(relation), b) <==> CString(b[..MAXNAME], MAXNAME) == relation
  {
    NameMatch(relation, CString(b[..MAXNAME], MAXNAME), b);
  }
}

/**
  The operations of the attribute catalog (catalog.C) on the heap file it is kept in.
 */
module AttrCatalog {
  import opened Bytes
  import opened Errors
  import opened Sequences
  import opened HeapSpec
  import opened HeapStores
  import opened HeapScans
  import opened HeapInserts
  import opened Filters
  import opened Schema
  import opened ScanRuns
  import opened CatalogRecords
  import SelectQuery

  predicate AttrEntry(e: Entry) { IsAttrRecord(e.bytes) }

  /** The heap file is an attribute catalog. */
  ghost predicate IsCatalog(es: seq<Entry>) {
    forall e {:trigger AttrEntry(e)} | e in es :: AttrEntry(e)
  }

  lemma {:induction false} CatalogSolid(es: seq<Entry>)
    requires IsCatalog(es)
    ensures Solid(es)
  {
    forall e {:trigger Legible(e)} | e in es ensures Legible(e) {
      assert AttrEntry(e);
    }
  }

  function DescOf(e: Entry): AttrDesc {
    if |e.bytes| == ATTRDESC_SIZE then Decode(e.bytes) else AttrDesc([], [], 0, STRING, 0)
  }

  function OfRelation(relation: seq<byte>): Entry -> bool {
    (e: Entry) => DescOf(e).relName == relation
  }

  /** The entry of one attribute of one relation. */
  function OfAttr(relation: seq<byte>, attrName: seq<byte>): Entry -> bool {
    (e: Entry) => DescOf(e).relName == relation && DescOf(e).attrName == attrName
  }

  /** What the scans of the catalog match are the entries of the relation. */
  lemma {:induction false} MatchesRelation(relation: seq<byte>, es: seq<Entry>)
    requires NoNul(relation) && IsCatalog(es)
    ensures Pick(Matches(NameFilter(relation)), es) == Pick(OfRelation(relation), es)
  {
    forall e | e in es ensures Matches(NameFilter(relation))(e) == OfRelation(relation)(e) {
      assert AttrEntry(e);
      AttrRecordMatch(relation, e.bytes);
    }
    PickSame(Matches(NameFilter(relation)), OfRelation(relation), es);
  }

  /** Adds an entry. */
  method AddInfo(attrCat: HeapStore, record: AttrDesc, ghost base: Snapshot, ghost recs: seq<seq<byte>>)
    returns (status: Status)
    requires attrCat.Valid() && Filled(attrCat, base, recs) && Storable(record)
    modifies attrCat
    ensures attrCat.Valid() && status == OK && Filled(attrCat, base, recs + [Encode(record)])
    ensures forall n :: attrCat.pins[n] == old(attrCat.pins)[n]
  {
    status := AddRecord(attrCat, Encode(record), base, recs);
  }

  /** The entry First finds is one of the attribute, and no entry before it is; a descriptor is what its record
      was made of. */
  lemma {:induction false} FirstAttr(es: seq<Entry>, relation: seq<byte>, attrName: seq<byte>)
    requires IsCatalog(es)
    ensures var k := First(OfAttr(relation, attrName), es);
      && (forall i | 0 <= i < k :: !(DescOf(es[i]).relName == relation && DescOf(es[i]).attrName == attrName))
      && (k < |es| ==>
            && DescOf(es[k]).relName == relation && DescOf(es[k]).attrName == attrName
            && Storable(DescOf(es[k])) && es[k].bytes == Encode(DescOf(es[k])))
  {
    var k := First(OfAttr(relation, attrName), es);
    forall i | 0 <= i < k ensures !(DescOf(es[i]).relName == relation && DescOf(es[i]).attrName == attrName) {
      assert !OfAttr(relation, attrName)(es[i]);
    }
    if k < |es| {
      assert AttrEntry(es[k]) && OfAttr(relation, attrName)(es[k]);
    }
  }

  /** The entries of a relation, one by one. */
  lemma {:induction false} RelationMeans(es: seq<Entry>, relation: seq<byte>, e: Entry)
    requires IsCatalog(es)
    ensures e in Pick(OfRelation(relation), es) <==> e in es && DescOf(e).relName == relation
    ensures e in es ==> Storable(DescOf(e)) && e.bytes == Encode(DescOf(e))
  {
    PickIn(OfRelation(relation), es, e);
    assert e in es ==> AttrEntry(e);
  }

  // ---- Looking attributes up ----

  ghost predicate Nameless(es: seq<Entry>, attrName: seq<byte>) {
    forall g {:trigger DescOf(g)} | g in es :: DescOf(g).attrName != attrName
  }

  /** The scan has come past the entries `got` of the relation, none of which has the name. */
  ghost predicate Looking(hfs: HeapFileScan, attrName: seq<byte>, all: seq<Entry>, got: seq<Entry>)
    reads hfs, hfs.store
  {
    Sweeping(hfs, SelectQuery.Never, all, got) && IsCatalog(all) && Nameless(got, attrName)
  }

  /** It has come to the entry e, which has the name. */
  ghost predicate Found(
      hfs: HeapFileScan, attrName: seq<byte>, all: seq<Entry>, got: seq<Entry>, e: Entry, record: AttrDesc)
    reads hfs, hfs.store
  {
    && Arrived(hfs, SelectQuery.Never, all, got, e) && Nameless(got, attrName)
    && DescOf(e) == record && record.attrName == attrName
  }

  /** hfs->getRecord(rec), copied to a descriptor. */
  method ReadEntry(hfs: HeapFileScan, ghost all: seq<Entry>, ghost got: seq<Entry>, ghost e: Entry)
    returns (record: AttrDesc)
    requires Arrived(hfs, SelectQuery.Never, all, got, e) && IsCatalog(all)
    ensures record == DescOf(e)
  {
    SweptIn(hfs.filter, SelectQuery.Never, all, hfs.store.Records(), got, e, hfs.rest);
    assert AttrEntry(e);
    var status, rec := hfs.GetRecord(e);
    record := Decode(rec);
  }

  method LookNext(hfs: HeapFileScan, attrName: seq<byte>, ghost all: seq<Entry>, ghost got: seq<Entry>)
    returns (status: Status, found: bool, record: AttrDesc, ghost got': seq<Entry>, ghost e: Entry)
    requires Looking(hfs, attrName, all, got)
    modifies hfs`hasPage, hfs`curPageNo, hfs`curDirtyFlag, hfs`curRec
    modifies hfs`idx, hfs`rest, hfs.store`pins, hfs.store`unsaved
    ensures hfs.Conserved() && (status == OK || status == FILEEOF)
    ensures if found then Found(hfs, attrName, all, got', e, record) else Looking(hfs, attrName, all, got')
    ensures if status == OK then |hfs.rest| < |old(hfs.rest)| else !found && hfs.rest == []
  {
    var rid;
    status, rid, e := NextMatch(hfs, SelectQuery.Never, all, got);
    record := AttrDesc([], [], 0, STRING, 0);
    found, got' := false, got;
    if status == OK {
      record := ReadEntry(hfs, all, got, e);
      found := record.attrName == attrName;
      if !found {
        SweptKeep(hfs.filter, SelectQuery.Never, all, hfs.store.Records(), got, e, hfs.rest);
        got' := got + [e];
      }
    }
  }

  /** Scans for the first entry of the attribute. */
  method FindAttr(hfs: HeapFileScan, attrName: seq<byte>)
    returns (status: Status, record: AttrDesc, ghost got: seq<Entry>, ghost e: Entry)
    requires hfs.Valid() && hfs.store.Counted() && hfs.rest == hfs.store.Records() && IsCatalog(hfs.rest)
    modifies hfs`hasPage, hfs`curPageNo, hfs`curDirtyFlag, hfs`curRec
    modifies hfs`idx, hfs`rest, hfs.store`pins, hfs.store`unsaved
    ensures hfs.Conserved() && (status == OK || status == FILEEOF)
    ensures if status == OK then Found(hfs, attrName, old(hfs.store.Records()), got, e, record)
            else Looking(hfs, attrName, old(hfs.store.Records()), got) && hfs.rest == []
  {
    ghost var all := hfs.store.Records();
    CatalogSolid(all);
    SweptStart(hfs.filter, SelectQuery.Never, all);
    got, e := [], Entry(NULLRID, []);
    var found := false;
    status, record := OK, AttrDesc([], [], 0, STRING, 0);
    while status == OK && !found
      invariant hfs.Conserved() && (status == OK || status == FILEEOF)
      invariant if found then Found(hfs, attrName, all, got, e, record) else Looking(hfs, attrName, all, got)
      invariant status != OK ==> !found && hfs.rest == []
      decreases |hfs.rest|, status == OK && !found
    {
      status, found, record, got, e := LookNext(hfs, attrName, all, got);
    }
  }

  /** What is scanned past without finding the name is not an entry of the attribute. */
  lemma {:induction false} NotAmong(relation: seq<byte>, attrName: seq<byte>, es: seq<Entry>, i: nat)
    requires NoNul(relation) && IsCatalog(es) && i < |es|
    requires Nameless(Pick(Matches(NameFilter(relation)), es), attrName)
    ensures !OfAttr(relation, attrName)(es[i])
  {
    var e := es[i];
    assert AttrEntry(e);
    AttrRecordMatch(relation, e.bytes);
    PickIn(Matches(NameFilter(relation)), es, e);
    assert DescOf(e).attrName == DescOf(e).attrName;
  }

  lemma {:induction false} CatalogFront(es: seq<Entry>, n: nat)
    requires IsCatalog(es) && n <= |es|
    ensures IsCatalog(es[..n])
  {
    forall e {:trigger AttrEntry(e)} | e in es[..n] ensures AttrEntry(e) {
      assert e in es;
    }
  }

  lemma {:induction false} FirstIs(relation: seq<byte>, attrName: seq<byte>, es: seq<Entry>, n: nat)
    requires NoNul(relation) && IsCatalog(es) && n < |es|
    requires Nameless(Pick(Matches(NameFilter(relation)), es[..n]), attrName)
    requires Matches(NameFilter(relation))(es[n]) && DescOf(es[n]).attrName == attrName
    ensures First(OfAttr(relation, attrName), es) == n
  {
    CatalogFront(es, n);
    forall i | 0 <= i < n ensures !OfAttr(relation, attrName)(es[i]) {
      NotAmong(relation, attrName, es[..n], i);
    }
    assert AttrEntry(es[n]);
    AttrRecordMatch(relation, es[n].bytes);
  }

  /** The entry found is the first one of the attribute, and the catalog has not changed. */
  lemma {:induction false} FoundFirst(hfs: HeapFileScan, relation: seq<byte>, attrName: seq<byte>, all: seq<Entry>,
      got: seq<Entry>, e: Entry, record: AttrDesc)
    requires Found(hfs, attrName, all, got, e, record) && hfs.filter == NameFilter(relation) && NoNul(relation)
    requires IsCatalog(all)
    ensures var k := First(OfAttr(relation, attrName), all);
      k < |all| && all == all[..k] + ([e] + hfs.rest) && hfs.store.Records() == all && DescOf(all[k]) == record
  {
    SweptSame(hfs.filter, SelectQuery.Never, all, hfs.store.Records(), got, [e] + hfs.rest);
    var n := |all| - |hfs.rest| - 1;
    assert all[n] == e;
    FirstIs(relation, attrName, all, n);
  }

  lemma {:induction false} FoundNone(hfs: HeapFileScan, relation: seq<byte>, attrName: seq<byte>, all: seq<Entry>,
      got: seq<Entry>)
    requires Looking(hfs, attrName, all, got) && hfs.rest == [] && hfs.filter == NameFilter(relation) && NoNul(relation)
    ensures First(OfAttr(relation, attrName), all) == |all| && hfs.store.Records() == all
  {
    SweptSame(hfs.filter, SelectQuery.Never, all, hfs.store.Records(), got, []);
    assert all[..|all|] == all;
    forall i | 0 <= i < |all| ensures !OfAttr(relation, attrName)(all[i]) {
      NotAmong(relation, attrName, all, i);
    }
  }

  /** Opens a scan for the entries of a relation. */
  method OpenFor(attrCat: HeapStore, relation: seq<byte>) returns (hfs: HeapFileScan)
    requires attrCat.Valid()
    modifies attrCat`pins
    ensures fresh(hfs) && hfs.store == attrCat && hfs.Valid() && hfs.filter == NameFilter(relation)
    ensures hfs.rest == attrCat.Records()
    ensures forall n :: hfs.OtherPins(n) == old(attrCat.pins)[n]
    ensures forall n {:trigger hfs.LeftDirty(n)} :: hfs.LeftDirty(n) ==> n in attrCat.unsaved
  {
    hfs := new HeapFileScan(attrCat);
    var status := hfs.StartScan(0, |relation| + 1, STRING, relation + [0], EQ);
  }

  method Close(hfs: HeapFileScan)
    requires hfs.Valid()
    modifies hfs, hfs.store`pins, hfs.store`unsaved
    ensures hfs.store.Valid() && forall n :: hfs.store.pins[n] == old(hfs.OtherPins(n))
    ensures forall n :: n in hfs.store.unsaved ==> old(hfs.LeftDirty(n))
  {
    var status := hfs.Destroy();
  }

  /** The scan looks for the first entry of an attribute. */
  method FindFirst(hfs: HeapFileScan, relation: seq<byte>, attrName: seq<byte>)
    returns (status: Status, record: AttrDesc)
    requires hfs.Valid() && hfs.store.Counted() && hfs.rest == hfs.store.Records() && IsCatalog(hfs.rest)
    requires hfs.filter == NameFilter(relation) && NoNul(relation)
    modifies hfs`hasPage, hfs`curPageNo, hfs`curDirtyFlag, hfs`curRec
    modifies hfs`idx, hfs`rest, hfs.store`pins, hfs.store`unsaved
    ensures hfs.Conserved() && hfs.Valid()
    ensures var all := old(hfs.store.Records());
      var k := First(OfAttr(relation, attrName), all);
      if k < |all| then status == OK && record == DescOf(all[k]) else status == ATTRNOTFOUND
  {
    ghost var got, e;
    status, record, got, e := FindAttr(hfs, attrName);
    if status == OK {
      FoundFirst(hfs, relation, attrName, old(hfs.store.Records()), got, e, record);
    } else {
      FoundNone(hfs, relation, attrName, old(hfs.store.Records()), got);
      status := ATTRNOTFOUND;
    }
  }

  /** The descriptor of an attribute: the first entry with that relation and attribute name. */
  method GetInfo(attrCat: HeapStore, relation: seq<byte>, attrName: seq<byte>)
    returns (status: Status, record: AttrDesc)
    requires attrCat.Valid() && attrCat.Counted() && IsCatalog(attrCat.Records()) && NoNul(relation)
    modifies attrCat`pins, attrCat`unsaved
    ensures attrCat.Valid() && forall n :: attrCat.pins[n] == old(attrCat.pins)[n]
    ensures forall n :: n in attrCat.unsaved ==> n in old(attrCat.unsaved)
    ensures var all := old(attrCat.Records());
      var k := First(OfAttr(relation, attrName), all);
      if relation == [] || attrName == [] then status == BADCATPARM
      else if k < |all| then status == OK && record == DescOf(all[k])
      else status == ATTRNOTFOUND
  {
    record := AttrDesc([], [], 0, STRING, 0);
    if relation == [] || attrName == [] {
      return BADCATPARM, record;
    }
    var hfs := OpenFor(attrCat, relation);
    label Opened:
    status, record := FindFirst(hfs, relation, attrName);
    label Scanned:
    Close(hfs);
    forall n ensures attrCat.pins[n] == old(attrCat.pins)[n] {
      assert old@Scanned(hfs.OtherPins(n)) == old@Opened(hfs.OtherPins(n));
    }
    forall n | n in attrCat.unsaved ensures n in old(attrCat.unsaved) {
      assert old@Scanned(hfs.LeftDirty(n)) ==> old@Opened(hfs.LeftDirty(n));
    }
  }

  /** Deletes the entry of an attribute: the first one with that relation and attribute name. */
  method RemoveInfo(attrCat: HeapStore, relation: seq<byte>, attrName: seq<byte>) returns (status: Status)
    requires attrCat.Valid() && attrCat.Counted() && IsCatalog(attrCat.Records()) && NoNul(relation)
    modifies attrCat
    ensures attrCat.Valid() && attrCat.Counted() && forall n :: attrCat.pins[n] == old(attrCat.pins)[n]
    ensures var all := old(attrCat.Records());
      var k := First(OfAttr(relation, attrName), all);
      if relation == [] || attrName == [] then status == BADCATPARM && attrCat.Records() == all
      else if k < |all| then status == OK && attrCat.Records() == all[..k] + all[k + 1..]
      else status == RELNOTFOUND && attrCat.Records() == all
  {
    if relation == [] || attrName == [] {
      return BADCATPARM;
    }
    var hfs := OpenFor(attrCat, relation);
    label Opened:
    status := RemoveFound(hfs, relation, attrName);
    label Scanned:
    Close(hfs);
    forall n ensures attrCat.pins[n] == old(attrCat.pins)[n] {
      assert old@Scanned(hfs.OtherPins(n)) == old@Opened(hfs.OtherPins(n));
    }
  }

  method RemoveFound(hfs: HeapFileScan, relation: seq<byte>, attrName: seq<byte>) returns (status: Status)
    requires hfs.Valid() && hfs.store.Counted() && hfs.rest == hfs.store.Records() && IsCatalog(hfs.rest)
    requires hfs.filter == NameFilter(relation) && NoNul(relation)
    modifies hfs, hfs.store
    ensures hfs.Valid() && hfs.store.Counted() && hfs.Conserved()
    ensures var all := old(hfs.store.Records());
      var k := First(OfAttr(relation, attrName), all);
      if k < |all| then status == OK && hfs.store.Records() == all[..k] + all[k + 1..]
      else status == RELNOTFOUND && hfs.store.Records() == all
  {
    ghost var all, got, e := hfs.store.Records(), [], Entry(NULLRID, []);
    var record;
    status, record, got, e := FindAttr(hfs, attrName);
    if status == OK {
      FoundFirst(hfs, relation, attrName, all, got, e, record);
      ghost var before;
      status, before := hfs.DeleteRecord(e);
      CutOut(all, First(OfAttr(relation, attrName), all), before, e, hfs.rest);
    } else {
      FoundNone(hfs, relation, attrName, all, got);
      status := RELNOTFOUND;
    }
  }

  lemma {:induction false} CutOut(all: seq<Entry>, k: nat, before: seq<Entry>, e: Entry, rest: seq<Entry>)
    requires k < |all| && all == all[..k] + ([e] + rest) && all == before + [e] + rest
    ensures before + rest == all[..k] + all[k + 1..]
  {
    SameFront(all[..k] + [e], before + [e], rest);
    assert all[..k] + [e] + rest == all[..k] + ([e] + rest);
  }

  // ---- All attributes of a relation ----

  ghost predicate Collecting(hfs: HeapFileScan, all: seq<Entry>, got: seq<Entry>, attrs: seq<AttrDesc>)
    reads hfs, hfs.store
  {
    Sweeping(hfs, SelectQuery.Never, all, got) && IsCatalog(all) && attrs == Map(DescOf, got)
  }

  method CollectNext(hfs: HeapFileScan, attrs: seq<AttrDesc>, ghost all: seq<Entry>, ghost got: seq<Entry>)
    returns (status: Status, attrs': seq<AttrDesc>, ghost got': seq<Entry>)
    requires Collecting(hfs, all, got, attrs)
    modifies hfs`hasPage, hfs`curPageNo, hfs`curDirtyFlag, hfs`curRec
    modifies hfs`idx, hfs`rest, hfs.store`pins, hfs.store`unsaved
    ensures hfs.Conserved() && (status == OK || status == FILEEOF)
    ensures Collecting(hfs, all, got', attrs')
    ensures if status == OK then |hfs.rest| < |old(hfs.rest)| else hfs.rest == []
  {
    var rid;
    ghost var e;
    status, rid, e := NextMatch(hfs, SelectQuery.Never, all, got);
    attrs', got' := attrs, got;
    if status == OK {
      var record := ReadEntry(hfs, all, got, e);
      SweptKeep(hfs.filter, SelectQuery.Never, all, hfs.store.Records(), got, e, hfs.rest);
      MapOne(DescOf, got, e);
      attrs', got' := attrs + [record], got + [e];
    }
  }

  method Collect(hfs: HeapFileScan, relation: seq<byte>) returns (attrs: seq<AttrDesc>)
    requires hfs.Valid() && hfs.store.Counted() && hfs.rest == hfs.store.Records() && IsCatalog(hfs.rest)
    requires hfs.filter == NameFilter(relation) && NoNul(relation)
    modifies hfs`hasPage, hfs`curPageNo, hfs`curDirtyFlag, hfs`curRec
    modifies hfs`idx, hfs`rest, hfs.store`pins, hfs.store`unsaved
    ensures hfs.Valid() && hfs.Conserved()
    ensures attrs == Map(DescOf, Pick(OfRelation(relation), old(hfs.store.Records())))
  {
    ghost var all, got: seq<Entry> := hfs.store.Records(), [];
    CatalogSolid(all);
    SweptStart(hfs.filter, SelectQuery.Never, all);
    attrs := [];
    var status := OK;
    while status == OK
      invariant hfs.Conserved() && Collecting(hfs, all, got, attrs)
      invariant status == OK || hfs.rest == []
      decreases |hfs.rest|, status == OK
    {
      status, attrs, got := CollectNext(hfs, attrs, all, got);
    }
    SweptAll(hfs.filter, SelectQuery.Never, all, hfs.store.Records(), got);
    MatchesRelation(relation, all);
  }

  /** The descriptors of a relation, in the order in which the scan meets them. */
  method GetRelInfo(attrCat: HeapStore, relation: seq<byte>) returns (status: Status, attrs: seq<AttrDesc>)
    requires attrCat.Valid() && attrCat.Counted() && IsCatalog(attrCat.Records()) && NoNul(relation)
    modifies attrCat`pins, attrCat`unsaved
    ensures attrCat.Valid() && forall n :: attrCat.pins[n] == old(attrCat.pins)[n]
    ensures if relation == [] then status == BADCATPARM
            else
              && attrs == Map(DescOf, Pick(OfRelation(relation), old(attrCat.Records())))
              && status == if attrs == [] then RELNOTFOUND else OK
  {
    if relation == [] {
      return BADCATPARM, [];
    }
    var hfs := OpenFor(attrCat, relation);
    label Opened:
    attrs := Collect(hfs, relation);
    status := if |attrs| == 0 then RELNOTFOUND else OK;
    label Scanned:
    Close(hfs);
    forall n ensures attrCat.pins[n] == old(attrCat.pins)[n] {
      assert old@Scanned(hfs.OtherPins(n)) == old@Opened(hfs.OtherPins(n));
    }
  }
}
