/**
  Creating a relation (create.C).
 */
module CreateRelation {
  import opened Bytes
  import opened Errors
  import opened Sequences
  import opened SlottedPage
  import opened HeapSpec
  import opened HeapGrowth
  import opened HeapStores
  import opened HeapInserts
  import opened Filters
  import opened Schema
  import opened ScanRuns
  import opened CatalogRecords
  import opened AttrCatalog

  /** An element of the attribute list. */
  datatype NewAttr = NewAttr(attrName: seq<byte>, attrType: Datatype, attrLen: int)

  /** The int that the lengths of the first k attributes add up to. */
  function OffsetAt(list: seq<NewAttr>, k: nat): int
    requires k <= |list|
  {
    if k == 0 then 0 else Wrap32(OffsetAt(list, k - 1) + list[k - 1].attrLen)
  }

  /** The descriptors of the first k attributes: each offset is the sum of the lengths before it, an int. */
  function Descs(relation: seq<byte>, list: seq<NewAttr>, k: nat): (r: seq<AttrDesc>)
    requires k <= |list|
    ensures |r| == k
  {
    if k == 0 then [] else Descs(relation, list, k - 1) + [LastDesc(relation, list, k)]
  }

  function LastDesc(relation: seq<byte>, list: seq<NewAttr>, k: nat): AttrDesc
    requires 1 <= k <= |list|
  {
    var x := list[k - 1];
    AttrDesc(relation, x.attrName, OffsetAt(list, k - 1), x.attrType, x.attrLen)
  }

  /** Each attribute keeps its name, its type and its length, in its place. */
  lemma {:induction false} DescsMean(relation: seq<byte>, list: seq<NewAttr>, k: nat)
    requires k <= |list|
    ensures |Descs(relation, list, k)| == k
    ensures forall i {:trigger list[i]} {:trigger Descs(relation, list, k)[i]} | 0 <= i < k ::
      var d := Descs(relation, list, k)[i];
      && d.relName == relation && d.attrName == list[i].attrName
      && d.attrType == list[i].attrType && d.attrLen == list[i].attrLen
  {
    if k > 0 {
      DescsMean(relation, list, k - 1);
      assert Descs(relation, list, k) == Descs(relation, list, k - 1) + [LastDesc(relation, list, k)];
    }
  }

  function TupleWidth(list: seq<NewAttr>): int {
    if list == [] then 0 else TupleWidth(list[..|list| - 1]) + list[|list| - 1].attrLen
  }

  predicate NonNegative(list: seq<NewAttr>) {
    forall i | 0 <= i < |list| :: list[i].attrLen >= 0
  }

  lemma {:induction false} WidthOfDescs(relation: seq<byte>, list: seq<NewAttr>, k: nat)
    requires k <= |list|
    ensures Width(Descs(relation, list, k)) == TupleWidth(list[..k])
    decreases k
  {
    if k > 0 {
      WidthOfDescs(relation, list, k - 1);
      assert list[..k][..k - 1] == list[..k - 1];
      var all := Descs(relation, list, k);
      assert all[..k - 1] == Descs(relation, list, k - 1);
    }
  }

  lemma {:induction false} TupleWidthGrows(list: seq<NewAttr>, k: nat)
    requires k <= |list| && NonNegative(list)
    ensures 0 <= TupleWidth(list[..k]) <= TupleWidth(list)
    decreases |list|
  {
    if list != [] {
      var front := list[..|list| - 1];
      TupleWidthGrows(front, if k < |list| then k else |front|);
      assert front[..|front|] == front;
      if k < |list| {
        assert front[..k] == list[..k];
      } else {
        assert list[..k] == list;
      }
    }
  }

  lemma {:induction false} LaidOutOne(front: seq<AttrDesc>, a: AttrDesc)
    requires LaidOut(front) && PlacedBehind(front, a)
    ensures LaidOut(front + [a])
  {
    var all := front + [a];
    forall i {:trigger PlacedAt(all, i)} | 0 <= i < |all| ensures PlacedAt(all, i) {
      assert all[..i] == front[..i];
      if i == |front| {
        assert front[..i] == front;
      } else {
        assert PlacedAt(front, i);
      }
    }
  }

  predicate PlacedBehind(front: seq<AttrDesc>, a: AttrDesc) { a.attrOffset == Width(front) && a.attrLen >= 0 }

  lemma {:induction false} OffsetIsSum(list: seq<NewAttr>, k: nat)
    requires k <= |list| && NonNegative(list) && Int32(TupleWidth(list))
    ensures OffsetAt(list, k) == TupleWidth(list[..k])
  {
    if k > 0 {
      OffsetIsSum(list, k - 1);
      assert list[..k][..k - 1] == list[..k - 1];
      TupleWidthGrows(list, k);
    }
  }

  lemma {:induction false} PlacedLast(relation: seq<byte>, list: seq<NewAttr>, k: nat)
    requires 1 <= k <= |list| && NonNegative(list) && Int32(TupleWidth(list))
    ensures PlacedBehind(Descs(relation, list, k - 1), LastDesc(relation, list, k))
  {
    WidthOfDescs(relation, list, k - 1);
    OffsetIsSum(list, k - 1);
  }

  /** The offsets are right as long as the sum of the lengths is an int. */
  lemma {:induction false} DescsLaidOut(relation: seq<byte>, list: seq<NewAttr>, k: nat)
    requires k <= |list| && NonNegative(list) && Int32(TupleWidth(list))
    ensures LaidOut(Descs(relation, list, k))
  {
    if k > 0 {
      DescsLaidOut(relation, list, k - 1);
      PlacedLast(relation, list, k);
      LaidOutOne(Descs(relation, list, k - 1), LastDesc(relation, list, k));
    }
  }

  ghost predicate DuplicateAt(list: seq<NewAttr>, i: nat)
    requires i < |list|
  {
    exists j :: 0 <= j < i && list[j].attrName == list[i].attrName
  }

  ghost predicate Duplicates(list: seq<NewAttr>) {
    exists i :: 0 <= i < |list| && DuplicateAt(list, i)
  }

  /** The position of the first attribute whose name is too long, or the number of attributes. */
  function FirstLong(list: seq<NewAttr>, k: nat := 0): (r: nat)
    requires k <= |list|
    ensures k <= r <= |list| && (r < |list| ==> |list[r].attrName| >= MAXNAME)
    ensures forall i | k <= i < r :: |list[i].attrName| < MAXNAME
    decreases |list| - k
  {
    if k == |list| || |list[k].attrName| >= MAXNAME then k else FirstLong(list, k + 1)
  }

  function Stored(a: AttrDesc): seq<byte> {
    if Storable(a) then Encode(a) else []
  }

  // ---- The schema comes back in creation order ----

  /** Records of the attribute catalog that belong to a relation. */
  function RecordOf(relation: seq<byte>): seq<byte> -> bool {
    (b: seq<byte>) => |b| == ATTRDESC_SIZE && Decode(b).relName == relation
  }

  lemma {:induction false} KindIsRelation(relation: seq<byte>, es: seq<Entry>)
    requires IsCatalog(es)
    ensures Select(RecordOf(relation), es) == Pick(OfRelation(relation), es)
  {
    forall e | e in es ensures OfKind(RecordOf(relation))(e) == OfRelation(relation)(e) {
      assert AttrEntry(e);
      assert RecordOf(relation)(e.bytes) == (DescOf(e).relName == relation);
    }
    PickSame(OfKind(RecordOf(relation)), OfRelation(relation), es);
  }

  predicate AllStorable(relation: seq<byte>, descs: seq<AttrDesc>) {
    forall a | a in descs :: Storable(a) && a.relName == relation
  }

  lemma {:induction false} StoredRecords(relation: seq<byte>, descs: seq<AttrDesc>)
    requires AllStorable(relation, descs)
    ensures Pick(RecordOf(relation), Map(Stored, descs)) == Map(Stored, descs) && Short(Map(Stored, descs))
    ensures forall b | b in Map(Stored, descs) :: IsAttrRecord(b)
  {
    if descs != [] {
      StoredRecords(relation, descs[1..]);
      assert descs[0] in descs;
      EncodedIsRecord(descs[0]);
      DecodeEncode(descs[0]);
    }
  }

  lemma {:induction false} DescsBack(es: seq<Entry>, relation: seq<byte>, descs: seq<AttrDesc>)
    requires AllStorable(relation, descs) && Map(BytesOf, es) == Map(Stored, descs)
    ensures Map(DescOf, es) == descs
  {
    forall i | 0 <= i < |es| ensures DescOf(es[i]) == descs[i] {
      MapIndex(BytesOf, es, i);
      MapIndex(Stored, descs, i);
      DecodeEncode(descs[i]);
    }
    MapIs(DescOf, es, descs);
  }

  lemma {:induction false} CatalogAfter(ps: seq<PageState>, n: int, recs: seq<seq<byte>>)
    requires IsChain(ps) && NewTo(ps, n) && Short(recs) && AllValid(ps) && IsCatalog(Listing(ps))
    requires forall b | b in recs :: IsAttrRecord(b)
    ensures var qs := InsertAll(ps, n, recs).0; AllValid(qs) && IsCatalog(Listing(qs))
  {
    var es := InsertAllKeeps(ps, n, recs);
    var qs := InsertAll(ps, n, recs).0;
    forall e {:trigger AttrEntry(e)} | e in Listing(qs) ensures AttrEntry(e) {
      assert e in multiset(Listing(qs)) && e in multiset(Listing(ps)) + multiset(es);
      if e in es {
        var i :| 0 <= i < |es| && es[i] == e;
        MapIndex(BytesOf, es, i);
        assert e.bytes in recs;
      } else {
        assert e in Listing(ps);
      }
    }
  }

  /** Catalog order survives slot reuse: whatever holes earlier drops left in the catalog, the entries added
      for a new relation are met in the order in which its first k attributes were listed, with the sums of
      the lengths as offsets. */
  lemma {:induction false} CreationOrder(ps: seq<PageState>, n: int, relation: seq<byte>, list: seq<NewAttr>, k: nat)
    requires k <= |list| && IsChain(ps) && NewTo(ps, n) && AllValid(ps) && IsCatalog(Listing(ps))
    requires Pick(OfRelation(relation), Listing(ps)) == []
    requires AllStorable(relation, Descs(relation, list, k))
    ensures var descs := Descs(relation, list, k);
      var qs := InsertAll(ps, n, Map(Stored, descs)).0;
      && AllValid(qs) && IsCatalog(Listing(qs))
      && Map(DescOf, Pick(OfRelation(relation), Listing(qs))) == descs
      && |descs| == k
      && forall i {:trigger list[i]} {:trigger descs[i]} | 0 <= i < k ::
           && descs[i].relName == relation && descs[i].attrName == list[i].attrName
           && descs[i].attrType == list[i].attrType && descs[i].attrLen == list[i].attrLen
  {
    var descs := Descs(relation, list, k);
    DescsMean(relation, list, k);
    var P, recs := RecordOf(relation), Map(Stored, descs);
    StoredRecords(relation, descs);
    CatalogAfter(ps, n, recs);
    KindIsRelation(relation, Listing(ps));
    NoneBehind(P, ps);
    InsertAllInOrder(P, ps, n, recs);
    var qs := InsertAll(ps, n, recs).0;
    KindIsRelation(relation, Listing(qs));
    assert [] + recs == recs;
    DescsBack(Select(P, Listing(qs)), relation, descs);
  }

  /** Adding or removing an entry of another relation leaves the schema of a relation alone. */
  lemma {:induction false} SchemaKept(relation: seq<byte>, ps: seq<PageState>, n: int, record: AttrDesc)
    requires IsChain(ps) && NewTo(ps, n) && Storable(record) && record.relName != relation
    requires AllValid(ps) && IsCatalog(Listing(ps))
    ensures var qs := InsertInto(ps, Encode(record), n);
      AllValid(qs) && Select(RecordOf(relation), Listing(qs)) == Pick(OfRelation(relation), Listing(ps))
  {
    DecodeEncode(record);
    InsertOther(RecordOf(relation), ps, Encode(record), n);
    KindIsRelation(relation, Listing(ps));
  }

  lemma {:induction false} SchemaKeptByRemove(relation: seq<byte>, other: seq<byte>, attrName: seq<byte>,
      es: seq<Entry>)
    requires other != relation
    ensures var k := First(OfAttr(other, attrName), es);
      k < |es| ==> Pick(OfRelation(relation), es[..k] + es[k + 1..]) == Pick(OfRelation(relation), es)
  {
    var k := First(OfAttr(other, attrName), es);
    if k < |es| {
      PickAround(OfRelation(relation), es[..k], es[k], es[k + 1..]);
      assert es == es[..k] + [es[k]] + es[k + 1..];
    }
  }

  // ---- The relation catalog ----

  predicate RelEntry(e: Entry) { IsRelRecord(e.bytes) }

  ghost predicate IsRelCatalog(es: seq<Entry>) {
    forall e {:trigger RelEntry(e)} | e in es :: RelEntry(e)
  }

  function NamedRelation(relation: seq<byte>): Entry -> bool {
    (e: Entry) => |e.bytes| == RELDESC_SIZE && CString(e.bytes[..MAXNAME], MAXNAME) == relation
  }

  /** Is there an entry for the relation? */
  ghost predicate Exists(es: seq<Entry>, relation: seq<byte>) {
    Pick(NamedRelation(relation), es) != []
  }

  lemma {:induction false} MatchesNamed(relation: seq<byte>, es: seq<Entry>)
    requires NoNul(relation) && IsRelCatalog(es)
    ensures Solid(es) && Pick(Matches(NameFilter(relation)), es) == Pick(NamedRelation(relation), es)
  {
    forall e {:trigger Legible(e)} | e in es ensures Legible(e) {
      assert RelEntry(e);
    }
    forall e | e in es ensures Matches(NameFilter(relation))(e) == NamedRelation(relation)(e) {
      assert RelEntry(e);
      RelRecordMatch(relation, e.bytes);
    }
    PickSame(Matches(NameFilter(relation)), NamedRelation(relation), es);
  }

  /** getInfo of the relation catalog: OK or RELNOTFOUND. */
  method RelGetInfo(relCat: HeapStore, relation: seq<byte>) returns (status: Status)
    requires relCat.Valid() && relCat.Counted() && IsRelCatalog(relCat.Records()) && NoNul(relation)
    modifies relCat`pins, relCat`unsaved
    ensures relCat.Valid() && forall n :: relCat.pins[n] == old(relCat.pins)[n]
    ensures status == if relation == [] then BADCATPARM
                      else if Exists(old(relCat.Records()), relation) then OK else RELNOTFOUND
  {
    if relation == [] {
      return BADCATPARM;
    }
    var hfs := OpenFor(relCat, relation);
    label Opened:
    ghost var all := relCat.Records();
    MatchesNamed(relation, all);
    SweptStart(hfs.filter, SelectQuery.Never, all);
    var rid;
    ghost var e;
    status, rid, e := NextMatch(hfs, SelectQuery.Never, all, []);
    if status == OK {
      SweptIn(hfs.filter, SelectQuery.Never, all, relCat.Records(), [], e, hfs.rest);
      PickIn(Matches(hfs.filter), all, e);
    } else {
      SweptAll(hfs.filter, SelectQuery.Never, all, relCat.Records(), []);
      status := RELNOTFOUND;
    }
    label Scanned:
    Close(hfs);
    forall n ensures relCat.pins[n] == old(relCat.pins)[n] {
      assert old@Scanned(hfs.OtherPins(n)) == old@Opened(hfs.OtherPins(n));
    }
  }

  // ---- createRel ----

  /** The width of a tuple as an unsigned int. */
  function WidthSeen(list: seq<NewAttr>): int { Unsigned(TupleWidth(list)) }

  function Unsigned(x: int): int { x % 0x1_0000_0000 }

  lemma {:induction false} UnsignedSum(x: int, y: int)
    ensures Unsigned(Unsigned(x) + y) == Unsigned(x + y)
  {}

  /** The lengths of a relation can add up to so much that the check finds nothing wrong with them. */
  lemma {:induction false} WidthWraps(a: seq<byte>, b: seq<byte>, c: seq<byte>)
    ensures var huge := 0x7FFF_FFFF;
      var list := [NewAttr(a, STRING, huge), NewAttr(b, STRING, huge), NewAttr(c, STRING, 2)];
      TupleWidth(list) > PAGESIZE && WidthSeen(list) == 0
  {
    var huge := 0x7FFF_FFFF;
    var x, y, z := NewAttr(a, STRING, huge), NewAttr(b, STRING, huge), NewAttr(c, STRING, 2);
    assert [x, y, z][..2] == [x, y] && [x, y][..1] == [x] && [x][..0] == [];
    assert TupleWidth([x, y, z]) == TupleWidth([x, y]) + 2 && TupleWidth([x, y]) == TupleWidth([x]) + huge;
    assert TupleWidth([x]) == huge;
  }

  /** Looks for duplicate attribute names and adds the lengths up. */
  method CheckAttrs(attrList: seq<NewAttr>) returns (duplicate: bool, tupleWidth: int)
    requires attrList != []
    ensures duplicate == Duplicates(attrList) && (!duplicate ==> tupleWidth == WidthSeen(attrList))
  {
    tupleWidth := Unsigned(attrList[0].attrLen);
    assert attrList[..1][..0] == [] && TupleWidth(attrList[..1]) == attrList[0].attrLen;
    for i := 1 to |attrList|
      invariant tupleWidth == WidthSeen(attrList[..i])
      invariant forall k | 0 <= k < i :: !DuplicateAt(attrList, k)
    {
      UnsignedSum(TupleWidth(attrList[..i]), attrList[i].attrLen);
      tupleWidth := Unsigned(tupleWidth + attrList[i].attrLen);
      assert attrList[..i + 1][..i] == attrList[..i];
      for j := 0 to i
        invariant forall k | 0 <= k < j :: attrList[k].attrName != attrList[i].attrName
      {
        if attrList[i].attrName == attrList[j].attrName {
          assert DuplicateAt(attrList, i);
          return true, tupleWidth;
        }
      }
    }
    assert attrList[..|attrList|] == attrList;
    duplicate := false;
  }

  /** The names are C strings and the lengths are ints. */
  predicate Proper(list: seq<NewAttr>) {
    forall i | 0 <= i < |list| :: NoNul(list[i].attrName) && Int32(list[i].attrLen)
  }

  /** The descriptors that are stored before one with a name too long is met. */
  lemma {:induction false} DescsStorable(relation: seq<byte>, list: seq<NewAttr>, k: nat)
    requires k <= FirstLong(list) && IsName(relation) && Proper(list)
    ensures AllStorable(relation, Descs(relation, list, k))
  {
    if k > 0 {
      DescsStorable(relation, list, k - 1);
      var all := Descs(relation, list, k);
      assert all[..k - 1] == Descs(relation, list, k - 1);
      assert Storable(all[k - 1]);
    }
  }

  /** What has been stored for the first k attributes. */
  ghost predicate Added(attrCat: HeapStore, base: Snapshot, relation: seq<byte>, list: seq<NewAttr>, k: nat)
    requires k <= |list|
    reads attrCat`hdr, attrCat`chain, attrCat`numPages
  {
    Filled(attrCat, base, Map(Stored, Descs(relation, list, k)))
  }

  lemma {:induction false} DescsOne(relation: seq<byte>, list: seq<NewAttr>, k: nat)
    requires k < |list|
    ensures var a := LastDesc(relation, list, k + 1);
      && Descs(relation, list, k + 1) == Descs(relation, list, k) + [a]
      && Map(Stored, Descs(relation, list, k + 1)) == Map(Stored, Descs(relation, list, k)) + [Stored(a)]
  {
    var front, a := Descs(relation, list, k), LastDesc(relation, list, k + 1);
    MapOne(Stored, front, a);
    assert (front + [a])[..k] == front;
  }

  method AddAttr(attrCat: HeapStore, relation: seq<byte>, attrList: seq<NewAttr>, i: nat, offset: int,
      ghost base: Snapshot)
    returns (next: int)
    requires attrCat.Valid() && IsName(relation) && Proper(attrList)
    requires i < FirstLong(attrList) && offset == OffsetAt(attrList, i)
    requires Added(attrCat, base, relation, attrList, i)
    modifies attrCat
    ensures attrCat.Valid() && forall n :: attrCat.pins[n] == old(attrCat.pins)[n]
    ensures next == OffsetAt(attrList, i + 1) && Added(attrCat, base, relation, attrList, i + 1)
  {
    var ad := AttrDesc(relation, attrList[i].attrName, offset, attrList[i].attrType, attrList[i].attrLen);
    DescsOne(relation, attrList, i);
    DescsStorable(relation, attrList, i + 1);
    assert Descs(relation, attrList, i + 1)[i] == ad;
    var status := AddInfo(attrCat, ad, base, Map(Stored, Descs(relation, attrList, i)));
    next := Wrap32(offset + ad.attrLen);
  }

  /** Stores the entries of the attributes, up to one whose name is too long. */
  method AddAttrs(attrCat: HeapStore, relation: seq<byte>, attrList: seq<NewAttr>) returns (status: Status)
    requires attrCat.Valid() && IsName(relation) && Proper(attrList)
    modifies attrCat
    ensures attrCat.Valid() && forall n :: attrCat.pins[n] == old(attrCat.pins)[n]
    ensures status == if FirstLong(attrList) < |attrList| then NAMETOOLONG else OK
    ensures Added(attrCat, old(attrCat.Now()), relation, attrList, FirstLong(attrList))
  {
    FilledStart(attrCat);
    var offset := 0;
    for i := 0 to |attrList|
      invariant attrCat.Valid() && i <= FirstLong(attrList) && offset == OffsetAt(attrList, i)
      invariant Added(attrCat, old(attrCat.Now()), relation, attrList, i)
      invariant forall n :: attrCat.pins[n] == old(attrCat.pins)[n]
    {
      if |attrList[i].attrName| >= MAXNAME {
        return NAMETOOLONG;
      }
      offset := AddAttr(attrCat, relation, attrList, i, offset, old(attrCat.Now()));
    }
    status := OK;
  }

  /** Why createRel refuses a relation before it has stored anything, or OK. */
  ghost function Refusal(rels: seq<Entry>, relation: seq<byte>, list: seq<NewAttr>): Status {
    if relation == [] || list == [] then BADCATPARM
    else if |relation| >= MAXNAME then NAMETOOLONG
    else if Exists(rels, relation) then RELEXISTS
    else if Duplicates(list) then DUPLATTR
    else if WidthSeen(list) > PAGESIZE then ATTRTOOLONG
    else OK
  }

  lemma {:induction false} DuplicatesMean(list: seq<NewAttr>)
    ensures Duplicates(list) <==> exists i, j :: 0 <= j < i < |list| && list[i].attrName == list[j].attrName
  {
    if i, j :| 0 <= j < i < |list| && list[i].attrName == list[j].attrName {
      assert DuplicateAt(list, i);
    }
  }

  /** The name of a relation is in its entry. */
  lemma {:induction false} ExistsMeans(rels: seq<Entry>, relation: seq<byte>)
    requires IsRelCatalog(rels)
    ensures Exists(rels, relation) <==>
      exists e :: e in rels && |e.bytes| == 36 && CString(e.bytes[..32], 32) == relation
  {
    PickNone(NamedRelation(relation), rels);
    if e :| e in rels && NamedRelation(relation)(e) {
      assert RelEntry(e);
    }
    if e :| e in rels && |e.bytes| == 36 && CString(e.bytes[..32], 32) == relation {
      assert NamedRelation(relation)(e);
    }
  }

  /** Which relations are refused, and why, whichever reason comes first. */
  lemma {:induction false} RefusalMeans(rels: seq<Entry>, relation: seq<byte>, list: seq<NewAttr>)
    requires IsRelCatalog(rels)
    ensures var known := exists e :: e in rels && |e.bytes| == 36 && CString(e.bytes[..32], 32) == relation;
      var twice := exists i, j :: 0 <= j < i < |list| && list[i].attrName == list[j].attrName;
      var refusal := Refusal(rels, relation, list);
      && (refusal == BADCATPARM <==> relation == [] || list == [])
      && (relation != [] && list != [] ==> (refusal == NAMETOOLONG <==> |relation| >= 32))
      && (relation != [] && list != [] && |relation| < 32 ==>
            && (refusal == RELEXISTS <==> known) && (refusal == DUPLATTR <==> !known && twice)
            && (refusal == ATTRTOOLONG <==> !known && !twice && TupleWidth(list) % 0x1_0000_0000 > 1024)
            && (refusal == OK <==> !known && !twice && TupleWidth(list) % 0x1_0000_0000 <= 1024))
  {
    ExistsMeans(rels, relation);
    DuplicatesMean(list);
  }

  lemma {:induction false} TupleWidthMeans(list: seq<NewAttr>, x: NewAttr)
    ensures TupleWidth([]) == 0 && TupleWidth(list + [x]) == TupleWidth(list) + x.attrLen
  {
    assert (list + [x])[..|list|] == list;
  }

  /** Creates a relation; `created` is what creating its heap file answers.  A refused relation leaves both
      catalogs as they were.  An attribute name that is too long is noticed late: by then the entry of the
      relation and those of the attributes before are in the catalogs, and they stay there. */
  method CreateRel(relCat: HeapStore, attrCat: HeapStore, relation: seq<byte>, attrList: seq<NewAttr>, created: Status)
    returns (status: Status)
    requires relCat.Valid() && relCat.Counted() && IsRelCatalog(relCat.Records())
    requires attrCat.Valid() && relCat != attrCat
    requires NoNul(relation) && Proper(attrList) && Int32(|attrList|)
    modifies relCat, attrCat
    ensures relCat.Valid() && attrCat.Valid()
    ensures var refusal := Refusal(old(relCat.Records()), relation, attrList);
      if refusal != OK then
        && status == refusal && relCat.Now() == old(relCat.Now()) && attrCat.Now() == old(attrCat.Now())
      else
        && status == (if FirstLong(attrList) < |attrList| then NAMETOOLONG else created)
        && Filled(relCat, old(relCat.Now()), [EncodeRel(relation, |attrList|)])
        && Added(attrCat, old(attrCat.Now()), relation, attrList, FirstLong(attrList))
    ensures forall n :: relCat.pins[n] == old(relCat.pins)[n] && attrCat.pins[n] == old(attrCat.pins)[n]
  {
    status := CheckRel(relCat, relation, attrList);
    if status != OK {
      return;
    }
    AddFirst(relCat, EncodeRel(relation, |attrList|));
    status := AddAttrs(attrCat, relation, attrList);
    if status == OK {
      status := created;
    }
  }

  /** The checks of createRel, in their order. */
  method CheckRel(relCat: HeapStore, relation: seq<byte>, attrList: seq<NewAttr>) returns (status: Status)
    requires relCat.Valid() && relCat.Counted() && IsRelCatalog(relCat.Records()) && NoNul(relation)
    modifies relCat`pins, relCat`unsaved
    ensures relCat.Valid() && forall n :: relCat.pins[n] == old(relCat.pins)[n]
    ensures status == Refusal(old(relCat.Records()), relation, attrList)
  {
    if relation == [] || |attrList| < 1 {
      return BADCATPARM;
    }
    if |relation| >= MAXNAME {
      return NAMETOOLONG;
    }
    status := RelGetInfo(relCat, relation);
    if status == OK {
      return RELEXISTS;
    }
    var duplicate, tupleWidth := CheckAttrs(attrList);
    if duplicate {
      return DUPLATTR;
    }
    status := if tupleWidth > PAGESIZE then ATTRTOOLONG else OK;
  }

  method AddFirst(store: HeapStore, rec: seq<byte>)
    requires store.Valid() && |rec| <= MAX_RECORD
    modifies store
    ensures store.Valid() && Filled(store, old(store.Now()), [rec]) && forall n :: store.pins[n] == old(store.pins)[n]
  {
    FilledStart(store);
    var status := AddRecord(store, rec, store.Now(), []);
    assert [] + [rec] == [rec];
  }
}
