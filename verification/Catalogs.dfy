/**
  What the two catalogs have to do with each other, and what createRel does to that.
 */
module TwoCatalogs {
  import opened Bytes
  import opened Errors
  import opened Sequences
  import opened SlottedPage
  import opened HeapSpec
  import opened HeapGrowth
  import opened HeapStores
  import opened HeapInserts
  import opened Filters
  import opened Schema
  import opened CatalogRecords
  import opened AttrCatalog
  import opened CreateRelation

  /** attrCnt of a record of the relation catalog. */
  function AttrCntOf(e: Entry): int {
    if |e.bytes| == RELDESC_SIZE then GetInt(e.bytes[MAXNAME..], 0) else 0
  }

  /** The relation has one entry at most, and as many attributes as that says; without an entry it has none. */
  ghost predicate AgreeOn(rels: seq<Entry>, attrs: seq<Entry>, name: seq<byte>) {
    var entry := Pick(NamedRelation(name), rels);
    && |entry| <= 1
    && |Pick(OfRelation(name), attrs)| == if entry == [] then 0 else AttrCntOf(entry[0])
  }

  /** Every entry of the attribute catalog belongs to a relation of the relation catalog, and no attribute of a
      relation is missing. */
  ghost predicate Agree(rels: seq<Entry>, attrs: seq<Entry>) {
    forall name {:trigger AgreeOn(rels, attrs, name)} :: AgreeOn(rels, attrs, name)
  }

  // ---- Entries of other relations ----

  /** Records of the relation catalog that belong to a relation. */
  function RelRecordOf(name: seq<byte>): seq<byte> -> bool {
    (b: seq<byte>) => |b| == RELDESC_SIZE && CString(b[..MAXNAME], MAXNAME) == name
  }

  lemma {:induction false} KindIsNamed(name: seq<byte>, es: seq<Entry>)
    ensures Select(RelRecordOf(name), es) == Pick(NamedRelation(name), es)
  {
    PickSame(OfKind(RelRecordOf(name)), NamedRelation(name), es);
  }

  predicate Other(P: seq<byte> -> bool, rec: seq<byte>) { |rec| <= MAX_RECORD && !P(rec) }

  /** Records of other kinds change nothing for a kind. */
  lemma {:induction false} InsertOthers(P: seq<byte> -> bool, ps: seq<PageState>, n: int, recs: seq<seq<byte>>)
    requires IsChain(ps) && NewTo(ps, n) && forall rec | rec in recs :: Other(P, rec)
    ensures AllValid(ps) && AllValid(InsertAll(ps, n, recs).0)
    ensures Select(P, Listing(InsertAll(ps, n, recs).0)) == Select(P, Listing(ps))
  {
    InsertAllChain(ps, n, recs);
    if recs != [] {
      var front, rec := recs[..|recs| - 1], recs[|recs| - 1];
      InsertOthers(P, ps, n, front);
      InsertAllChain(ps, n, front);
      var before := InsertAll(ps, n, front);
      assert Other(P, rec);
      InsertOther(P, before.0, rec, before.1);
    }
  }

  // ---- The relation catalog after createRel ----

  lemma {:induction false} EncodedRel(name: seq<byte>, attrCnt: int)
    requires IsName(name) && Int32(attrCnt)
    ensures var rec := EncodeRel(name, attrCnt);
      && IsRelRecord(rec) && CString(rec[..MAXNAME], MAXNAME) == name && GetInt(rec[MAXNAME..], 0) == attrCnt
  {
    ReadName(NameField(name), name, MAXNAME, 0);
    assert EncodeRel(name, attrCnt)[MAXNAME..] == IntBytes(attrCnt);
  }

  /** The new entry is found under its name, and under no other. */
  lemma {:induction false} RelAdded(ps: seq<PageState>, n: int, relation: seq<byte>, attrCnt: int, name: seq<byte>)
    requires IsChain(ps) && NewTo(ps, n) && IsName(relation) && Int32(attrCnt) && AllValid(ps)
    requires !Exists(Listing(ps), relation)
    ensures var qs := InsertAll(ps, n, [EncodeRel(relation, attrCnt)]).0;
      && AllValid(qs)
      && if name == relation then
           var entry := Pick(NamedRelation(name), Listing(qs));
           |entry| == 1 && AttrCntOf(entry[0]) == attrCnt
         else Pick(NamedRelation(name), Listing(qs)) == Pick(NamedRelation(name), Listing(ps))
  {
    var rec, P := EncodeRel(relation, attrCnt), RelRecordOf(name);
    var qs := InsertAll(ps, n, [rec]).0;
    EncodedRel(relation, attrCnt);
    KindIsNamed(name, Listing(ps));
    InsertAllChain(ps, n, [rec]);
    KindIsNamed(name, Listing(qs));
    if name == relation {
      NoneBehind(P, ps);
      InsertAllInOrder(P, ps, n, [rec]);
      var found := Select(P, Listing(qs));
      PickAll(P, [rec]);
      assert Map(BytesOf, found) == [rec];
      MapIndex(BytesOf, found, 0);
    } else {
      InsertOthers(P, ps, n, [rec]);
    }
  }

  lemma {:induction false} RelCatalogAfter(ps: seq<PageState>, n: int, rec: seq<byte>)
    requires IsChain(ps) && NewTo(ps, n) && AllValid(ps) && IsRelCatalog(Listing(ps)) && IsRelRecord(rec)
    ensures var qs := InsertAll(ps, n, [rec]).0; AllValid(qs) && IsRelCatalog(Listing(qs))
  {
    var es := InsertAllKeeps(ps, n, [rec]);
    var qs := InsertAll(ps, n, [rec]).0;
    forall e {:trigger RelEntry(e)} | e in Listing(qs) ensures RelEntry(e) {
      assert e in multiset(Listing(qs)) && e in multiset(Listing(ps)) + multiset(es);
      if e in es {
        var i :| 0 <= i < |es| && es[i] == e;
        MapIndex(BytesOf, es, i);
      } else {
        assert e in Listing(ps);
      }
    }
  }

  // ---- The attribute catalog after createRel ----

  lemma {:induction false} MapIn<A, B>(g: A -> B, s: seq<A>, b: B) returns (a: A)
    requires b in Map(g, s)
    ensures a in s && g(a) == b
  {
    var i :| 0 <= i < |s| && Map(g, s)[i] == b;
    MapIndex(g, s, i);
    a := s[i];
  }

  /** The new entries are the schema of the relation, and of no other. */
  lemma {:induction false} AttrsAdded(
      ps: seq<PageState>, n: int, relation: seq<byte>, list: seq<NewAttr>, k: nat, name: seq<byte>)
    requires k <= |list| && IsChain(ps) && NewTo(ps, n) && AllValid(ps) && IsCatalog(Listing(ps))
    requires Pick(OfRelation(relation), Listing(ps)) == [] && AllStorable(relation, Descs(relation, list, k))
    ensures var qs := InsertAll(ps, n, Map(Stored, Descs(relation, list, k))).0;
      && AllValid(qs) && IsCatalog(Listing(qs))
      && if name == relation then Map(DescOf, Pick(OfRelation(name), Listing(qs))) == Descs(relation, list, k)
         else Pick(OfRelation(name), Listing(qs)) == Pick(OfRelation(name), Listing(ps))
  {
    var descs := Descs(relation, list, k);
    var recs := Map(Stored, descs);
    CreationOrder(ps, n, relation, list, k);
    if name != relation {
      forall rec | rec in recs ensures Other(RecordOf(name), rec) {
        var a := MapIn(Stored, descs, rec);
        DecodeEncode(a);
      }
      InsertOthers(RecordOf(name), ps, n, recs);
      KindIsRelation(name, Listing(ps));
      KindIsRelation(name, Listing(InsertAll(ps, n, recs).0));
    }
  }

  // ---- createRel ----

  /** The catalogs agree after a relation was created exactly if no name of an attribute was too long; and the
      schema in the catalog is what was stored before that. */
  lemma {:induction false} CreatedAgree(
      rs: seq<PageState>, m: int, ps: seq<PageState>, n: int, relation: seq<byte>, list: seq<NewAttr>)
    requires IsChain(rs) && NewTo(rs, m) && AllValid(rs) && IsRelCatalog(Listing(rs))
    requires IsChain(ps) && NewTo(ps, n) && AllValid(ps) && IsCatalog(Listing(ps)) && Agree(Listing(rs), Listing(ps))
    requires NoNul(relation) && Proper(list) && Int32(|list|) && Refusal(Listing(rs), relation, list) == OK
    ensures var rs' := InsertAll(rs, m, [EncodeRel(relation, |list|)]).0;
      var ps' := InsertAll(ps, n, Map(Stored, Descs(relation, list, FirstLong(list)))).0;
      && AllValid(rs') && AllValid(ps') && IsRelCatalog(Listing(rs')) && IsCatalog(Listing(ps'))
      && (Agree(Listing(rs'), Listing(ps')) <==> FirstLong(list) == |list|)
      && Map(DescOf, Pick(OfRelation(relation), Listing(ps'))) == Descs(relation, list, FirstLong(list))
  {
    var k := FirstLong(list);
    var rs' := InsertAll(rs, m, [EncodeRel(relation, |list|)]).0;
    var ps' := InsertAll(ps, n, Map(Stored, Descs(relation, list, k))).0;
    EncodedRel(relation, |list|);
    RelCatalogAfter(rs, m, EncodeRel(relation, |list|));
    DescsStorable(relation, list, k);
    assert AgreeOn(Listing(rs), Listing(ps), relation);
    RelAdded(rs, m, relation, |list|, relation);
    AttrsAdded(ps, n, relation, list, k, relation);
    assert AgreeOn(Listing(rs'), Listing(ps'), relation) <==> k == |list|;
    forall name {:trigger AgreeOn(Listing(rs'), Listing(ps'), name)} | name != relation
      ensures AgreeOn(Listing(rs'), Listing(ps'), name)
    {
      RelAdded(rs, m, relation, |list|, name);
      AttrsAdded(ps, n, relation, list, k, name);
      assert AgreeOn(Listing(rs), Listing(ps), name);
    }
  }

  ghost predicate Ready(relCat: HeapStore, attrCat: HeapStore)
    reads relCat, attrCat
  {
    && relCat.Valid() && relCat.Counted() && IsRelCatalog(relCat.Records())
    && attrCat.Valid() && attrCat.Counted() && IsCatalog(attrCat.Records())
  }

  ghost predicate InAgreement(relCat: HeapStore, attrCat: HeapStore)
    requires Ready(relCat, attrCat)
    reads relCat, attrCat
  {
    Agree(relCat.Records(), attrCat.Records())
  }

  ghost predicate Sound(s: Snapshot) {
    IsChain(s.chain) && NewTo(s.chain, s.numPages) && AllValid(s.chain) && s.recCnt == |Listing(s.chain)|
  }

  lemma {:induction false} IsSound(store: HeapStore)
    requires store.Valid() && store.Counted()
    ensures Sound(store.Now())
  {
    store.Facts();
    store.NextIsNew();
  }

  lemma {:induction false} FilledRecords(store: HeapStore, base: Snapshot, recs: seq<seq<byte>>)
    requires store.Valid() && Sound(base) && Filled(store, base, recs) && Short(recs)
    ensures store.Counted() && store.chain == InsertAll(base.chain, base.numPages, recs).0
  {
    FilledCounted(store, base, recs);
    assert FilledTo(store.Now(), base, recs);
  }

  /** The files after createRel are the catalogs CreatedAgree speaks of. */
  lemma {:induction false} Created(
      relCat: HeapStore, attrCat: HeapStore, relation: seq<byte>, list: seq<NewAttr>, rels: Snapshot, attrs: Snapshot)
    requires relCat.Valid() && attrCat.Valid() && Sound(rels) && Sound(attrs)
    requires IsRelCatalog(Listing(rels.chain)) && IsCatalog(Listing(attrs.chain))
    requires Agree(Listing(rels.chain), Listing(attrs.chain))
    requires NoNul(relation) && Proper(list) && Int32(|list|) && Refusal(Listing(rels.chain), relation, list) == OK
    requires Filled(relCat, rels, [EncodeRel(relation, |list|)])
    requires Added(attrCat, attrs, relation, list, FirstLong(list))
    ensures Ready(relCat, attrCat) && (InAgreement(relCat, attrCat) <==> FirstLong(list) == |list|)
    ensures Map(DescOf, Pick(OfRelation(relation), attrCat.Records())) == Descs(relation, list, FirstLong(list))
  {
    var k := FirstLong(list);
    CreatedAgree(rels.chain, rels.numPages, attrs.chain, attrs.numPages, relation, list);
    DescsStorable(relation, list, k);
    StoredRecords(relation, Descs(relation, list, k));
    FilledRecords(relCat, rels, [EncodeRel(relation, |list|)]);
    FilledRecords(attrCat, attrs, Map(Stored, Descs(relation, list, k)));
  }

  /** Create a relation and look its schema up.  After catalogs that agree the schema is what was asked for, and the
      catalogs agree again, but for an attribute with a name that is too long: the attributes before it are in the
      catalog, and the relation catalog counts more of them. */
  method CreateAndLook(
      relCat: HeapStore, attrCat: HeapStore, relation: seq<byte>, attrList: seq<NewAttr>, created: Status)
    returns (status: Status, found: Status, attrs: seq<AttrDesc>)
    requires Ready(relCat, attrCat) && InAgreement(relCat, attrCat) && relCat != attrCat
    requires NoNul(relation) && Proper(attrList) && Int32(|attrList|)
    modifies relCat, attrCat
    ensures Ready(relCat, attrCat)
    ensures forall n :: relCat.pins[n] == old(relCat.pins)[n] && attrCat.pins[n] == old(attrCat.pins)[n]
    ensures var refusal := Refusal(old(relCat.Records()), relation, attrList);
      if refusal != OK then
        status == refusal && InAgreement(relCat, attrCat)
      else
        && status == (if FirstLong(attrList) < |attrList| then NAMETOOLONG else created)
        && (InAgreement(relCat, attrCat) <==> FirstLong(attrList) == |attrList|)
        && attrs == Descs(relation, attrList, FirstLong(attrList)) && found == (if attrs == [] then RELNOTFOUND else OK)
        && |attrs| == FirstLong(attrList)
        && forall i {:trigger attrs[i]} | 0 <= i < |attrs| ::
             && attrs[i].relName == relation && attrs[i].attrName == attrList[i].attrName
             && attrs[i].attrType == attrList[i].attrType && attrs[i].attrLen == attrList[i].attrLen
  {
    ghost var rels, before := relCat.Now(), attrCat.Now();
    IsSound(relCat);
    IsSound(attrCat);
    status := CreateRel(relCat, attrCat, relation, attrList, created);
    if Refusal(old(relCat.Records()), relation, attrList) == OK {
      Created(relCat, attrCat, relation, attrList, rels, before);
    }
    found, attrs := GetRelInfo(attrCat, relation);
    DescsMean(relation, attrList, FirstLong(attrList));
  }
}
