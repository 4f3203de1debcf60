/**
  The insert operator (insert.C): the values of an attribute list are put into schema order.
 */
module InsertQuery {
  import opened Bytes
  import opened Errors
  import opened Memory
  import opened HeapGrowth
  import opened HeapStores
  import opened HeapInserts
  import opened Filters
  import opened Schema
  import opened Sequences
  import opened HeapSpec
  import opened CatalogRecords
  import opened AttrCatalog

  /** The memory a value pointer leads to, after conversion to the attribute type: a string, its NUL, and what
      may be behind that. */
  datatype Value = Null | Value(bytes: seq<byte>)

  datatype AttrInfo = AttrInfo(attrName: seq<byte>, attrType: Datatype, attrValue: Value)

  ghost predicate DistinctNames(list: seq<AttrInfo>) {
    forall i, j | 0 <= i < j < |list| :: list[i].attrName != list[j].attrName
  }

  /** The first element from k on with that name, or the length of the list. */
  function Find(list: seq<AttrInfo>, name: seq<byte>, k: nat := 0): (r: nat)
    requires k <= |list|
    ensures k <= r <= |list| && (r < |list| ==> list[r].attrName == name)
    ensures forall i | k <= i < r :: list[i].attrName != name
    decreases |list| - k
  {
    if k == |list| || list[k].attrName == name then k else Find(list, name, k + 1)
  }

  /** x is a value for attribute a. */
  predicate Usable(a: AttrDesc, x: AttrInfo) {
    x.attrValue.Value? && x.attrType == a.attrType
  }

  /** The list has a value for attribute a. */
  predicate Supplied(a: AttrDesc, list: seq<AttrInfo>) {
    var j := Find(list, a.attrName);
    j < |list| && Usable(a, list[j])
  }

  predicate AllSupplied(schema: seq<AttrDesc>, list: seq<AttrInfo>, k: nat)
    requires k <= |schema|
  {
    forall i | 0 <= i < k :: Supplied(schema[i], list)
  }

  /** An attribute has a value if the list names it with one that is not NULL and has its type. */
  lemma {:induction false} SuppliedMeans(a: AttrDesc, list: seq<AttrInfo>)
    requires DistinctNames(list)
    ensures Supplied(a, list) <==>
      exists x :: x in list && x.attrName == a.attrName && x.attrValue.Value? && x.attrType == a.attrType
  {
    var at := Find(list, a.attrName);
    if at < |list| {
      assert list[at] in list;
    }
    if x :| x in list && x.attrName == a.attrName && x.attrValue.Value? && x.attrType == a.attrType {
      var j :| 0 <= j < |list| && list[j] == x;
      assert at == j;
    }
  }

  lemma {:induction false} AllSuppliedMeans(schema: seq<AttrDesc>, list: seq<AttrInfo>, k: nat)
    requires k <= |schema|
    ensures AllSupplied(schema, list, k) <==> forall a | a in schema[..k] :: Supplied(a, list)
  {
    if AllSupplied(schema, list, k) {
      forall a | a in schema[..k] ensures Supplied(a, list) {
        var i :| 0 <= i < k && schema[i] == a;
      }
    } else {
      var i :| 0 <= i < k && !Supplied(schema[i], list);
      assert schema[..k][i] == schema[i];
    }
  }

  /** As many bytes as the attribute has can be read from the pointer on.  For a short string this is more than
      the string: the code copies them whether they belong to it or not. */
  predicate LongEnough(schema: seq<AttrDesc>, list: seq<AttrInfo>) {
    forall i, j | 0 <= i < |schema| && 0 <= j < |list| ::
      list[j].attrName == schema[i].attrName && Usable(schema[i], list[j]) ==>
        0 <= schema[i].attrLen <= |list[j].attrValue.bytes|
  }

  /** The bytes the list has for attribute a. */
  function ValueOf(a: AttrDesc, list: seq<AttrInfo>): seq<byte> {
    var j := Find(list, a.attrName);
    if j < |list| && Usable(a, list[j]) && 0 <= a.attrLen <= |list[j].attrValue.bytes|
    then list[j].attrValue.bytes[..a.attrLen] else []
  }

  /** The values of the first k attributes of the schema. */
  function Values(schema: seq<AttrDesc>, list: seq<AttrInfo>, k: nat): seq<byte>
    requires k <= |schema|
  {
    if k == 0 then [] else Values(schema, list, k - 1) + ValueOf(schema[k - 1], list)
  }

  lemma {:induction false} ValuesWidth(schema: seq<AttrDesc>, list: seq<AttrInfo>, k: nat)
    requires k <= |schema| && AllSupplied(schema, list, k) && LongEnough(schema, list)
    ensures |Values(schema, list, k)| == Width(schema[..k])
  {
    if k > 0 {
      ValuesWidth(schema, list, k - 1);
      WidthUpTo(schema, k);
      assert Supplied(schema[k - 1], list);
    }
  }

  lemma {:induction false} ValueStands(schema: seq<AttrDesc>, list: seq<AttrInfo>, k: nat, i: nat)
    requires i < k <= |schema| && AllSupplied(schema, list, k) && LongEnough(schema, list)
    ensures StandsAt(Values(schema, list, k), Width(schema[..i]), ValueOf(schema[i], list))
    decreases k
  {
    var r, front, v := Values(schema, list, k), Values(schema, list, k - 1), ValueOf(schema[k - 1], list);
    if i < k - 1 {
      ValueStands(schema, list, k - 1, i);
      StandsStill(r, front, v, Width(schema[..i]), ValueOf(schema[i], list));
    } else {
      ValuesWidth(schema, list, k - 1);
      StandsLast(r, front, v, Width(schema[..i]));
    }
  }

  /** Insert then read: at its catalog offset each attribute has the value supplied for it, wherever
      in the list that was. */
  lemma {:induction false} InsertedField(schema: seq<AttrDesc>, list: seq<AttrInfo>, i: nat, j: nat)
    requires LaidOut(schema) && DistinctNames(list) && |list| == |schema|
    requires AllSupplied(schema, list, |schema|) && LongEnough(schema, list)
    requires i < |schema| && j < |list| && list[j].attrName == schema[i].attrName
    ensures list[j].attrValue.Value? && schema[i].attrLen <= |list[j].attrValue.bytes|
    ensures Field(Values(schema, list, |schema|), schema[i]) == list[j].attrValue.bytes[..schema[i].attrLen]
  {
    assert Supplied(schema[i], list) && Find(list, schema[i].attrName) == j && PlacedAt(schema, i);
    ValueStands(schema, list, |schema|, i);
  }

  /** A string is read back as the string it was, cut off at the length of its attribute, whatever was behind
      its NUL. */
  lemma {:induction false} InsertedString(schema: seq<AttrDesc>, list: seq<AttrInfo>, i: nat, j: nat)
    requires LaidOut(schema) && DistinctNames(list) && |list| == |schema|
    requires AllSupplied(schema, list, |schema|) && LongEnough(schema, list)
    requires i < |schema| && j < |list| && list[j].attrName == schema[i].attrName
    ensures list[j].attrValue.Value? && schema[i].attrLen >= 0
    ensures var n := schema[i].attrLen;
      CString(Field(Values(schema, list, |schema|), schema[i]), n) == CString(list[j].attrValue.bytes, n)
  {
    InsertedField(schema, list, i, j);
    CStringPrefix(list[j].attrValue.bytes, schema[i].attrLen, 0);
  }

  lemma {:induction false} OneMore(schema: seq<AttrDesc>, list: seq<AttrInfo>, k: nat)
    requires 1 <= k <= |schema|
    ensures AllSupplied(schema, list, k) <==> AllSupplied(schema, list, k - 1) && Supplied(schema[k - 1], list)
  {
    if AllSupplied(schema, list, k) {
      assert forall i | 0 <= i < k - 1 :: Supplied(schema[i], list);
    }
  }

  /** The order of the list does not matter. */
  lemma {:induction false} ListOrder(schema: seq<AttrDesc>, list: seq<AttrInfo>, other: seq<AttrInfo>, k: nat)
    requires k <= |schema| && DistinctNames(list) && DistinctNames(other) && forall x :: x in list <==> x in other
    ensures AllSupplied(schema, list, k) == AllSupplied(schema, other, k)
    ensures Values(schema, list, k) == Values(schema, other, k)
  {
    if k > 0 {
      ListOrder(schema, list, other, k - 1);
      SameElement(schema[k - 1], list, other);
      OneMore(schema, list, k);
      OneMore(schema, other, k);
    }
  }

  lemma {:induction false} SameElement(a: AttrDesc, list: seq<AttrInfo>, other: seq<AttrInfo>)
    requires DistinctNames(list) && DistinctNames(other) && forall x :: x in list <==> x in other
    ensures Supplied(a, list) == Supplied(a, other) && ValueOf(a, list) == ValueOf(a, other)
  {
    var i, j := Find(list, a.attrName), Find(other, a.attrName);
    if i < |list| {
      assert list[i] in other;
    }
    if j < |other| {
      assert other[j] in list;
    }
  }

  // ---- QU_Insert ----

  /** The output record holds the values of i attributes and behind them what was in the buffer before. */
  predicate BuiltTo(schema: seq<AttrDesc>, list: seq<AttrInfo>, i: nat, buffer: seq<byte>, before: seq<byte>,
      offset: int)
    requires i <= |schema|
  {
    var v := Values(schema, list, i);
    offset == |v| <= |before| && buffer == v + before[offset..]
  }

  lemma {:induction false} BuildOne(schema: seq<AttrDesc>, list: seq<AttrInfo>, i: nat, buffer: seq<byte>,
      before: seq<byte>, offset: nat)
    requires i < |schema| && BuiltTo(schema, list, i, buffer, before, offset)
    requires offset + |ValueOf(schema[i], list)| <= |before|
    ensures var v := ValueOf(schema[i], list);
      BuiltTo(schema, list, i + 1, Put(buffer, offset, v), before, offset + |v|)
  {}

  /** The room the next value takes is in the record. */
  lemma {:induction false} RoomFor(schema: seq<AttrDesc>, list: seq<AttrInfo>, i: nat)
    requires i < |schema| && AllSupplied(schema, list, i) && LongEnough(schema, list)
    requires forall a | a in schema :: a.attrLen >= 0
    ensures |Values(schema, list, i)| + schema[i].attrLen <= Width(schema)
  {
    ValuesWidth(schema, list, i);
    WidthGrows(schema, i + 1);
    assert schema[..i + 1][..i] == schema[..i];
  }

  /** The value of attribute i is copied into the record. */
  method PutValue(
      schema: seq<AttrDesc>, attrList: seq<AttrInfo>, i: nat, outputData: array<byte>, offset: nat,
      ghost before: seq<byte>)
    requires i < |schema| && Supplied(schema[i], attrList)
    requires BuiltTo(schema, attrList, i, outputData[..], before, offset)
    requires 0 <= schema[i].attrLen == |ValueOf(schema[i], attrList)| && offset + schema[i].attrLen <= |before|
    requires outputData.Length == |before|
    modifies outputData
    ensures BuiltTo(schema, attrList, i + 1, outputData[..], before, offset + schema[i].attrLen)
  {
    BuildOne(schema, attrList, i, outputData[..], before, offset);
    var j := Find(attrList, schema[i].attrName);
    MemCpy(outputData, offset, attrList[j].attrValue.bytes[..schema[i].attrLen]);
  }

  /** Looks attribute i of the schema up in the list and copies its value. */
  method AddValue(
      schema: seq<AttrDesc>, attrList: seq<AttrInfo>, i: nat, outputData: array<byte>, outputOffset: nat,
      ghost before: seq<byte>)
    returns (status: Status, next: nat)
    requires i < |schema| && DistinctNames(attrList) && LongEnough(schema, attrList)
    requires forall a | a in schema :: a.attrLen >= 0
    requires outputData.Length == |before| == Width(schema) && AllSupplied(schema, attrList, i)
    requires BuiltTo(schema, attrList, i, outputData[..], before, outputOffset)
    modifies outputData
    ensures status == if Supplied(schema[i], attrList) then OK else ATTRTYPEMISMATCH
    ensures status == OK ==> BuiltTo(schema, attrList, i + 1, outputData[..], before, next)
  {
    var ifMatch := false;
    next := outputOffset;
    var a := schema[i];
    ghost var at := Find(attrList, a.attrName);
    RoomFor(schema, attrList, i);
    var j := 0;
    while j < |attrList|
      invariant j <= |attrList| && ifMatch == (at < j) && outputData.Length == |before|
      invariant ifMatch ==> Supplied(a, attrList) && BuiltTo(schema, attrList, i + 1, outputData[..], before, next)
      invariant !ifMatch ==> next == outputOffset && outputData[..] == old(outputData[..])
    {
      if attrList[j].attrName == a.attrName {
        assert at == j;
        if attrList[j].attrValue == Null || attrList[j].attrType != a.attrType {
          return ATTRTYPEMISMATCH, next;
        }
        PutValue(schema, attrList, i, outputData, next, before);
        next := next + a.attrLen;
        ifMatch := true;
      }
      j := j + 1;
    }
    status := if ifMatch then OK else ATTRTYPEMISMATCH;
  }

  /** Builds the record of the values, in schema order. */
  method BuildRecord(schema: seq<AttrDesc>, attrList: seq<AttrInfo>, outputData: array<byte>) returns (status: Status)
    requires |attrList| <= |schema| && DistinctNames(attrList) && LongEnough(schema, attrList)
    requires (forall a | a in schema :: a.attrLen >= 0) && outputData.Length == Width(schema)
    modifies outputData
    ensures status == if AllSupplied(schema, attrList, |attrList|) then OK else ATTRTYPEMISMATCH
    ensures status == OK ==>
      BuiltTo(schema, attrList, |attrList|, outputData[..], old(outputData[..]), |Values(schema, attrList, |attrList|)|)
  {
    var outputOffset := 0;
    for i := 0 to |attrList|
      invariant outputOffset >= 0 && AllSupplied(schema, attrList, i)
      invariant BuiltTo(schema, attrList, i, outputData[..], old(outputData[..]), outputOffset)
    {
      status, outputOffset := AddValue(schema, attrList, i, outputData, outputOffset, old(outputData[..]));
      if status != OK {
        return;
      }
    }
    status := OK;
  }

  method AppendFirst(insertRel: InsertFileScan, rec: seq<byte>) returns (status: Status)
    requires insertRel.Valid()
    modifies insertRel, insertRel.store
    ensures insertRel.Valid() && insertRel.Conserved() && (status == OK <==> |rec| <= MAX_RECORD)
    ensures status == OK ==> Filled(insertRel.store, old(insertRel.store.Now()), [rec])
    ensures status != OK ==> insertRel.store.Records() == old(insertRel.store.Records())
  {
    FilledStart(insertRel.store);
    status := Append(insertRel, rec, insertRel.store.Now(), []);
    assert [] + [rec] == [rec];
  }

  /** The insertion, the relation being open. */
  method InsertValues(insertRel: InsertFileScan, schema: seq<AttrDesc>, attrList: seq<AttrInfo>, stack: seq<byte>)
    returns (status: Status, stopped: bool)
    requires insertRel.Valid()
    requires |attrList| <= |schema| && DistinctNames(attrList) && LongEnough(schema, attrList)
    requires (forall a | a in schema :: a.attrLen >= 0) && |stack| == Width(schema)
    modifies insertRel, insertRel.store
    ensures insertRel.Conserved() && insertRel.Valid()
    ensures stopped == (AllSupplied(schema, attrList, |attrList|) && Width(schema) > MAX_RECORD)
    ensures !stopped ==> status == if AllSupplied(schema, attrList, |attrList|) then OK else ATTRTYPEMISMATCH
    ensures !stopped && status == OK ==>
      var v := Values(schema, attrList, |attrList|);
      |v| <= |stack| && Filled(insertRel.store, old(insertRel.store.Now()), [v + stack[|v|..]])
    ensures !stopped && status != OK ==> insertRel.store.Now() == old(insertRel.store.Now())
    ensures stopped ==> insertRel.store.Records() == old(insertRel.store.Records())
  {
    var outputData := new byte[Width(schema)](k requires 0 <= k < |stack| => stack[k]);
    assert outputData[..] == stack;
    status := BuildRecord(schema, attrList, outputData);
    stopped := false;
    if status == OK {
      status := AppendFirst(insertRel, outputData[..]);
      stopped := status != OK;
    }
  }

  /** The insertion from the opening of the relation on.  `stack` is what the buffer happens to hold. */
  method OpenAndInsert(relation: HeapStore, schema: seq<AttrDesc>, attrList: seq<AttrInfo>, stack: seq<byte>)
    returns (status: Status, stopped: bool)
    requires relation.Valid() && Insertable(schema, attrList, stack)
    modifies relation
    ensures relation.Valid() && stopped == (AllSupplied(schema, attrList, |attrList|) && Width(schema) > MAX_RECORD)
    ensures !stopped ==> status == if AllSupplied(schema, attrList, |attrList|) then OK else ATTRTYPEMISMATCH
    ensures !stopped && status == OK ==>
      var v := Values(schema, attrList, |attrList|);
      |v| <= |stack| && Filled(relation, old(relation.Now()), [v + stack[|v|..]])
    ensures !stopped && status != OK ==> relation.Now() == old(relation.Now())
    ensures stopped ==> relation.Records() == old(relation.Records())
    ensures !stopped ==> forall n :: relation.pins[n] == old(relation.pins)[n]
  {
    var insertRel := new InsertFileScan(relation);
    label Opened:
    status, stopped := InsertValues(insertRel, schema, attrList, stack);
    if !stopped {
      label Inserted:
      insertRel.Destroy();
      forall n ensures relation.pins[n] == old(relation.pins)[n] {
        assert old@Inserted(insertRel.OtherPins(n)) == old@Opened(insertRel.OtherPins(n));
      }
    }
  }

  /** The schema of a relation as the catalog has it. */
  function SchemaOf(cat: seq<Entry>, relName: seq<byte>): seq<AttrDesc> {
    Map(DescOf, Pick(OfRelation(relName), cat))
  }

  /** What the code needs of its arrays. */
  ghost predicate Insertable(schema: seq<AttrDesc>, attrList: seq<AttrInfo>, stack: seq<byte>) {
    && |attrList| <= |schema| && DistinctNames(attrList) && LongEnough(schema, attrList)
    && (forall a | a in schema :: a.attrLen >= 0) && |stack| == Width(schema)
  }

  /** Inserts the values in the order of the schema, which comes from the catalog; the relation may be
      the catalog itself.  It succeeds exactly when the
      catalog has the relation, each of its first |attrList| attributes has a value of its type in the list, and a
      page can take records of the relation; if no page can, the assertion behind the insertion stops the
      program, with no record added.  `stack` is what the buffer happens to hold, and what a shorter list leaves in
      the record. */
  method QuInsert(
      relation: HeapStore, attrCat: HeapStore, relName: seq<byte>, attrList: seq<AttrInfo>, stack: seq<byte>)
    returns (status: Status, stopped: bool)
    requires relation.Valid() && NoNul(relName)
    requires attrCat.Valid() && attrCat.Counted() && IsCatalog(attrCat.Records())
    requires var schema := SchemaOf(attrCat.Records(), relName);
      relName != [] && schema != [] ==> Insertable(schema, attrList, stack)
    modifies relation, attrCat`pins, attrCat`unsaved
    ensures relation.Valid() && attrCat.Valid()
    ensures relation != attrCat || !stopped ==> forall n :: attrCat.pins[n] == old(attrCat.pins)[n]
    ensures var schema := SchemaOf(old(attrCat.Records()), relName);
      if relName == [] || schema == [] then
        && status == (if relName == [] then BADCATPARM else RELNOTFOUND) && !stopped
        && relation.Now() == old(relation.Now())
      else
        var supplied := AllSupplied(schema, attrList, |attrList|);
        && stopped == (supplied && Width(schema) > MAX_RECORD)
        && (stopped ==> relation.Records() == old(relation.Records()))
        && (!stopped && !supplied ==> status == ATTRTYPEMISMATCH && relation.Now() == old(relation.Now()))
        && (!stopped && supplied ==>
              var v := Values(schema, attrList, |attrList|);
              status == OK && |v| <= |stack| && Filled(relation, old(relation.Now()), [v + stack[|v|..]]))
    ensures !stopped ==> forall n :: relation.pins[n] == old(relation.pins)[n]
  {
    var schema;
    status, schema := GetRelInfo(attrCat, relName);
    stopped := false;
    if status == OK {
      status, stopped := OpenAndInsert(relation, schema, attrList, stack);
    }
  }
}
