/**
  Attribute descriptors and the layout of records.
 */
module Schema {
  import opened Bytes
  import opened Filters

  /** AttrDesc of the attribute catalog.  Names are the characters before the NUL. */
  datatype AttrDesc = AttrDesc(relName: seq<byte>, attrName: seq<byte>, attrOffset: int, attrType: Datatype,
      attrLen: int)

  /** The total length of some attributes. */
  function Width(attrs: seq<AttrDesc>): int {
    if attrs == [] then 0 else Width(attrs[..|attrs| - 1]) + attrs[|attrs| - 1].attrLen
  }

  predicate Within(rec: seq<byte>, a: AttrDesc) {
    0 <= a.attrOffset && 0 <= a.attrLen && a.attrOffset + a.attrLen <= |rec|
  }

  /** Every record of the relation is long enough for its attributes. */
  predicate AllWithin(rec: seq<byte>, attrs: seq<AttrDesc>) {
    forall a {:trigger Within(rec, a)} | a in attrs :: Within(rec, a)
  }

  /** The bytes of attribute a in a record. */
  function Field(rec: seq<byte>, a: AttrDesc): seq<byte> {
    if Within(rec, a) then rec[a.attrOffset..a.attrOffset + a.attrLen] else []
  }

  /** The fields of a record one after the other. */
  function Project(rec: seq<byte>, attrs: seq<AttrDesc>): seq<byte> {
    if attrs == [] then [] else Project(rec, attrs[..|attrs| - 1]) + Field(rec, attrs[|attrs| - 1])
  }

  lemma {:induction false} ProjectWidth(rec: seq<byte>, attrs: seq<AttrDesc>)
    requires AllWithin(rec, attrs)
    ensures |Project(rec, attrs)| == Width(attrs)
  {
    if attrs != [] {
      ProjectWidth(rec, attrs[..|attrs| - 1]);
    }
  }

  /** The width is the sum of the lengths. */
  lemma {:induction false} WidthUpTo(attrs: seq<AttrDesc>, k: nat)
    requires 1 <= k <= |attrs|
    ensures Width([]) == 0 && Width(attrs[..k]) == Width(attrs[..k - 1]) + attrs[k - 1].attrLen
  {
    var front := attrs[..k];
    assert front[..k - 1] == attrs[..k - 1] && front[k - 1] == attrs[k - 1];
  }

  lemma {:induction false} WidthGrows(attrs: seq<AttrDesc>, i: nat)
    requires i <= |attrs| && forall a | a in attrs :: a.attrLen >= 0
    ensures 0 <= Width(attrs[..i]) <= Width(attrs)
  {
    if i < |attrs| {
      var m := |attrs| - 1;
      assert attrs[..m][..i] == attrs[..i] && attrs[m] in attrs;
      WidthGrows(attrs[..m], i);
    } else {
      assert attrs[..i] == attrs;
      if i > 0 {
        assert attrs[i - 1] in attrs;
        WidthGrows(attrs[..i - 1], i - 1);
      }
    }
  }

  /** The bytes v stand at address `at`. */
  predicate StandsAt(r: seq<byte>, at: int, v: seq<byte>) {
    0 <= at && at + |v| <= |r| && r[at..at + |v|] == v
  }

  lemma {:induction false} StandsStill(r: seq<byte>, front: seq<byte>, s: seq<byte>, at: int, v: seq<byte>)
    requires r == front + s && StandsAt(front, at, v)
    ensures StandsAt(r, at, v)
  {
    assert r[at..at + |v|] == front[at..at + |v|];
  }

  lemma {:induction false} StandsLast(r: seq<byte>, front: seq<byte>, s: seq<byte>, at: int)
    requires r == front + s && at == |front|
    ensures StandsAt(r, at, s)
  {
    assert r[at..at + |s|] == s;
  }

  lemma {:induction false} ProjectLast(rec: seq<byte>, attrs: seq<AttrDesc>, m: nat)
    requires |attrs| == m + 1
    ensures Project(rec, attrs) == Project(rec, attrs[..m]) + Field(rec, attrs[m])
    ensures forall i | 0 <= i <= m :: attrs[..m][..i] == attrs[..i]
  {}

  /** Attribute i of a projection stands where the lengths before it add up to. */
  lemma {:induction false} ProjectField(rec: seq<byte>, attrs: seq<AttrDesc>, i: nat)
    requires AllWithin(rec, attrs) && i < |attrs|
    ensures StandsAt(Project(rec, attrs), Width(attrs[..i]), Field(rec, attrs[i]))
    decreases |attrs|
  {
    var m := |attrs| - 1;
    ProjectLast(rec, attrs, m);
    var r, front, at := Project(rec, attrs), attrs[..m], Width(attrs[..i]);
    if i < m {
      ProjectField(rec, front, i);
      StandsStill(r, Project(rec, front), Field(rec, attrs[m]), at, Field(rec, attrs[i]));
    } else {
      ProjectWidth(rec, front);
      StandsLast(r, Project(rec, front), Field(rec, attrs[m]), at);
    }
  }

  predicate PlacedAt(attrs: seq<AttrDesc>, i: nat)
    requires i < |attrs|
  {
    attrs[i].attrOffset == Width(attrs[..i]) && attrs[i].attrLen >= 0
  }

  /** The offsets of the attributes of a relation are the sums of the lengths before them. */
  ghost predicate LaidOut(attrs: seq<AttrDesc>) {
    forall i {:trigger PlacedAt(attrs, i)} | 0 <= i < |attrs| :: PlacedAt(attrs, i)
  }

  /** Every attribute lies within a record as wide as the schema. */
  lemma {:induction false} LaidOutWithin(attrs: seq<AttrDesc>, rec: seq<byte>)
    requires LaidOut(attrs) && |rec| == Width(attrs)
    ensures AllWithin(rec, attrs)
  {
    forall a | a in attrs ensures Within(rec, a) {
      var i :| 0 <= i < |attrs| && attrs[i] == a;
      forall b | b in attrs ensures b.attrLen >= 0 {
        var k :| 0 <= k < |attrs| && attrs[k] == b;
        assert PlacedAt(attrs, k);
      }
      assert PlacedAt(attrs, i);
      WidthGrows(attrs, i);
      WidthGrows(attrs, i + 1);
      assert attrs[..i + 1][..i] == attrs[..i];
    }
  }

  lemma {:induction false} PrefixStep(rec: seq<byte>, attrs: seq<AttrDesc>, i: nat)
    requires 1 <= i <= |attrs|
    ensures Project(rec, attrs[..i]) == Project(rec, attrs[..i - 1]) + Field(rec, attrs[i - 1])
    ensures Width(attrs[..i]) == Width(attrs[..i - 1]) + attrs[i - 1].attrLen
  {
    ProjectLast(rec, attrs[..i], i - 1);
    assert attrs[..i][..i - 1] == attrs[..i - 1];
  }

  lemma {:induction false} CutJoin(rec: seq<byte>, i: int, j: int, p: seq<byte>, q: seq<byte>)
    requires 0 <= i <= j <= |rec| && p == rec[..i] && q == p + rec[i..j]
    ensures q == rec[..j]
  {}

  lemma {:induction false} ProjectPrefix(rec: seq<byte>, attrs: seq<AttrDesc>, i: nat)
    requires LaidOut(attrs) && AllWithin(rec, attrs) && i <= |attrs|
    ensures 0 <= Width(attrs[..i]) <= |rec| && Project(rec, attrs[..i]) == rec[..Width(attrs[..i])]
  {
    if i > 0 {
      ProjectPrefix(rec, attrs, i - 1);
      var a := attrs[i - 1];
      assert Within(rec, a) && PlacedAt(attrs, i - 1);
      PrefixStep(rec, attrs, i);
      CutJoin(rec, a.attrOffset, a.attrOffset + a.attrLen, Project(rec, attrs[..i - 1]), Project(rec, attrs[..i]));
    }
  }

  /** Selecting all attributes in schema order copies a record unchanged. */
  lemma {:induction false} ProjectAll(rec: seq<byte>, attrs: seq<AttrDesc>)
    requires LaidOut(attrs) && |rec| == Width(attrs)
    ensures Project(rec, attrs) == rec
  {
    LaidOutWithin(attrs, rec);
    ProjectPrefix(rec, attrs, |attrs|);
    assert attrs[..|attrs|] == attrs;
  }
}

/** Copying bytes in place. */
module Memory {
  import opened Bytes

  /** memcpy(dst + at, src, |src|) */
  method MemCpy(dst: array<byte>, at: nat, src: seq<byte>)
    requires at + |src| <= dst.Length
    modifies dst
    ensures dst[..] == Put(old(dst[..]), at, src)
  {
    for k := 0 to |src|
      invariant forall i | 0 <= i < dst.Length ::
        dst[i] == if at <= i < at + k then src[i - at] else old(dst[i])
    {
      dst[at + k] := src[k];
    }
    assert dst[..] == Put(old(dst[..]), at, src);
  }
}
