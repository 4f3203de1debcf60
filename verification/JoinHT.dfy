/**
  The hash table of the hash join (joinHT.C).
 */
module JoinHashTable {
  import opened Bytes
  import opened Errors
  import opened Floats
  import opened Sequences
  import opened Filters
  import opened Schema
  import opened HeapSpec

  /** A key with the RID of its record.  For a string the key is the bytes of the attribute. */
  datatype Pair = Pair(key: seq<byte>, rid: RID)

  /** joinhashBucket: the nodes of a chain are not changed once they are made. */
  datatype Chain = Nil | Bucket(pair: Pair, next: Chain)

  datatype HTEntry = HTEntry(bucketCnt: int, chain: Chain)

  function Length(c: Chain): nat {
    if c.Nil? then 0 else 1 + Length(c.next)
  }

  function Pairs(c: Chain): (s: seq<Pair>)
    ensures |s| == Length(c)
  {
    if c.Nil? then [] else [c.pair] + Pairs(c.next)
  }

  /** char is signed. */
  function CharValue(b: byte): int {
    if b < 128 then b as int else b as int - 256
  }

  /** The loop over the characters of a string: it leaves the first one out and takes the NUL in. */
  function HashString(m: seq<byte>, i: nat, value: int): int
    decreases |m| - i
  {
    if CharAt(m, i) == 0 then value else HashString(m, i + 1, Wrap32(31 * value + CharValue(CharAt(m, i + 1))))
  }

  /** value % size in C, which has the sign of value, without the sign. */
  function AbsRem(value: int, size: int): (r: int)
    requires size >= 1
    ensures 0 <= r < size
  {
    (if value < 0 then -value else value) % size
  }

  /** What the processor makes of (int) f if f is NaN or no int; C leaves it open. */
  const NO_INT := -0x8000_0000

  /** (int) of a value in units of the smallest float: what is behind the point is dropped. */
  function ToInt(units: int): int {
    var n := if units < 0 then 0 - (0 - units) / Pow2(149) else units / Pow2(149);
    if -0x8000_0000 <= n < 0x8000_0000 then n else NO_INT
  }

  /** (int) (f * size * 31), in float arithmetic. */
  function FloatProduct(u: nat, size: int): int {
    if IsNaN(u) then NO_INT else ToInt(Rounded(Rounded(Units(u) * Rounded(size)) * 31))
  }

  /** The hash value of the attribute that starts at the beginning of m. */
  function Hash(typ: Datatype, m: seq<byte>, size: int): (h: int)
    requires size >= 1 && Enough(typ, m)
    ensures 0 <= h < size
  {
    var value := match typ
      case INTEGER => Wrap32(GetInt(m, 0) * size * 31)
      case FLOAT => FloatProduct(GetUInt(m, 0), size)
      case STRING => HashString(m, 0, 0);
    AbsRem(value, size)
  }

  /** As long as the product does not overflow, every integer has hash value 0. */
  lemma {:induction false} IntegersCollide(m: seq<byte>, size: int)
    requires size >= 1 && |m| >= 4 && -0x8000_0000 <= GetInt(m, 0) * size * 31 < 0x8000_0000
    ensures Hash(INTEGER, m, size) == 0
  {
    HashOfProduct(GetInt(m, 0), size);
  }

  lemma {:induction false} HashOfProduct(v: int, size: int)
    requires size >= 1
    ensures AbsRem(v * size * 31, size) == 0
  {
    var n := if v >= 0 then v * 31 else -v * 31;
    Multiple(n, size);
    Reorder(v, size);
  }

  lemma {:induction false} Reorder(v: int, size: int)
    ensures v * size * 31 == v * 31 * size && -(v * size * 31) == -v * 31 * size
  {}

  lemma {:induction false} Multiple(n: nat, size: int)
    requires size >= 1
    ensures n * size % size == 0
  {
    var q := n * size / size;
    assert (n - q) * size == n * size % size;
    Steps(n - q, size);
  }

  lemma {:induction false} Steps(d: int, size: int)
    requires size >= 1
    ensures (d >= 1 ==> d * size >= size) && (d <= -1 ==> d * size <= -size)
  {}

  /** A string that ends within the attribute. */
  predicate Ends(m: seq<byte>, n: nat) {
    exists i :: 0 <= i < n && i < |m| && m[i] == 0
  }

  /** A value the table can take for an attribute. */
  predicate IsKey(a: AttrDesc, m: seq<byte>) {
    && a.attrLen >= 1 && |m| >= a.attrLen && (a.attrType != STRING ==> a.attrLen == 4)
    && (a.attrType == STRING ==> Ends(m, a.attrLen))
  }

  /** Two zeros are equal, NaN is equal to nothing. */
  predicate SameFloat(u: nat, v: nat) { !IsNaN(u) && !IsNaN(v) && Units(u) == Units(v) }

  /** The comparison lookup makes. */
  predicate SameKey(a: AttrDesc, x: seq<byte>, y: seq<byte>)
    requires Enough(a.attrType, x) && Enough(a.attrType, y) && a.attrLen >= 0
  {
    match a.attrType
    case INTEGER => GetInt(x, 0) == GetInt(y, 0)
    case FLOAT => SameFloat(GetUInt(x, 0), GetUInt(y, 0))
    case STRING => StrnCmp(x, y, a.attrLen) == 0
  }

  lemma {:induction false} EqualStrings(x: seq<byte>, y: seq<byte>, n: nat, i: nat, value: int)
    requires StrnCmp(x, y, n, i) == 0 && i <= n && Ends(x, n) && forall k | 0 <= k < i && k < |x| :: x[k] != 0
    ensures HashString(x, i, value) == HashString(y, i, value)
    decreases n - i
  {
    assert i < n;
    if CharAt(x, i) != 0 {
      var k :| 0 <= k < n && k < |x| && x[k] == 0;
      assert i + 1 <= k;
      assert StrnCmp(x, y, n, i + 1) == 0;
      assert CharAt(x, i + 1) == CharAt(y, i + 1);
      EqualStrings(x, y, n, i + 1, Wrap32(31 * value + CharValue(CharAt(x, i + 1))));
    }
  }

  /** Equal keys hash alike; strings must end within the attribute for that. */
  lemma {:induction false} EqualKeys(a: AttrDesc, x: seq<byte>, y: seq<byte>, size: int)
    requires IsKey(a, x) && IsKey(a, y) && size >= 1 && SameKey(a, x, y)
    ensures Hash(a.attrType, x, size) == Hash(a.attrType, y, size)
  {
    if a.attrType == STRING {
      EqualStrings(x, y, a.attrLen, 0, 0);
    }
  }

  /** A string that goes on behind its attribute can have another hash value than an equal key. */
  lemma {:induction false} UnendedStrings()
    ensures var a := AttrDesc([], [], 0, STRING, 1);
      SameKey(a, [65, 65, 0], [65, 0]) && Hash(STRING, [65, 65, 0], 7) != Hash(STRING, [65, 0], 7)
  {
    var x: seq<byte>, y: seq<byte> := [65, 65, 0], [65, 0];
    OneChar(x, y);
    HashOfTwo(x);
    HashOfOne(y);
    assert AbsRem(2015, 7) == 6 && AbsRem(0, 7) == 0;
  }

  lemma {:induction false} OneChar(x: seq<byte>, y: seq<byte>)
    requires CharAt(x, 0) == CharAt(y, 0) == 65
    ensures StrnCmp(x, y, 1) == 0
  {
    assert StrnCmp(x, y, 1, 1) == 0;
  }

  lemma {:induction false} HashOfTwo(x: seq<byte>)
    requires CharAt(x, 0) == CharAt(x, 1) == 65 && CharAt(x, 2) == 0
    ensures HashString(x, 0, 0) == 2015
  {
    assert HashString(x, 2, 2015) == 2015;
    assert HashString(x, 1, 65) == HashString(x, 2, 2015);
  }

  lemma {:induction false} HashOfOne(y: seq<byte>)
    requires CharAt(y, 0) == 65 && CharAt(y, 1) == 0
    ensures HashString(y, 0, 0) == 0
  {
    assert HashString(y, 1, 0) == 0;
  }

  // ---- The table ----

  /** The pairs that belong on chain b. */
  ghost function OnChain(a: AttrDesc, size: int, b: int): Pair -> bool
    requires size >= 1
  {
    (p: Pair) => IsKey(a, p.key) && Hash(a.attrType, p.key, size) == b
  }

  /** The pairs with an equal key. */
  function WithKey(a: AttrDesc, m: seq<byte>): Pair -> bool {
    (p: Pair) => IsKey(a, p.key) && IsKey(a, m) && SameKey(a, p.key, m)
  }

  function RidOf(p: Pair): RID { p.rid }

  class JoinHashTbl {
    const joinAttr: AttrDesc
    const HTSIZE: int
    const ht: array<HTEntry>
    ghost var log: seq<Pair>     // everything inserted, newest first

    /** Chain b holds what was inserted under its hash value, newest first, and bucketCnt is its length. */
    ghost predicate ChainOk(b: int)
      requires HTSIZE >= 1 && 0 <= b < ht.Length
      reads this, ht
    {
      Pairs(ht[b].chain) == Pick(OnChain(joinAttr, HTSIZE, b), log) && ht[b].bucketCnt == Length(ht[b].chain)
    }

    ghost predicate Valid()
      reads this, ht
    {
      && HTSIZE >= 1 && ht.Length == HTSIZE
      && (forall p {:trigger IsKey(joinAttr, p.key)} | p in log :: IsKey(joinAttr, p.key))
      && forall b {:trigger ChainOk(b)} | 0 <= b < ht.Length :: ChainOk(b)
    }

    constructor (size: int, attr: AttrDesc)
      requires size >= 1
      ensures Valid() && log == [] && HTSIZE == size && joinAttr == attr && fresh(ht)
    {
      HTSIZE, joinAttr := size, attr;
      ht := new HTEntry[size](i => HTEntry(0, Nil));
      log := [];
    }

    /** Puts a pair at the front of its chain. */
    method Insert(newRid: RID, tuple: seq<byte>) returns (status: Status)
      requires Valid() && 0 <= joinAttr.attrOffset <= |tuple| && IsKey(joinAttr, tuple[joinAttr.attrOffset..])
      modifies this, ht
      ensures Valid() && status == OK
      ensures log == [Pair(tuple[joinAttr.attrOffset..][..joinAttr.attrLen], newRid)] + old(log)
    {
      var attrPtr := tuple[joinAttr.attrOffset..];
      KeyBytes(joinAttr, attrPtr, HTSIZE);
      var index := Hash(joinAttr.attrType, attrPtr, HTSIZE);
      var p := Pair(attrPtr[..joinAttr.attrLen], newRid);
      assert ChainOk(index);
      ht[index] := HTEntry(ht[index].bucketCnt + 1, Bucket(p, ht[index].chain));
      log := [p] + log;
      forall b {:trigger ChainOk(b)} | 0 <= b < ht.Length ensures ChainOk(b) {
        assert old(ChainOk(b));
        assert log[1..] == old(log);
      }
      return OK;
    }

    /** The RIDs inserted under an equal key, newest first, in an array as long as the chain. */
    method Lookup(attrPtr: seq<byte>) returns (status: Status, ridCnt: int, outRids: array<RID>)
      requires Valid() && IsKey(joinAttr, attrPtr)
      ensures status == OK && fresh(outRids) && 0 <= ridCnt <= outRids.Length
      ensures outRids[..ridCnt] == Map(RidOf, Pick(WithKey(joinAttr, attrPtr), log))
    {
      ridCnt := 0;
      var index := Hash(joinAttr.attrType, attrPtr, HTSIZE);
      assert ChainOk(index);
      var tmpBuc := ht[index].chain;
      outRids := new RID[ht[index].bucketCnt](i => NULLRID);
      ghost var done: seq<Pair> := [];
      while tmpBuc.Bucket?
        invariant done + Pairs(tmpBuc) == Pairs(ht[index].chain)
        invariant 0 <= ridCnt <= |done| && |done| + Length(tmpBuc) == outRids.Length
        invariant outRids[..ridCnt] == Map(RidOf, Pick(WithKey(joinAttr, attrPtr), done))
        decreases tmpBuc
      {
        ChainStep(joinAttr, attrPtr, HTSIZE, index, log, done, tmpBuc.pair, Pairs(tmpBuc.next));
        if SameKey(joinAttr, tmpBuc.pair.key, attrPtr) {
          outRids[ridCnt] := tmpBuc.pair.rid;
          ridCnt := ridCnt + 1;
        }
        done := done + [tmpBuc.pair];
        tmpBuc := tmpBuc.next;
      }
      FoundAll(joinAttr, attrPtr, HTSIZE, log);
      assert done + [] == done;
      status := OK;
    }
  }

  /** Which keys are equal: ints that are, floats that have the same bits or are both a zero, but no NaN, and strings
      that do not differ before their NULs. */
  lemma {:induction false} SameKeyMeans(a: AttrDesc, x: seq<byte>, y: seq<byte>)
    requires IsKey(a, x) && IsKey(a, y)
    ensures SameKey(a, x, y) <==>
      match a.attrType
      case INTEGER => GetInt(x, 0) == GetInt(y, 0)
      case FLOAT =>
        var u, v := GetUInt(x, 0), GetUInt(y, 0);
        && u % 0x8000_0000 <= 0x7F80_0000 && v % 0x8000_0000 <= 0x7F80_0000
        && (u == v || (u in {0, 0x8000_0000} && v in {0, 0x8000_0000}))
      case STRING => CString(x, a.attrLen) == CString(y, a.attrLen)
  {
    if a.attrType == FLOAT {
      SameFloatMeans(GetUInt(x, 0), GetUInt(y, 0));
    } else if a.attrType == STRING {
      StrnCmpIsLex(x, y, a.attrLen, 0);
      LexZero(CString(x, a.attrLen), CString(y, a.attrLen));
    }
  }

  lemma {:induction false} SameFloatMeans(u: nat, v: nat)
    requires u < 0x1_0000_0000 && v < 0x1_0000_0000
    ensures SameFloat(u, v) <==>
      && u % 0x8000_0000 <= 0x7F80_0000 && v % 0x8000_0000 <= 0x7F80_0000
      && (u == v || (u in {0, 0x8000_0000} && v in {0, 0x8000_0000}))
  {
    NaNBits(u);
    NaNBits(v);
    UnitsOrder(u, v);
  }

  /** What lookup answers: element t is the RID of the pair at[t] of the log, and these are all pairs with an equal key
      in their order. */
  lemma {:induction false} LookupFinds(a: AttrDesc, m: seq<byte>, log: seq<Pair>, rids: seq<RID>) returns (at: seq<int>)
    requires IsKey(a, m) && forall p | p in log :: IsKey(a, p.key)
    requires rids == Map(RidOf, Pick(WithKey(a, m), log))
    ensures |at| == |rids|
    ensures forall t {:trigger at[t]} | 0 <= t < |at| :: 0 <= at[t] < |log| && rids[t] == log[at[t]].rid
    ensures forall t, u | 0 <= t < u < |at| :: at[t] < at[u]
    ensures forall i | 0 <= i < |log| :: IsKey(a, log[i].key) && (SameKey(a, log[i].key, m) <==> i in at)
  {
    at := PickIndexes(WithKey(a, m), log);
    forall t {:trigger at[t]} | 0 <= t < |at| ensures rids[t] == log[at[t]].rid {
      MapIndex(RidOf, Pick(WithKey(a, m), log), t);
    }
    forall i | 0 <= i < |log| ensures IsKey(a, log[i].key) && (SameKey(a, log[i].key, m) <==> i in at) {
      assert log[i] in log;
      if i in at {
        var t :| 0 <= t < |at| && at[t] == i;
        assert WithKey(a, m)(log[at[t]]);
      } else {
        assert !WithKey(a, m)(log[i]);
      }
    }
  }

  /** One more pair of the chain was looked at. */
  lemma {:induction false} ChainStep(
      a: AttrDesc, m: seq<byte>, size: int, index: int, log: seq<Pair>, done: seq<Pair>, p: Pair, rest: seq<Pair>)
    requires IsKey(a, m) && size >= 1 && done + ([p] + rest) == Pick(OnChain(a, size, index), log)
    ensures IsKey(a, p.key) && (done + [p]) + rest == Pick(OnChain(a, size, index), log)
    ensures var rids := Map(RidOf, Pick(WithKey(a, m), done));
      Map(RidOf, Pick(WithKey(a, m), done + [p])) == if SameKey(a, p.key, m) then rids + [p.rid] else rids
  {
    assert p in done + ([p] + rest);
    PickIn(OnChain(a, size, index), log, p);
    PickOne(WithKey(a, m), done, p);
    MapOne(RidOf, Pick(WithKey(a, m), done), p);
    Regroup(done, [p], rest);
  }

  /** The stored bytes are a key, with the hash value of the attribute they come from. */
  lemma {:induction false} KeyBytes(a: AttrDesc, m: seq<byte>, size: int)
    requires IsKey(a, m) && size >= 1
    ensures IsKey(a, m[..a.attrLen]) && Hash(a.attrType, m[..a.attrLen], size) == Hash(a.attrType, m, size)
  {
    if a.attrType == STRING {
      var i :| 0 <= i < a.attrLen && i < |m| && m[i] == 0;
      assert m[..a.attrLen][i] == 0;
      SameBytes(m, a.attrLen, 0);
      EqualKeys(a, m, m[..a.attrLen], size);
    }
  }

  lemma {:induction false} SameBytes(m: seq<byte>, n: nat, i: nat)
    requires n <= |m|
    ensures StrnCmp(m, m[..n], n, i) == 0
    decreases n - i
  {
    if i < n {
      SameBytes(m, n, i + 1);
    }
  }

  /** Every pair with an equal key is on the chain that is searched. */
  lemma {:induction false} FoundAll(a: AttrDesc, m: seq<byte>, size: int, log: seq<Pair>)
    requires IsKey(a, m) && size >= 1
    ensures Pick(WithKey(a, m), Pick(OnChain(a, size, Hash(a.attrType, m, size)), log)) == Pick(WithKey(a, m), log)
  {
    var b := Hash(a.attrType, m, size);
    forall p | p in log && WithKey(a, m)(p) ensures OnChain(a, size, b)(p) {
      EqualKeys(a, p.key, m, size);
    }
    PickPick(WithKey(a, m), OnChain(a, size, b), log);
  }
}
