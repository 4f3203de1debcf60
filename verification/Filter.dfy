/**
  The predicate of a filtered scan (matchRec) and what it means.
 */
module Filters {
  import opened Bytes
  import opened Floats

  datatype Datatype = STRING | INTEGER | FLOAT
  datatype Operator = LT | LTE | EQ | GTE | GT | NE

  /** `value` is the memory the filter pointer leads to. */
  datatype Filter = NoFilter | Filter(offset: int, length: int, typ: Datatype, value: seq<byte>, op: Operator)

  function CharAt(s: seq<byte>, i: nat): byte {
    if i < |s| then s[i] else 0
  }

  /** strncmp: bytes as unsigned characters, up to a NUL or n of them. */
  function StrnCmp(a: seq<byte>, b: seq<byte>, n: nat, i: nat := 0): int
    decreases n - i
  {
    if i >= n then 0
    else if CharAt(a, i) != CharAt(b, i) then CharAt(a, i) as int - CharAt(b, i) as int
    else if CharAt(a, i) == 0 then 0
    else StrnCmp(a, b, n, i + 1)
  }

  predicate Enough(typ: Datatype, b: seq<byte>) {
    typ == STRING || |b| >= 4
  }

  /** `diff`, of type float: negative, zero or positive as attribute a is below, at or above b.  The difference
      of two ints is computed in 32 bits before it becomes a float. */
  function AttrDiff(typ: Datatype, a: seq<byte>, b: seq<byte>, n: nat): Difference
    requires Enough(typ, a) && Enough(typ, b)
  {
    match typ
    case INTEGER => Number(Rounded(Wrap32(GetInt(a, 0) - GetInt(b, 0))))
    case FLOAT => Minus(GetUInt(a, 0), GetUInt(b, 0))
    case STRING => Number(Rounded(StrnCmp(a, b, n)))
  }

  /** What an operator asks about a difference. */
  predicate Asks(op: Operator, diff: int) {
    match op
    case LT => diff < 0
    case LTE => diff <= 0
    case EQ => diff == 0
    case GTE => diff >= 0
    case GT => diff > 0
    case NE => diff != 0
  }

  /** NaN is different from 0, and neither below nor above it. */
  predicate Compare(op: Operator, diff: Difference) {
    match diff
    case Number(n) => Asks(op, n)
    case NaN => op == NE
  }

  predicate Asked(op: Operator, typ: Datatype, a: seq<byte>, b: seq<byte>, n: nat)
    requires Enough(typ, a) && Enough(typ, b)
  {
    Compare(op, AttrDiff(typ, a, b, n))
  }

  /** The comparison of attribute a with value b comes out as the operator asks. */
  predicate Passes(op: Operator, typ: Datatype, a: seq<byte>, b: seq<byte>, n: nat)
    requires Enough(typ, a) && Enough(typ, b)
  {
    forall o {:trigger Asked(o, typ, a, b, n)} | o == op :: Asked(o, typ, a, b, n)
  }

  /** What startScan demands of a filter, the value being long enough for its type. */
  predicate Usable(f: Filter) {
    f.Filter? ==> f.offset >= 0 && f.length >= 1 && (f.typ != STRING ==> f.length == 4 && |f.value| >= 4)
  }

  predicate MatchRec(f: Filter, rec: seq<byte>)
    requires Usable(f)
  {
    match f
    case NoFilter => true
    case Filter(offset, length, typ, value, op) =>
      if offset + length - 1 >= |rec| then false
      else Passes(op, typ, rec[offset..offset + length], value, length)
  }

  // ---- What the comparisons mean ----

  /** The operator of the outer scan as the inner scan's filter needs it. */
  function Flip(op: Operator): Operator {
    match op
    case EQ => EQ
    case GT => LT
    case GTE => LTE
    case LT => GT
    case LTE => GTE
    case NE => NE
  }

  predicate Sharp(op: Operator) { op != EQ && op != NE }

  /** A difference of two ints that overflows gets the opposite sign. */
  lemma {:induction false} WrapSign(d: int)
    requires -0x1_0000_0000 < d < 0x1_0000_0000
    ensures if -0x8000_0000 <= d < 0x8000_0000 then Wrap32(d) == d else d < 0 < Wrap32(d) || Wrap32(d) < 0 < d
  {}

  /** Comparing ints by their 32-bit difference is right unless the difference overflows
      and the operator asks for an order: exactly then the answer is the opposite one. */
  lemma {:induction false} IntCompare(op: Operator, a: int, b: int)
    requires -0x8000_0000 <= a < 0x8000_0000 && -0x8000_0000 <= b < 0x8000_0000
    ensures Asks(op, Rounded(Wrap32(a - b))) == Asks(op, a - b)
            <==> !Sharp(op) || -0x8000_0000 <= a - b < 0x8000_0000
    ensures Asks(Flip(op), b - a) == Asks(op, a - b)
  {
    WrapSign(a - b);
    RoundedSign(Wrap32(a - b));
  }

  /** The characters before the first NUL, at most n. */
  function CString(s: seq<byte>, n: nat, i: nat := 0): seq<byte>
    decreases n - i
  {
    if i >= n || CharAt(s, i) == 0 then [] else [CharAt(s, i)] + CString(s, n, i + 1)
  }

  /** Dictionary order: negative, zero or positive. */
  function Lex(a: seq<byte>, b: seq<byte>): int {
    if a == [] || b == [] then |a| - |b|
    else if a[0] != b[0] then a[0] as int - b[0] as int
    else Lex(a[1..], b[1..])
  }

  lemma {:induction false} LexZero(a: seq<byte>, b: seq<byte>)
    ensures Lex(a, b) == 0 <==> a == b
    ensures Lex(a, b) == 0 - Lex(b, a)
  {
    if a != [] && b != [] {
      LexZero(a[1..], b[1..]);
      assert a == [a[0]] + a[1..] && b == [b[0]] + b[1..];
    }
  }

  /** strncmp orders C strings as a dictionary does, whatever follows their NULs. */
  lemma {:induction false} StrnCmpIsLex(a: seq<byte>, b: seq<byte>, n: nat, i: nat)
    ensures SameSign(StrnCmp(a, b, n, i), Lex(CString(a, n, i), CString(b, n, i)))
    decreases n - i
  {
    if i < n && CharAt(a, i) == CharAt(b, i) && CharAt(a, i) != 0 {
      StrnCmpIsLex(a, b, n, i + 1);
      var s, t := CString(a, n, i), CString(b, n, i);
      assert s[1..] == CString(a, n, i + 1) && t[1..] == CString(b, n, i + 1);
    }
  }

  /** The order an attribute type promises: of numbers, of strings, and of the values of floats, among which
      an infinity is equal to itself and NaN is equal to nothing. */
  function Order(typ: Datatype, a: seq<byte>, b: seq<byte>, n: nat): Difference
    requires Enough(typ, a) && Enough(typ, b)
  {
    match typ
    case INTEGER => Number(GetInt(a, 0) - GetInt(b, 0))
    case FLOAT =>
      var u, v := GetUInt(a, 0), GetUInt(b, 0);
      if IsNaN(u) || IsNaN(v) then NaN else Number(Units(u) - Units(v))
    case STRING => Number(Lex(CString(a, n), CString(b, n)))
  }

  /** No two ints are further apart than their difference can say. */
  predicate NoOverflow(a: seq<byte>, b: seq<byte>)
    requires |a| >= 4 && |b| >= 4
  {
    -0x8000_0000 <= GetInt(a, 0) - GetInt(b, 0) < 0x8000_0000
  }

  /** Ints that are asked for their order are not too far apart, and floats that are asked whether they are
      equal are not the same infinity. */
  predicate Comparison(op: Operator, typ: Datatype, a: seq<byte>, b: seq<byte>)
    requires Enough(typ, a) && Enough(typ, b)
  {
    match typ
    case INTEGER => !Sharp(op) || NoOverflow(a, b)
    case FLOAT => op == LT || op == GT || !SameInfinity(GetUInt(a, 0), GetUInt(b, 0))
    case STRING => true
  }

  /** The comparison a scan makes is the one its operator names, except for an ordering of two ints whose
      difference overflows, and for an infinity that should be equal to itself. */
  lemma {:induction false} CompareMeaning(op: Operator, typ: Datatype, a: seq<byte>, b: seq<byte>, n: nat)
    requires Enough(typ, a) && Enough(typ, b)
    ensures Passes(op, typ, a, b, n) == Compare(op, Order(typ, a, b, n)) <==> Comparison(op, typ, a, b)
  {
    assert Asked(op, typ, a, b, n) == Compare(op, AttrDiff(typ, a, b, n));
    match typ
    case INTEGER =>
      IntCompare(op, GetInt(a, 0), GetInt(b, 0));
    case FLOAT =>
      RoundedSign(Units(GetUInt(a, 0)) - Units(GetUInt(b, 0)));
    case STRING =>
      StrnCmpIsLex(a, b, n, 0);
      RoundedSign(StrnCmp(a, b, n));
  }

  // ---- Operator by operator ----

  /** What each operator selects among ints: if their difference does not overflow, what it says; and otherwise
      the opposite order. */
  lemma {:induction false} IntPasses(a: seq<byte>, b: seq<byte>, n: nat)
    requires |a| >= 4 && |b| >= 4
    ensures var x, y := GetInt(a, 0), GetInt(b, 0);
      && (Passes(EQ, INTEGER, a, b, n) <==> x == y)
      && (Passes(NE, INTEGER, a, b, n) <==> x != y)
      && (-0x8000_0000 <= x - y < 0x8000_0000 ==>
            && (Passes(LT, INTEGER, a, b, n) <==> x < y)
            && (Passes(LTE, INTEGER, a, b, n) <==> x <= y)
            && (Passes(GTE, INTEGER, a, b, n) <==> x >= y)
            && (Passes(GT, INTEGER, a, b, n) <==> x > y))
      && (!(-0x8000_0000 <= x - y < 0x8000_0000) ==>
            && (Passes(LT, INTEGER, a, b, n) <==> x > y) && (Passes(LTE, INTEGER, a, b, n) <==> x > y)
            && (Passes(GT, INTEGER, a, b, n) <==> x < y) && (Passes(GTE, INTEGER, a, b, n) <==> x < y))
  {
    var d := GetInt(a, 0) - GetInt(b, 0);
    WrapSign(d);
    RoundedSign(Wrap32(d));
    forall op ensures Passes(op, INTEGER, a, b, n) == Asked(op, INTEGER, a, b, n) {}
  }

  /** What each operator selects among floats, by their bits: nothing but NE if one of them is NaN or both are the
      same infinity, and else the order of their values. */
  lemma {:induction false} FloatPasses(a: seq<byte>, b: seq<byte>, n: nat)
    requires |a| >= 4 && |b| >= 4
    ensures var u, v := GetUInt(a, 0), GetUInt(b, 0);
      var below := if u < 0x8000_0000 && v < 0x8000_0000 then u < v
                   else if u >= 0x8000_0000 && v >= 0x8000_0000 then v < u
                   else u >= 0x8000_0000 && (u != 0x8000_0000 || v != 0);
      var same := u == v || (u in {0, 0x8000_0000} && v in {0, 0x8000_0000});
      if u % 0x8000_0000 > 0x7F80_0000 || v % 0x8000_0000 > 0x7F80_0000 || (u == v && u % 0x8000_0000 == 0x7F80_0000)
      then forall op :: Passes(op, FLOAT, a, b, n) <==> op == NE
      else
        && (Passes(LT, FLOAT, a, b, n) <==> below) && (Passes(LTE, FLOAT, a, b, n) <==> below || same)
        && (Passes(EQ, FLOAT, a, b, n) <==> same) && (Passes(NE, FLOAT, a, b, n) <==> !same)
        && (Passes(GT, FLOAT, a, b, n) <==> !below && !same) && (Passes(GTE, FLOAT, a, b, n) <==> !below)
  {
    var u, v := GetUInt(a, 0), GetUInt(b, 0);
    NaNBits(u);
    NaNBits(v);
    UnitsOrder(u, v);
    RoundedSign(Units(u) - Units(v));
    forall op ensures Passes(op, FLOAT, a, b, n) == Asked(op, FLOAT, a, b, n) {}
  }

  /** Two C strings, of n characters at most, differ first at character k. */
  ghost predicate DifferAt(a: seq<byte>, b: seq<byte>, n: nat, k: int) {
    && 0 <= k < n && CharAt(a, k) != CharAt(b, k)
    && forall i | 0 <= i < k :: CharAt(a, i) == CharAt(b, i) && CharAt(a, i) != 0
  }

  lemma {:induction false} StrnCmpDiffers(a: seq<byte>, b: seq<byte>, n: nat, i: nat)
    requires forall m | 0 <= m < i :: CharAt(a, m) == CharAt(b, m) && CharAt(a, m) != 0
    ensures StrnCmp(a, b, n, i) == 0 ==> forall k :: !DifferAt(a, b, n, k)
    ensures StrnCmp(a, b, n, i) != 0 ==>
      exists k :: DifferAt(a, b, n, k) && StrnCmp(a, b, n, i) == CharAt(a, k) as int - CharAt(b, k) as int
    decreases n - i
  {
    if i < n {
      if CharAt(a, i) != CharAt(b, i) {
        assert DifferAt(a, b, n, i);
      } else if CharAt(a, i) != 0 {
        StrnCmpDiffers(a, b, n, i + 1);
      }
    }
  }

  lemma {:induction false} OneDifference(a: seq<byte>, b: seq<byte>, n: nat, j: int, k: int)
    requires DifferAt(a, b, n, j) && DifferAt(a, b, n, k)
    ensures j == k
  {}

  /** What each operator selects among strings: they are equal if they do not differ before their NULs, and else the
      first character they differ in decides. */
  lemma {:induction false} StringPasses(a: seq<byte>, b: seq<byte>, n: nat)
    ensures var equal := forall k :: !DifferAt(a, b, n, k);
      (Passes(EQ, STRING, a, b, n) <==> equal) && (Passes(NE, STRING, a, b, n) <==> !equal)
    ensures (forall k :: !DifferAt(a, b, n, k)) ==>
      && Passes(LTE, STRING, a, b, n) && Passes(GTE, STRING, a, b, n)
      && !Passes(LT, STRING, a, b, n) && !Passes(GT, STRING, a, b, n)
    ensures forall k | DifferAt(a, b, n, k) ::
      && (Passes(LT, STRING, a, b, n) <==> CharAt(a, k) < CharAt(b, k))
      && (Passes(LTE, STRING, a, b, n) <==> CharAt(a, k) < CharAt(b, k))
      && (Passes(GT, STRING, a, b, n) <==> CharAt(a, k) > CharAt(b, k))
      && (Passes(GTE, STRING, a, b, n) <==> CharAt(a, k) > CharAt(b, k))
  {
    StrnCmpDiffers(a, b, n, 0);
    RoundedSign(StrnCmp(a, b, n));
    forall op ensures Passes(op, STRING, a, b, n) == Asked(op, STRING, a, b, n) {}
    if j :| DifferAt(a, b, n, j) && StrnCmp(a, b, n) == CharAt(a, j) as int - CharAt(b, j) as int {
      forall k | DifferAt(a, b, n, k) ensures k == j {
        OneDifference(a, b, n, j, k);
      }
    }
  }

  /** A filter looks at the attribute at its offset, and at no record too short to have it. */
  lemma {:induction false} MatchAttribute(
      rec: seq<byte>, offset: int, length: int, typ: Datatype, value: seq<byte>, op: Operator)
    requires offset >= 0 && length >= 1 && (typ != STRING ==> length == 4 && |value| >= 4)
    ensures MatchRec(NoFilter, rec)
    ensures MatchRec(Filter(offset, length, typ, value, op), rec) <==>
      offset + length <= |rec| && Passes(op, typ, rec[offset..offset + length], value, length)
  {}

  /** Which records a filter on an int attribute selects. */
  lemma {:induction false} MatchInt(rec: seq<byte>, offset: nat, value: seq<byte>)
    requires |value| >= 4
    requires offset + 4 <= |rec| ==> -0x8000_0000 <= GetInt(rec, offset) - GetInt(value, 0) < 0x8000_0000
    ensures var has := offset + 4 <= |rec|;
      && (MatchRec(Filter(offset, 4, INTEGER, value, LT), rec) <==> has && GetInt(rec, offset) < GetInt(value, 0))
      && (MatchRec(Filter(offset, 4, INTEGER, value, LTE), rec) <==> has && GetInt(rec, offset) <= GetInt(value, 0))
      && (MatchRec(Filter(offset, 4, INTEGER, value, EQ), rec) <==> has && GetInt(rec, offset) == GetInt(value, 0))
      && (MatchRec(Filter(offset, 4, INTEGER, value, GTE), rec) <==> has && GetInt(rec, offset) >= GetInt(value, 0))
      && (MatchRec(Filter(offset, 4, INTEGER, value, GT), rec) <==> has && GetInt(rec, offset) > GetInt(value, 0))
      && (MatchRec(Filter(offset, 4, INTEGER, value, NE), rec) <==> has && GetInt(rec, offset) != GetInt(value, 0))
  {
    if offset + 4 <= |rec| {
      assert GetInt(rec[offset..offset + 4], 0) == GetInt(rec, offset);
      IntPasses(rec[offset..offset + 4], value, 4);
    }
  }

  const INFINITY: seq<byte> := [0x00, 0x00, 0x80, 0x7F]

  /** A scan for records with a value of infinity finds none of them, and one for all others finds them. */
  lemma {:induction false} InfinityMissed()
    ensures !Passes(EQ, FLOAT, INFINITY, INFINITY, 4) && Compare(EQ, Order(FLOAT, INFINITY, INFINITY, 4))
    ensures Passes(NE, FLOAT, INFINITY, INFINITY, 4) && !Compare(NE, Order(FLOAT, INFINITY, INFINITY, 4))
  {
    assert GetUInt(INFINITY, 0) == 0x7F80_0000;
    assert !Asked(EQ, FLOAT, INFINITY, INFINITY, 4) && Asked(NE, FLOAT, INFINITY, INFINITY, 4);
  }

  /** Swapping the sides and flipping the operator asks the same question. */
  lemma {:induction false} FlipMeaning(op: Operator, typ: Datatype, a: seq<byte>, b: seq<byte>, n: nat)
    requires Enough(typ, a) && Enough(typ, b)
    ensures Compare(Flip(op), Order(typ, b, a, n)) == Compare(op, Order(typ, a, b, n))
  {
    if typ == STRING {
      LexZero(CString(a, n), CString(b, n));
    }
  }

  /** Comparisons read no further than the length of the attribute. */
  lemma {:induction false} CStringPrefix(s: seq<byte>, n: nat, i: nat)
    requires n <= |s|
    ensures CString(s, n, i) == CString(s[..n], n, i)
    decreases n - i
  {
    if i < n && CharAt(s, i) != 0 {
      CStringPrefix(s, n, i + 1);
    }
  }

  lemma {:induction false} OrderPrefix(typ: Datatype, a: seq<byte>, b: seq<byte>, n: nat)
    requires Enough(typ, a) && n <= |b| && (typ != STRING ==> n == 4)
    ensures Order(typ, a, b, n) == Order(typ, a, b[..n], n)
    ensures forall op :: Comparison(op, typ, a, b) == Comparison(op, typ, a, b[..n])
  {
    CStringPrefix(b, n, 0);
  }
}
