/**
  The order external sorting works with, and merging as a function on lists.
 */
module MergeOrder {
  import opened Bytes
  import opened Floats
  import opened Filters

  type Rec = seq<byte>

  /** The sort attribute. */
  datatype SortKey = SortKey(offset: int, length: int, typ: Datatype) {

    /** What the constructor of SortedFile demands. */
    predicate Proper() {
      offset >= 0 && length >= 1 && (typ != STRING ==> length == 4)
    }

    /** The record is long enough. */
    predicate Within(r: Rec) { Proper() && offset + length <= |r| }

    /** And the attribute is not NaN. */
    predicate Has(r: Rec) { Within(r) && Numeric(typ, Of(r)) }

    /** The bytes of the attribute. */
    function Of(r: Rec): (f: seq<byte>)
      ensures Within(r) ==> |f| == length
    {
      if Within(r) then r[offset..offset + length] else []
    }
  }

  /** memcmp over the shorter of two lengths. */
  function MemCmp(a: seq<byte>, b: seq<byte>): int {
    if a == [] || b == [] then 0 else if a[0] != b[0] then a[0] as int - b[0] as int else MemCmp(a[1..], b[1..])
  }

  /** The difference as a float; that of two ints is computed in 32 bits first. */
  function KeyDiff(typ: Datatype, a: seq<byte>, b: seq<byte>): Difference
    requires Enough(typ, a) && Enough(typ, b)
  {
    match typ
    case INTEGER => Number(Rounded(Wrap32(GetInt(a, 0) - GetInt(b, 0))))
    case FLOAT => Minus(GetUInt(a, 0), GetUInt(b, 0))
    case STRING => Number(Rounded(MemCmp(a, b)))
  }

  /** What the processor makes of (int) NaN; C leaves it open. */
  const NAN_AS_INT := -0x8000_0000

  /** reccmp */
  function RecCmp(typ: Datatype, a: seq<byte>, b: seq<byte>): int
    requires Enough(typ, a) && Enough(typ, b)
  {
    match KeyDiff(typ, a, b)
    case Number(diff) => if diff < 0 then -1 else if diff > 0 then 1 else 0
    case NaN => NAN_AS_INT
  }

  predicate NotAbove(u: nat, v: nat) { !IsNaN(u) && !IsNaN(v) && Units(u) <= Units(v) }

  predicate FloatLe(u: nat, v: nat) {
    forall w {:trigger NotAbove(u, w)} | w == v :: NotAbove(u, w)
  }

  /** The order of attribute values; NaN has no place in it. */
  predicate KeyLe(typ: Datatype, a: seq<byte>, b: seq<byte>) {
    match typ
    case STRING => Lex(a, b) <= 0
    case INTEGER => |a| >= 4 && |b| >= 4 && GetInt(a, 0) <= GetInt(b, 0)
    case FLOAT => |a| >= 4 && |b| >= 4 && FloatLe(GetUInt(a, 0), GetUInt(b, 0))
  }

  lemma {:induction false} MemCmpIsLex(a: seq<byte>, b: seq<byte>)
    requires |a| == |b|
    ensures MemCmp(a, b) == Lex(a, b)
  {
    if a != [] && a[0] == b[0] {
      MemCmpIsLex(a[1..], b[1..]);
    }
  }

  /** Ints not too far apart, and floats that have a difference. */
  predicate Comparable(typ: Datatype, a: seq<byte>, b: seq<byte>)
    requires Enough(typ, a) && Enough(typ, b)
  {
    match typ
    case INTEGER => NoOverflow(a, b)
    case FLOAT => !Minus(GetUInt(a, 0), GetUInt(b, 0)).NaN?
    case STRING => true
  }

  /** What a comparison should answer: which of two keys is below the other. */
  predicate Tells(typ: Datatype, answer: int, a: seq<byte>, b: seq<byte>) {
    && (answer > 0 <==> KeyLe(typ, b, a) && !KeyLe(typ, a, b))
    && (answer < 0 <==> KeyLe(typ, a, b) && !KeyLe(typ, b, a))
  }

  lemma {:induction false} IntKeys(a: seq<byte>, b: seq<byte>)
    requires |a| >= 4 && |b| >= 4
    ensures Tells(INTEGER, RecCmp(INTEGER, a, b), a, b) <==> NoOverflow(a, b)
  {
    var d := GetInt(a, 0) - GetInt(b, 0);
    WrapSign(d);
    RoundedSign(Wrap32(d));
  }

  lemma {:induction false} FloatKeys(a: seq<byte>, b: seq<byte>)
    requires |a| >= 4 && |b| >= 4
    ensures Tells(FLOAT, RecCmp(FLOAT, a, b), a, b) <==> Comparable(FLOAT, a, b)
  {
    var u, v := GetUInt(a, 0), GetUInt(b, 0);
    RoundedSign(Units(u) - Units(v));
    assert FloatLe(u, v) == NotAbove(u, v) && FloatLe(v, u) == NotAbove(v, u);
  }

  lemma {:induction false} StringKeys(a: seq<byte>, b: seq<byte>)
    requires |a| == |b|
    ensures Tells(STRING, RecCmp(STRING, a, b), a, b)
  {
    MemCmpIsLex(a, b);
    LexZero(a, b);
    RoundedSign(MemCmp(a, b));
  }

  /** reccmp tells which key is below the other exactly if their difference does not overflow and is not NaN. */
  lemma {:induction false} RecCmpMeaning(typ: Datatype, a: seq<byte>, b: seq<byte>)
    requires Enough(typ, a) && Enough(typ, b) && |a| == |b|
    ensures Tells(typ, RecCmp(typ, a, b), a, b) <==> Comparable(typ, a, b)
  {
    match typ
    case INTEGER => IntKeys(a, b);
    case FLOAT => FloatKeys(a, b);
    case STRING => StringKeys(a, b);
  }

  lemma {:induction false} LexTransitive(a: seq<byte>, b: seq<byte>, c: seq<byte>)
    requires Lex(a, b) <= 0 && Lex(b, c) <= 0
    ensures Lex(a, c) <= 0
  {
    if a != [] && b != [] && c != [] && a[0] == b[0] == c[0] {
      LexTransitive(a[1..], b[1..], c[1..]);
    }
  }

  lemma {:induction false} KeyTransitive(typ: Datatype, a: seq<byte>, b: seq<byte>, c: seq<byte>)
    requires KeyLe(typ, a, b) && KeyLe(typ, b, c)
    ensures KeyLe(typ, a, c)
  {
    match typ
    case STRING =>
      LexTransitive(a, b, c);
    case FLOAT =>
      var u, v, w := GetUInt(a, 0), GetUInt(b, 0), GetUInt(c, 0);
      assert NotAbove(u, v) && NotAbove(v, w);
    case INTEGER =>
  }

  /** A key that is not NaN. */
  predicate Numeric(typ: Datatype, a: seq<byte>) {
    Enough(typ, a) && (typ == FLOAT ==> !IsNaN(GetUInt(a, 0)))
  }

  lemma {:induction false} KeyTotal(typ: Datatype, a: seq<byte>, b: seq<byte>)
    requires Numeric(typ, a) && Numeric(typ, b)
    ensures KeyLe(typ, a, b) || KeyLe(typ, b, a)
  {
    LexZero(a, b);
    if typ == FLOAT {
      var u, v := GetUInt(a, 0), GetUInt(b, 0);
      assert NotAbove(u, v) || NotAbove(v, u);
    }
  }

  /** reccmp never puts a record above itself, though it does not find an infinity equal to itself. */
  lemma {:induction false} NotAboveItself(typ: Datatype, a: seq<byte>)
    requires Numeric(typ, a)
    ensures RecCmp(typ, a, a) <= 0 && KeyLe(typ, a, a)
  {
    KeyTotal(typ, a, a);
    if typ == STRING {
      LexZero(a, a);
      MemCmpIsLex(a, a);
      RoundedSign(0);
    }
    RoundedSign(0);
  }

  /** Records are ordered by their attribute. */
  predicate Le(k: SortKey, a: Rec, b: Rec) { KeyLe(k.typ, k.Of(a), k.Of(b)) }

  lemma {:induction false} LeTransitive(k: SortKey, a: Rec, b: Rec, c: Rec)
    requires Le(k, a, b) && Le(k, b, c)
    ensures Le(k, a, c)
  {
    KeyTransitive(k.typ, k.Of(a), k.Of(b), k.Of(c));
  }

  lemma {:induction false} LeTotal(k: SortKey, a: Rec, b: Rec)
    requires k.Has(a) && k.Has(b)
    ensures Le(k, a, b) || Le(k, b, a)
  {
    KeyTotal(k.typ, k.Of(a), k.Of(b));
  }

  ghost predicate Sorted(k: SortKey, s: seq<Rec>) {
    forall i, j {:trigger Le(k, s[i], s[j])} | 0 <= i <= j < |s| :: Le(k, s[i], s[j])
  }

  /** Both records have the attribute, and their attributes can be compared. */
  predicate Apart(k: SortKey, a: Rec, b: Rec) {
    k.Has(a) && k.Has(b) && Comparable(k.typ, k.Of(a), k.Of(b))
  }

  // ---- The order on the records' bytes ----

  /** In dictionary order the first byte that differs decides. */
  lemma {:induction false} LexFirst(a: seq<byte>, b: seq<byte>, m: nat)
    requires |a| == |b| && m < |a| && Lex(a, b) <= 0 && forall p | 0 <= p < m :: a[p] == b[p]
    ensures a[m] <= b[m]
  {
    if m > 0 {
      assert a[0] == b[0];
      forall p | 0 <= p < m - 1 ensures a[1..][p] == b[1..][p] {
        assert a[p + 1] == b[p + 1];
      }
      LexFirst(a[1..], b[1..], m - 1);
    }
  }

  lemma {:induction false} IntOrder(k: SortKey, a: Rec, b: Rec)
    requires k.Has(a) && k.Has(b) && Le(k, a, b) && k.typ == INTEGER
    ensures GetInt(a, k.offset) <= GetInt(b, k.offset)
  {
    assert GetInt(k.Of(a), 0) == GetInt(a, k.offset) && GetInt(k.Of(b), 0) == GetInt(b, k.offset);
  }

  lemma {:induction false} FloatOrder(k: SortKey, a: Rec, b: Rec)
    requires k.Has(a) && k.Has(b) && Le(k, a, b) && k.typ == FLOAT
    ensures var u, v := GetUInt(a, k.offset), GetUInt(b, k.offset);
      u == v || (u == 0x8000_0000 && v == 0) || (u == 0 && v == 0x8000_0000)
      || if u < 0x8000_0000 && v < 0x8000_0000 then u < v
         else if u >= 0x8000_0000 && v >= 0x8000_0000 then v < u
         else u >= 0x8000_0000
  {
    var u, v := GetUInt(a, k.offset), GetUInt(b, k.offset);
    assert GetUInt(k.Of(a), 0) == u && GetUInt(k.Of(b), 0) == v;
    assert FloatLe(u, v) ==> NotAbove(u, v);
    UnitsOrder(u, v);
  }

  lemma {:induction false} StringOrder(k: SortKey, a: Rec, b: Rec, m: nat)
    requires k.Has(a) && k.Has(b) && Le(k, a, b) && k.typ == STRING
    requires k.offset <= m < k.offset + k.length && a[k.offset..m] == b[k.offset..m]
    ensures a[m] <= b[m]
  {
    forall p | 0 <= p < m - k.offset ensures k.Of(a)[p] == k.Of(b)[p] {
      assert a[k.offset..m][p] == b[k.offset..m][p];
    }
    LexFirst(k.Of(a), k.Of(b), m - k.offset);
  }

  /** Two records in order, on their bytes: the attribute is where it should be, and goes up, as a number, as a float
      by its sign and bits, or byte by byte. */
  lemma {:induction false} OrderMeans(offset: int, length: int, typ: Datatype, a: Rec, b: Rec)
    requires var k := SortKey(offset, length, typ); k.Has(a) && k.Has(b) && Le(k, a, b)
    ensures 0 <= offset && 1 <= length && (typ != STRING ==> length == 4)
    ensures offset + length <= |a| && offset + length <= |b|
    ensures typ == INTEGER ==> GetInt(a, offset) <= GetInt(b, offset)
    ensures typ == FLOAT ==>
      var u, v := GetUInt(a, offset), GetUInt(b, offset);
      u == v || (u == 0x8000_0000 && v == 0) || (u == 0 && v == 0x8000_0000)
      || if u < 0x8000_0000 && v < 0x8000_0000 then u < v
         else if u >= 0x8000_0000 && v >= 0x8000_0000 then v < u
         else u >= 0x8000_0000
    ensures typ == STRING ==>
      forall m {:trigger a[m]} | offset <= m < offset + length && a[offset..m] == b[offset..m] :: a[m] <= b[m]
  {
    var k := SortKey(offset, length, typ);
    match typ
    case INTEGER => IntOrder(k, a, b);
    case FLOAT => FloatOrder(k, a, b);
    case STRING =>
      forall m {:trigger a[m]} | offset <= m < offset + length && a[offset..m] == b[offset..m] ensures a[m] <= b[m] {
        StringOrder(k, a, b, m);
      }
  }

  lemma {:induction false} PermutedHave(k: SortKey, out: seq<Rec>, recs: seq<Rec>)
    requires AllHave(k, recs) && multiset(out) == multiset(recs)
    ensures AllHave(k, out)
  {
    forall i | 0 <= i < |out| ensures k.Has(out[i]) {
      assert out[i] in multiset(recs);
      assert out[i] in recs;
    }
  }

  /** A sorted list, on the bytes of its records. */
  lemma {:induction false} SortedMeans(offset: int, length: int, typ: Datatype, out: seq<Rec>)
    requires var k := SortKey(offset, length, typ); k.Proper() && AllHave(k, out) && Sorted(k, out)
    ensures forall r | r in out :: offset + length <= |r|
    ensures typ == INTEGER ==> forall i, j | 0 <= i <= j < |out| :: GetInt(out[i], offset) <= GetInt(out[j], offset)
    ensures typ == FLOAT ==>
      forall i, j | 0 <= i <= j < |out| ::
        var u, v := GetUInt(out[i], offset), GetUInt(out[j], offset);
        u == v || (u == 0x8000_0000 && v == 0) || (u == 0 && v == 0x8000_0000)
        || if u < 0x8000_0000 && v < 0x8000_0000 then u < v
           else if u >= 0x8000_0000 && v >= 0x8000_0000 then v < u
           else u >= 0x8000_0000
    ensures typ == STRING ==>
      forall i, j, m {:trigger out[i][m], out[j][m]} | 0 <= i <= j < |out| && offset <= m < offset + length ::
        out[i][offset..m] == out[j][offset..m] ==> out[i][m] <= out[j][m]
  {
    var k := SortKey(offset, length, typ);
    if typ == INTEGER {
      forall i, j | 0 <= i <= j < |out| ensures GetInt(out[i], offset) <= GetInt(out[j], offset) {
        OrderMeans(offset, length, typ, out[i], out[j]);
      }
    } else if typ == FLOAT {
      SortedFloats(offset, out);
    } else {
      forall i, j, m {:trigger out[i][m], out[j][m]} | 0 <= i <= j < |out| && offset <= m < offset + length
        ensures out[i][offset..m] == out[j][offset..m] ==> out[i][m] <= out[j][m]
      {
        OrderMeans(offset, length, typ, out[i], out[j]);
      }
    }
  }

  lemma {:induction false} SortedFloats(offset: int, out: seq<Rec>)
    requires var k := SortKey(offset, 4, FLOAT); k.Proper() && AllHave(k, out) && Sorted(k, out)
    ensures forall i, j | 0 <= i <= j < |out| ::
      var u, v := GetUInt(out[i], offset), GetUInt(out[j], offset);
      u == v || (u == 0x8000_0000 && v == 0) || (u == 0 && v == 0x8000_0000)
      || if u < 0x8000_0000 && v < 0x8000_0000 then u < v
         else if u >= 0x8000_0000 && v >= 0x8000_0000 then v < u
         else u >= 0x8000_0000
  {
    forall i, j | 0 <= i <= j < |out|
      ensures var u, v := GetUInt(out[i], offset), GetUInt(out[j], offset);
        u == v || (u == 0x8000_0000 && v == 0) || (u == 0 && v == 0x8000_0000)
        || if u < 0x8000_0000 && v < 0x8000_0000 then u < v
           else if u >= 0x8000_0000 && v >= 0x8000_0000 then v < u
           else u >= 0x8000_0000
    {
      OrderMeans(offset, 4, FLOAT, out[i], out[j]);
    }
  }

  // ---- Merging ----

  /** Among the first i runs, the one with the smallest head, the first of those if there are several;
      -1 if all are empty. */
  function Smallest(k: SortKey, runs: seq<seq<Rec>>, i: nat): (s: int)
    requires i <= |runs|
    ensures -1 <= s < i && (s >= 0 ==> runs[s] != [])
  {
    if i == 0 then -1
    else
      var s := Smallest(k, runs, i - 1);
      if runs[i - 1] == [] then s
      else if s < 0 || !Le(k, runs[s][0], runs[i - 1][0]) then i - 1
      else s
  }

  function Total(runs: seq<seq<Rec>>): nat {
    if runs == [] then 0 else Total(runs[..|runs| - 1]) + |runs[|runs| - 1]|
  }

  lemma {:induction false} TotalDrop(runs: seq<seq<Rec>>, s: nat, t: seq<Rec>)
    requires s < |runs|
    ensures Total(runs[s := t]) == Total(runs) - |runs[s]| + |t|
  {
    var m := |runs| - 1;
    if s < m {
      TotalDrop(runs[..m], s, t);
      assert runs[s := t][..m] == runs[..m][s := t];
    } else {
      assert runs[s := t][..m] == runs[..m];
    }
  }

  function Pop(runs: seq<seq<Rec>>, s: nat): seq<seq<Rec>>
    requires s < |runs| && runs[s] != []
  {
    runs[s := runs[s][1..]]
  }

  /** The records in the order in which next() hands them out. */
  ghost function MergeOut(k: SortKey, runs: seq<seq<Rec>>): seq<Rec>
    decreases Total(runs)
  {
    var s := Smallest(k, runs, |runs|);
    if s < 0 then [] else (TotalDrop(runs, s, runs[s][1..]); [runs[s][0]] + MergeOut(k, Pop(runs, s)))
  }

  // ---- What merging gives ----

  predicate AllHave(k: SortKey, s: seq<Rec>) { forall i | 0 <= i < |s| :: k.Has(s[i]) }

  /** One run: its records have the attribute and are in order. */
  ghost predicate RunOk(k: SortKey, s: seq<Rec>) { AllHave(k, s) && Sorted(k, s) }

  ghost predicate RunsOk(k: SortKey, runs: seq<seq<Rec>>) {
    forall i {:trigger RunOk(k, runs[i])} | 0 <= i < |runs| :: RunOk(k, runs[i])
  }

  /** The head of run s is a smallest one among the first i runs. */
  lemma {:induction false} SmallestIsLeast(k: SortKey, runs: seq<seq<Rec>>, i: nat, j: nat)
    requires RunsOk(k, runs) && j < i <= |runs| && runs[j] != []
    ensures var s := Smallest(k, runs, i); s >= 0 && Le(k, runs[s][0], runs[j][0])
    ensures var s := Smallest(k, runs, i); j < s ==> !Le(k, runs[j][0], runs[s][0])
  {
    assert RunOk(k, runs[i - 1]) && RunOk(k, runs[j]);
    var s := Smallest(k, runs, i - 1);
    if j < i - 1 {
      SmallestIsLeast(k, runs, i - 1, j);
      assert RunOk(k, runs[s]);
      if runs[i - 1] != [] {
        LeTotal(k, runs[s][0], runs[i - 1][0]);
        if Le(k, runs[i - 1][0], runs[s][0]) {
          LeTransitive(k, runs[i - 1][0], runs[s][0], runs[j][0]);
        }
        if Le(k, runs[j][0], runs[i - 1][0]) && !Le(k, runs[s][0], runs[i - 1][0]) {
          LeTransitive(k, runs[s][0], runs[j][0], runs[i - 1][0]);
        }
      }
    } else {
      LeTotal(k, runs[j][0], runs[j][0]);
      if s >= 0 {
        assert RunOk(k, runs[s]);
      }
    }
  }

  ghost predicate Below(k: SortKey, x: Rec, s: seq<Rec>) {
    forall i {:trigger s[i]} | 0 <= i < |s| :: Le(k, x, s[i])
  }

  ghost predicate BelowAll(k: SortKey, x: Rec, runs: seq<seq<Rec>>) {
    forall i {:trigger Below(k, x, runs[i])} | 0 <= i < |runs| :: Below(k, x, runs[i])
  }

  /** The record handed out is not above any that is left. */
  lemma {:induction false} HeadBelow(k: SortKey, runs: seq<seq<Rec>>)
    requires RunsOk(k, runs) && Smallest(k, runs, |runs|) >= 0
    ensures BelowAll(k, runs[Smallest(k, runs, |runs|)][0], runs)
  {
    var s := Smallest(k, runs, |runs|);
    var x := runs[s][0];
    forall i {:trigger Below(k, x, runs[i])} | 0 <= i < |runs| ensures Below(k, x, runs[i]) {
      assert RunOk(k, runs[i]);
      forall j | 0 <= j < |runs[i]| ensures Le(k, x, runs[i][j]) {
        SmallestIsLeast(k, runs, |runs|, i);
        assert Le(k, runs[i][0], runs[i][j]);
        LeTransitive(k, x, runs[i][0], runs[i][j]);
      }
    }
  }

  lemma {:induction false} PopOk(k: SortKey, runs: seq<seq<Rec>>, s: nat)
    requires RunsOk(k, runs) && s < |runs| && runs[s] != []
    ensures RunsOk(k, Pop(runs, s)) && forall x :: BelowAll(k, x, runs) ==> BelowAll(k, x, Pop(runs, s))
  {
    var p := Pop(runs, s);
    forall i {:trigger RunOk(k, p[i])} | 0 <= i < |p| ensures RunOk(k, p[i]) {
      assert RunOk(k, runs[i]);
      if i == s {
        forall a, b | 0 <= a <= b < |p[s]| ensures Le(k, p[s][a], p[s][b]) {
          assert Le(k, runs[s][a + 1], runs[s][b + 1]);
        }
      }
    }
    forall x | BelowAll(k, x, runs) ensures BelowAll(k, x, p) {
      forall i {:trigger Below(k, x, p[i])} | 0 <= i < |p| ensures Below(k, x, p[i]) {
        assert Below(k, x, runs[i]);
      }
    }
  }

  /** Merging sorted runs gives a sorted list. */
  lemma {:induction false} MergeSorted(k: SortKey, runs: seq<seq<Rec>>)
    requires RunsOk(k, runs)
    ensures Sorted(k, MergeOut(k, runs)) && forall x :: BelowAll(k, x, runs) ==> Below(k, x, MergeOut(k, runs))
    decreases Total(runs)
  {
    var s := Smallest(k, runs, |runs|);
    if s >= 0 {
      TotalDrop(runs, s, runs[s][1..]);
      HeadBelow(k, runs);
      PopOk(k, runs, s);
      MergeSorted(k, Pop(runs, s));
      var head, rest := runs[s][0], MergeOut(k, Pop(runs, s));
      assert RunOk(k, runs[s]);
      LeTotal(k, head, head);
      SortedCons(k, head, rest);
      forall x | BelowAll(k, x, runs) ensures Below(k, x, MergeOut(k, runs)) {
        assert Below(k, x, runs[s]) && Below(k, x, rest);
      }
    }
  }

  lemma {:induction false} SortedCons(k: SortKey, x: Rec, s: seq<Rec>)
    requires Le(k, x, x) && Below(k, x, s) && Sorted(k, s)
    ensures Sorted(k, [x] + s)
  {
    var t := [x] + s;
    forall i, j {:trigger Le(k, t[i], t[j])} | 0 <= i <= j < |t| ensures Le(k, t[i], t[j]) {
      if i > 0 {
        assert Le(k, s[i - 1], s[j - 1]);
      } else if j > 0 {
        assert t[j] == s[j - 1];
      }
    }
  }

  /** All records of the runs. */
  ghost function AllOf(runs: seq<seq<Rec>>): multiset<Rec> {
    if runs == [] then multiset{} else AllOf(runs[..|runs| - 1]) + multiset(runs[|runs| - 1])
  }

  lemma {:induction false} AllOfPop(runs: seq<seq<Rec>>, s: nat)
    requires s < |runs| && runs[s] != []
    ensures AllOf(runs) == AllOf(Pop(runs, s)) + multiset{runs[s][0]}
  {
    var m := |runs| - 1;
    if s < m {
      AllOfPop(runs[..m], s);
      assert Pop(runs, s)[..m] == Pop(runs[..m], s);
    } else {
      assert Pop(runs, s)[..m] == runs[..m];
      assert runs[s] == [runs[s][0]] + runs[s][1..];
    }
  }

  lemma {:induction false} NoneLeft(k: SortKey, runs: seq<seq<Rec>>)
    requires Smallest(k, runs, |runs|) < 0
    ensures AllOf(runs) == multiset{}
    decreases |runs|
  {
    if runs != [] {
      var m := |runs| - 1;
      SmallestFront(k, runs, m);
      NoneLeft(k, runs[..m]);
    }
  }

  lemma {:induction false} SmallestFront(k: SortKey, runs: seq<seq<Rec>>, i: nat)
    requires i < |runs|
    ensures Smallest(k, runs[..|runs| - 1], i) == Smallest(k, runs, i)
    decreases i
  {
    if i > 0 {
      SmallestFront(k, runs, i - 1);
    }
  }

  /** It hands out every record once. */
  lemma {:induction false} MergePermutes(k: SortKey, runs: seq<seq<Rec>>)
    ensures multiset(MergeOut(k, runs)) == AllOf(runs)
    decreases Total(runs)
  {
    var s := Smallest(k, runs, |runs|);
    if s >= 0 {
      TotalDrop(runs, s, runs[s][1..]);
      MergePermutes(k, Pop(runs, s));
      AllOfPop(runs, s);
    } else {
      NoneLeft(k, runs);
    }
  }
}
