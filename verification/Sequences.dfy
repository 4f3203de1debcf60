/** Picking and mapping the elements of a list. */
module Sequences {

  function Pick<T>(p: T -> bool, s: seq<T>): (r: seq<T>)
    ensures |r| <= |s|
  {
    if s == [] then [] else (if p(s[0]) then [s[0]] else []) + Pick(p, s[1..])
  }

  function Not<T>(p: T -> bool): T -> bool {
    x => !p(x)
  }

  lemma {:induction false} Regroup<T>(a: seq<T>, b: seq<T>, c: seq<T>)
    ensures (a + b) + c == a + (b + c)
  {}

  lemma {:induction false} PickPlus<T>(p: T -> bool, a: seq<T>, b: seq<T>)
    ensures Pick(p, a + b) == Pick(p, a) + Pick(p, b)
  {
    if a == [] {
      assert a + b == b;
    } else {
      assert (a + b)[1..] == a[1..] + b;
      PickPlus(p, a[1..], b);
      Regroup(if p(a[0]) then [a[0]] else [], Pick(p, a[1..]), Pick(p, b));
    }
  }

  lemma {:induction false} PickOne<T>(p: T -> bool, s: seq<T>, x: T)
    ensures Pick(p, s + [x]) == if p(x) then Pick(p, s) + [x] else Pick(p, s)
  {
    PickPlus(p, s, [x]);
  }

  /** Where the elements picked stand in the list. */
  lemma {:induction false} PickIndexes<T>(p: T -> bool, s: seq<T>) returns (at: seq<int>)
    ensures |at| == |Pick(p, s)|
    ensures forall t {:trigger at[t]} | 0 <= t < |at| :: 0 <= at[t] < |s| && s[at[t]] == Pick(p, s)[t] && p(s[at[t]])
    ensures forall t, u | 0 <= t < u < |at| :: at[t] < at[u]
    ensures forall i | 0 <= i < |s| && p(s[i]) :: i in at
  {
    at := [];
    if s != [] {
      var n := |s| - 1;
      var front := PickIndexes(p, s[..n]);
      PickPlus(p, s[..n], [s[n]]);
      assert s == s[..n] + [s[n]];
      assert Pick(p, [s[n]]) == if p(s[n]) then [s[n]] else [] by {
        assert [s[n]][1..] == [];
      }
      at := if p(s[n]) then front + [n] else front;
      forall i | 0 <= i < |s| && p(s[i]) ensures i in at {
        if i < n {
          assert s[..n][i] == s[i] && i in front;
        } else {
          assert at[|front|] == n;
        }
      }
    }
  }

  lemma {:induction false} PickNone<T>(p: T -> bool, s: seq<T>)
    ensures Pick(p, s) == [] <==> forall x | x in s :: !p(x)
  {
    if s != [] {
      PickNone(p, s[1..]);
      assert forall x :: x in s <==> x == s[0] || x in s[1..];
    }
  }

  lemma {:induction false} PickAll<T>(p: T -> bool, s: seq<T>)
    requires forall x | x in s :: p(x)
    ensures Pick(p, s) == s
  {
    if s != [] {
      PickAll(p, s[1..]);
      assert s == [s[0]] + s[1..];
    }
  }

  /** Picking from what was picked before, by a weaker condition. */
  lemma {:induction false} PickPick<T>(p: T -> bool, q: T -> bool, s: seq<T>)
    requires forall x | x in s :: p(x) ==> q(x)
    ensures Pick(p, Pick(q, s)) == Pick(p, s)
  {
    if s != [] {
      PickPick(p, q, s[1..]);
      assert s[0] in s;
      if q(s[0]) {
        assert Pick(q, s)[0] == s[0] && Pick(q, s)[1..] == Pick(q, s[1..]);
      } else {
        assert Pick(q, s) == Pick(q, s[1..]);
      }
    }
  }

  /** What is picked and what is not make up the list. */
  lemma {:induction false} PickSplits<T>(p: T -> bool, s: seq<T>)
    ensures |Pick(p, s)| + |Pick(Not(p), s)| == |s|
    ensures multiset(Pick(p, s)) + multiset(Pick(Not(p), s)) == multiset(s)
  {
    if s != [] {
      PickSplits(p, s[1..]);
      assert s == [s[0]] + s[1..];
    }
  }

  lemma {:induction false} PickIn<T>(p: T -> bool, s: seq<T>, x: T)
    ensures x in Pick(p, s) <==> x in s && p(x)
  {
    if s != [] {
      PickIn(p, s[1..], x);
      assert x in s <==> x == s[0] || x in s[1..];
    }
  }

  lemma {:induction false} PickSame<T>(p: T -> bool, q: T -> bool, s: seq<T>)
    requires forall x | x in s :: p(x) == q(x)
    ensures Pick(p, s) == Pick(q, s)
  {
    if s != [] {
      PickSame(p, q, s[1..]);
    }
  }

  /** The index of the first element picked, or the length of the list. */
  function First<T>(p: T -> bool, s: seq<T>): (r: nat)
    ensures r <= |s| && (r < |s| ==> p(s[r])) && forall i | 0 <= i < r :: !p(s[i])
  {
    if s == [] || p(s[0]) then 0 else 1 + First(p, s[1..])
  }

  function Map<A, B>(g: A -> B, s: seq<A>): (r: seq<B>)
    ensures |r| == |s|
  {
    if s == [] then [] else [g(s[0])] + Map(g, s[1..])
  }

  lemma {:induction false} MapPlus<A, B>(g: A -> B, a: seq<A>, b: seq<A>)
    ensures Map(g, a + b) == Map(g, a) + Map(g, b)
  {
    if a == [] {
      assert a + b == b;
    } else {
      assert (a + b)[1..] == a[1..] + b;
      MapPlus(g, a[1..], b);
      Regroup([g(a[0])], Map(g, a[1..]), Map(g, b));
    }
  }

  lemma {:induction false} MapOne<A, B>(g: A -> B, s: seq<A>, x: A)
    ensures Map(g, s + [x]) == Map(g, s) + [g(x)]
  {
    MapPlus(g, s, [x]);
  }

  lemma {:induction false} MapIndex<A, B>(g: A -> B, s: seq<A>, i: nat)
    requires i < |s|
    ensures Map(g, s)[i] == g(s[i])
  {
    if i > 0 {
      MapIndex(g, s[1..], i - 1);
    }
  }

  /** The list around one of its elements. */
  lemma {:induction false} Around<T>(t: seq<T>, x: T) returns (a: seq<T>, b: seq<T>)
    requires x in t
    ensures t == a + [x] + b && multiset(t) - multiset{x} == multiset(a + b)
  {
    var i :| 0 <= i < |t| && t[i] == x;
    a, b := t[..i], t[i + 1..];
    assert t == a + [x] + b;
    assert multiset(t) == multiset(a) + multiset{x} + multiset(b);
  }

  lemma {:induction false} MapAround<A, B>(g: A -> B, a: seq<A>, x: A, b: seq<A>)
    ensures multiset(Map(g, a + [x] + b)) == multiset(Map(g, a + b)) + multiset{g(x)}
  {
    MapPlus(g, a + [x], b);
    MapOne(g, a, x);
    MapPlus(g, a, b);
  }

  /** Mapping permuted lists gives permuted lists. */
  lemma {:induction false} MapPermutes<A, B>(g: A -> B, s: seq<A>, t: seq<A>)
    requires multiset(s) == multiset(t)
    ensures multiset(Map(g, s)) == multiset(Map(g, t))
  {
    if s == [] {
      assert |t| == |multiset(t)| == 0;
    } else {
      var x := s[0];
      assert x in multiset(t);
      var a, b := Around(t, x);
      assert s == [x] + s[1..];
      assert multiset(s[1..]) == multiset(s) - multiset{x};
      MapPermutes(g, s[1..], a + b);
      MapAround(g, a, x, b);
    }
  }

  lemma {:induction false} MapIs<A, B>(g: A -> B, s: seq<A>, r: seq<B>)
    requires |s| == |r| && forall i | 0 <= i < |s| :: g(s[i]) == r[i]
    ensures Map(g, s) == r
  {
    forall i | 0 <= i < |s| ensures Map(g, s)[i] == r[i] {
      MapIndex(g, s, i);
    }
  }

  /** An element that is not picked makes no difference. */
  lemma {:induction false} PickAround<T>(p: T -> bool, a: seq<T>, x: T, b: seq<T>)
    requires !p(x)
    ensures Pick(p, a + [x] + b) == Pick(p, a + b)
  {
    PickPlus(p, a + [x], b);
    PickOne(p, a, x);
    PickPlus(p, a, b);
  }

  /** Moving the cut in a list over one element. */
  lemma {:induction false} CutNext<T>(s: seq<T>, m: nat, x: T, rest: seq<T>)
    requires m <= |s| && s == s[..m] + ([x] + rest)
    ensures m + 1 <= |s| && s[..m + 1] == s[..m] + [x] && s == s[..m + 1] + rest
  {
    assert s[m] == x;
    assert s[m + 1..] == rest;
  }

  lemma {:induction false} SameFront<T>(a: seq<T>, b: seq<T>, t: seq<T>)
    requires a + t == b + t
    ensures a == b
  {
    assert a == (a + t)[..|a|] && b == (b + t)[..|b|];
  }
}
