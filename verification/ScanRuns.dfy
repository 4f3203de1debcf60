/**
  Whole scans: what a client sees that asks for records until the end of the file, deleting some on the way.
 */
module ScanRuns {
  import opened Errors
  import opened Sequences
  import opened HeapSpec
  import opened HeapScans
  import opened Filters

  predicate Legible(e: Entry) { e.bytes != [] }

  /** Every record has a length of 1 at least, so getRecord can read it. */
  ghost predicate Solid(es: seq<Entry>) {
    forall e {:trigger Legible(e)} | e in es :: Legible(e)
  }

  function Matches(f: Filter): Entry -> bool
    requires Usable(f)
  {
    (e: Entry) => Usable(f) && MatchRec(f, e.bytes)
  }

  /** The records left when every matching one for which `drop` says so is deleted. */
  function Stays(f: Filter, drop: RID -> bool): Entry -> bool
    requires Usable(f)
  {
    (e: Entry) => !(Matches(f)(e) && drop(e.rid))
  }

  function RidOf(e: Entry): RID { e.rid }

  /** The records a scan picks and those that are left, one by one. */
  lemma {:induction false} PickedMeans(f: Filter, drop: RID -> bool, es: seq<Entry>, e: Entry)
    requires Usable(f)
    ensures e in Pick(Matches(f), es) <==> e in es && MatchRec(f, e.bytes)
    ensures e in Pick(Stays(f, drop), es) <==> e in es && !(MatchRec(f, e.bytes) && drop(e.rid))
  {
    PickIn(Matches(f), es, e);
    PickIn(Stays(f, drop), es, e);
  }

  /** And their places: both lists are in the order of the file. */
  lemma {:induction false} PickedPlaces(f: Filter, drop: RID -> bool, es: seq<Entry>)
    returns (picked: seq<int>, left: seq<int>)
    requires Usable(f)
    ensures |picked| == |Pick(Matches(f), es)| && |left| == |Pick(Stays(f, drop), es)|
    ensures forall t {:trigger picked[t]} | 0 <= t < |picked| ::
      0 <= picked[t] < |es| && MatchRec(f, es[picked[t]].bytes) && Pick(Matches(f), es)[t] == es[picked[t]]
    ensures forall t {:trigger left[t]} | 0 <= t < |left| ::
      && 0 <= left[t] < |es| && !(MatchRec(f, es[left[t]].bytes) && drop(es[left[t]].rid))
      && Pick(Stays(f, drop), es)[t] == es[left[t]]
    ensures forall t, u | 0 <= t < u < |picked| :: picked[t] < picked[u]
    ensures forall t, u | 0 <= t < u < |left| :: left[t] < left[u]
    ensures forall i | 0 <= i < |es| ::
      (MatchRec(f, es[i].bytes) ==> i in picked) && (i in left || (MatchRec(f, es[i].bytes) && drop(es[i].rid)))
  {
    picked := PickIndexes(Matches(f), es);
    left := PickIndexes(Stays(f, drop), es);
    forall i | 0 <= i < |es|
      ensures (MatchRec(f, es[i].bytes) ==> i in picked) && (i in left || (MatchRec(f, es[i].bytes) && drop(es[i].rid)))
    {
      assert Matches(f)(es[i]) == MatchRec(f, es[i].bytes);
      assert Stays(f, drop)(es[i]) == !(MatchRec(f, es[i].bytes) && drop(es[i].rid));
    }
  }

  // ---- The progress of a scan ----

  /** Of all records, a scan has dealt with the first n and come to those in `got`; `rest` is ahead
      of it, and now the file holds `now`. */
  ghost predicate SweptTo(
      f: Filter, drop: RID -> bool, all: seq<Entry>, now: seq<Entry>, got: seq<Entry>, rest: seq<Entry>, n: int)
    requires Usable(f)
  {
    && 0 <= n <= |all| && all == all[..n] + rest && Solid(rest)
    && now == Pick(Stays(f, drop), all[..n]) + rest && got == Pick(Matches(f), all[..n])
  }

  ghost predicate Swept(
      f: Filter, drop: RID -> bool, all: seq<Entry>, now: seq<Entry>, got: seq<Entry>, rest: seq<Entry>)
    requires Usable(f)
  {
    forall n {:trigger SweptTo(f, drop, all, now, got, rest, n)} | n == |all| - |rest| ::
      SweptTo(f, drop, all, now, got, rest, n)
  }

  lemma {:induction false} SweptStart(f: Filter, drop: RID -> bool, all: seq<Entry>)
    requires Usable(f) && Solid(all)
    ensures Swept(f, drop, all, all, [], all)
  {
    assert all[..0] == [] && [] + all == all;
  }

  /** The records a scan passes over on its way to the next one it stops at. */
  lemma {:induction false} SkipSplit(f: Filter, es: seq<Entry>) returns (s: seq<Entry>)
    requires Usable(f) && Solid(es)
    ensures es == s + SkipTo(f, es) && forall e | e in s :: !Matches(f)(e)
    ensures SkipTo(f, es) != [] ==> Matches(f)(SkipTo(f, es)[0])
  {
    assert es != [] ==> Legible(es[0]);
    if es == [] || Stop(f, es[0]) {
      s := [];
    } else {
      s := SkipSplit(f, es[1..]);
      s := [es[0]] + s;
    }
  }

  /** The scan passes over records that do not match. */
  lemma {:induction false} SweptPast(
      f: Filter, drop: RID -> bool, all: seq<Entry>, now: seq<Entry>, got: seq<Entry>, s: seq<Entry>, r: seq<Entry>)
    requires Usable(f) && Swept(f, drop, all, now, got, s + r) && forall e | e in s :: !Matches(f)(e)
    ensures Swept(f, drop, all, now, got, r)
  {
    var n := |all| - |s + r|;
    assert SweptTo(f, drop, all, now, got, s + r, n);
    var done := all[..n];
    PickNone(Matches(f), s);
    PickAll(Stays(f, drop), s);
    PickPlus(Matches(f), done, s);
    PickPlus(Stays(f, drop), done, s);
    Regroup(done, s, r);
    Regroup(Pick(Stays(f, drop), done), s, r);
    assert all[..n + |s|] == done + s;
  }

  lemma {:induction false} SweptOver(
      f: Filter, drop: RID -> bool, all: seq<Entry>, now: seq<Entry>, got: seq<Entry>, rest: seq<Entry>)
    requires Usable(f) && Swept(f, drop, all, now, got, rest)
    ensures var r := SkipTo(f, rest);
      Swept(f, drop, all, now, got, r) && (r != [] ==> Legible(r[0]) && Matches(f)(r[0]))
  {
    assert SweptTo(f, drop, all, now, got, rest, |all| - |rest|);
    var s := SkipSplit(f, rest);
    SweptPast(f, drop, all, now, got, s, SkipTo(f, rest));
  }

  /** The record the scan came to is left where it is. */
  lemma {:induction false} SweptKeep(
      f: Filter, drop: RID -> bool, all: seq<Entry>, now: seq<Entry>, got: seq<Entry>, e: Entry, rest: seq<Entry>)
    requires Usable(f) && Swept(f, drop, all, now, got, [e] + rest) && Matches(f)(e) && !drop(e.rid)
    ensures Swept(f, drop, all, now, got + [e], rest)
  {
    SweptOne(f, drop, all, now, got, e, rest);
    Regroup(Pick(Stays(f, drop), all[..|all| - |rest| - 1]), [e], rest);
  }

  /** It is deleted. */
  lemma {:induction false} SweptDrop(
      f: Filter, drop: RID -> bool, all: seq<Entry>, now: seq<Entry>, got: seq<Entry>, e: Entry, rest: seq<Entry>,
      before: seq<Entry>)
    requires Usable(f) && Swept(f, drop, all, now, got, [e] + rest) && Matches(f)(e) && drop(e.rid)
    requires now == before + [e] + rest
    ensures Swept(f, drop, all, before + rest, got + [e], rest)
  {
    SweptOne(f, drop, all, now, got, e, rest);
    var k := Pick(Stays(f, drop), all[..|all| - |rest| - 1]);
    Regroup(k, [e], rest);
    SameFront(before + [e], k + [e], rest);
    SameFront(before, k, [e]);
  }

  lemma {:induction false} SweptOne(
      f: Filter, drop: RID -> bool, all: seq<Entry>, now: seq<Entry>, got: seq<Entry>, e: Entry, rest: seq<Entry>)
    requires Usable(f) && Swept(f, drop, all, now, got, [e] + rest)
    ensures var n := |all| - |rest|;
      && 1 <= n && all == all[..n] + rest && all[..n] == all[..n - 1] + [e] && Solid(rest)
      && now == Pick(Stays(f, drop), all[..n - 1]) + ([e] + rest)
      && Pick(Matches(f), all[..n]) == (if Matches(f)(e) then got + [e] else got)
      && Pick(Stays(f, drop), all[..n]) == if Stays(f, drop)(e) then Pick(Stays(f, drop), all[..n - 1]) + [e]
                                          else Pick(Stays(f, drop), all[..n - 1])
  {
    var m := |all| - |rest| - 1;
    assert SweptTo(f, drop, all, now, got, [e] + rest, m);
    CutNext(all, m, e, rest);
    SolidTail(e, rest);
    PickOne(Matches(f), all[..m], e);
    PickOne(Stays(f, drop), all[..m], e);
  }

  lemma {:induction false} SolidTail(e: Entry, rest: seq<Entry>)
    requires Solid([e] + rest)
    ensures Solid(rest)
  {
    forall x {:trigger Legible(x)} | x in rest ensures Legible(x) {
      assert x in [e] + rest;
    }
  }

  lemma {:induction false} SweptIn(f: Filter, drop: RID -> bool, all: seq<Entry>, now: seq<Entry>, got: seq<Entry>,
      e: Entry, rest: seq<Entry>)
    requires Usable(f) && Swept(f, drop, all, now, got, [e] + rest)
    ensures e in all
  {
    assert SweptTo(f, drop, all, now, got, [e] + rest, |all| - |rest| - 1);
    assert all[|all| - |rest| - 1] == e;
  }

  /** If nothing was deleted, the file is as it was. */
  lemma {:induction false} SweptSame(f: Filter, drop: RID -> bool, all: seq<Entry>, now: seq<Entry>, got: seq<Entry>,
      rest: seq<Entry>)
    requires Usable(f) && Swept(f, drop, all, now, got, rest) && forall r :: !drop(r)
    ensures now == all && |rest| <= |all|
    ensures var n := |all| - |rest|; all == all[..n] + rest && got == Pick(Matches(f), all[..n])
  {
    assert SweptTo(f, drop, all, now, got, rest, |all| - |rest|);
    PickAll(Stays(f, drop), all[..|all| - |rest|]);
  }

  /** At the end of the file. */
  lemma {:induction false} SweptAll(f: Filter, drop: RID -> bool, all: seq<Entry>, now: seq<Entry>, got: seq<Entry>)
    requires Usable(f) && Swept(f, drop, all, now, got, [])
    ensures got == Pick(Matches(f), all) && now == Pick(Stays(f, drop), all)
  {
    assert SweptTo(f, drop, all, now, got, [], |all|);
    assert all[..|all|] == all && Pick(Stays(f, drop), all) + [] == Pick(Stays(f, drop), all);
  }

  // ---- A client's loop ----

  ghost predicate Sweeping(scan: HeapFileScan, drop: RID -> bool, all: seq<Entry>, got: seq<Entry>)
    reads scan, scan.store
  {
    scan.Valid() && scan.store.Counted() && Swept(scan.filter, drop, all, scan.store.Records(), got, scan.rest)
  }

  /** The scan stands on e, which matches. */
  ghost predicate Arrived(scan: HeapFileScan, drop: RID -> bool, all: seq<Entry>, got: seq<Entry>, e: Entry)
    reads scan, scan.store
  {
    && scan.Valid() && scan.store.Counted() && scan.IsOn(e) && Legible(e) && Matches(scan.filter)(e)
    && Swept(scan.filter, drop, all, scan.store.Records(), got, [e] + scan.rest)
  }

  /** To the next matching record, or to the end of the file. */
  method NextMatch(scan: HeapFileScan, ghost drop: RID -> bool, ghost all: seq<Entry>, ghost got: seq<Entry>)
    returns (status: Status, rid: RID, ghost e: Entry)
    requires Sweeping(scan, drop, all, got)
    modifies scan`hasPage, scan`curPageNo, scan`curDirtyFlag, scan`curRec, scan`idx, scan`rest
    modifies scan.store`pins, scan.store`unsaved
    ensures scan.Conserved() && (status == OK || status == FILEEOF)
    ensures status == OK ==> Arrived(scan, drop, all, got, e) && e.rid == rid && |scan.rest| < |old(scan.rest)|
    ensures status != OK ==> Sweeping(scan, drop, all, got) && scan.rest == []
  {
    SweptOver(scan.filter, drop, all, scan.store.Records(), got, scan.rest);
    ghost var r := SkipTo(scan.filter, scan.rest);
    status, rid := scan.ScanNext();
    if r != [] {
      e := r[0];
      assert r == [e] + scan.rest;
    } else {
      e := Entry(NULLRID, []);
    }
  }

  /** Deletes the record the scan came to. */
  method DropRecord(scan: HeapFileScan, ghost drop: RID -> bool, ghost all: seq<Entry>, ghost got: seq<Entry>,
      ghost e: Entry)
    requires Arrived(scan, drop, all, got, e) && drop(e.rid)
    modifies scan`curDirtyFlag, scan`hdrDirtyFlag
    modifies scan.store`pages, scan.store`chain, scan.store`hdr, scan.store`unsaved
    ensures Sweeping(scan, drop, all, got + [e]) && scan.Conserved()
  {
    ghost var now, before := scan.store.Records(), [];
    var status;
    status, before := scan.DeleteRecord(e);
    SweptDrop(scan.filter, drop, all, now, got, e, scan.rest, before);
  }

  /** One turn of the loop of a client that deletes the records for which `drop` says so. */
  method Turn(scan: HeapFileScan, drop: RID -> bool, ghost all: seq<Entry>, ghost got: seq<Entry>)
    returns (status: Status, rid: RID, ghost got': seq<Entry>)
    requires Sweeping(scan, drop, all, got)
    modifies scan, scan.store
    ensures Sweeping(scan, drop, all, got') && scan.Conserved() && scan.filter == old(scan.filter)
    ensures if status == OK then |scan.rest| < |old(scan.rest)| else status == FILEEOF && scan.rest == []
    ensures Map(RidOf, got') == if status == OK then Map(RidOf, got) + [rid] else Map(RidOf, got)
  {
    ghost var e;
    status, rid, e := NextMatch(scan, drop, all, got);
    got' := got;
    if status == OK {
      if drop(rid) {
        DropRecord(scan, drop, all, got, e);
      } else {
        SweptKeep(scan.filter, drop, all, scan.store.Records(), got, e, scan.rest);
      }
      MapOne(RidOf, got, e);
      got' := got + [e];
    }
  }

  /** Scan completeness under deletion: from a fresh scan on, each matching record is returned
      exactly once, in the order of chain position and slot, whichever of the returned records
      are deleted on the way; the others are where they were.  The last answer is FILEEOF. */
  method RunScan(scan: HeapFileScan, drop: RID -> bool) returns (rids: seq<RID>, status: Status)
    requires scan.Valid() && scan.store.Counted()
    requires scan.rest == scan.store.Records() && Solid(scan.rest)
    modifies scan, scan.store
    ensures scan.Valid() && scan.store.Counted() && scan.Conserved()
    ensures scan.filter == old(scan.filter) && scan.rest == [] && status == FILEEOF
    ensures var found := Pick(Matches(scan.filter), old(scan.store.Records()));
      |rids| == |found| && forall t | 0 <= t < |rids| :: rids[t] == found[t].rid
    ensures scan.store.Records() == Pick(Stays(scan.filter, drop), old(scan.store.Records()))
  {
    rids, status := [], OK;
    ghost var all, got: seq<Entry> := scan.store.Records(), [];
    SweptStart(scan.filter, drop, all);
    while status == OK
      invariant scan.Conserved() && scan.filter == old(scan.filter)
      invariant Sweeping(scan, drop, all, got) && rids == Map(RidOf, got)
      invariant status == OK || (status == FILEEOF && scan.rest == [])
      decreases |scan.rest|, status == OK
    {
      var rid;
      status, rid, got := Turn(scan, drop, all, got);
      if status == OK {
        rids := rids + [rid];
      }
    }
    SweptAll(scan.filter, drop, all, scan.store.Records(), got);
    forall t | 0 <= t < |rids| ensures rids[t] == got[t].rid {
      MapIndex(RidOf, got, t);
    }
  }
}
