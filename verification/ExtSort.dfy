/**
  External merge sort (sort.C): the runs of a source file are merged record by record, with a mark to go back to.
 */
module ExternalSort {
  import opened Errors
  import opened Bytes
  import opened Sequences
  import opened HeapSpec
  import opened HeapGrowth
  import opened HeapStores
  import opened HeapScans
  import opened Filters
  import opened MergeOrder
  import opened RunValues
  import opened RunFiles
  import opened RunMaking
  import opened ScanRuns

  // ---- The runs of a sort ----

  /** Run i is in the state now[i]; `repr` are the objects it consists of. */
  ghost predicate RunIs(runs: seq<RunFile>, now: seq<Run>, repr: set<object>, i: int)
    requires 0 <= i < |runs| == |now|
    reads repr
  {
    && runs[i] in repr && runs[i].inFile in repr && runs[i].inFile.store in repr
    && runs[i].Valid() && runs[i].abs == now[i]
  }

  predicate TwoRuns(runs: seq<RunFile>, i: int, j: int)
    requires 0 <= i < |runs| && 0 <= j < |runs|
  {
    runs[i] != runs[j] && runs[i].inFile != runs[j].inFile && runs[i].inFile.store != runs[j].inFile.store
  }

  ghost predicate RunsAre(runs: seq<RunFile>, now: seq<Run>, repr: set<object>)
    reads repr
  {
    && |runs| == |now|
    && (forall i {:trigger RunIs(runs, now, repr, i)} | 0 <= i < |runs| :: RunIs(runs, now, repr, i))
    && forall i, j {:trigger TwoRuns(runs, i, j)} | 0 <= i < j < |runs| :: TwoRuns(runs, i, j)
  }

  ghost predicate AllMarked(runs: seq<RunFile>, n: nat)
    requires n <= |runs|
    reads runs
  {
    forall i {:trigger runs[i].marked} | 0 <= i < n :: runs[i].marked
  }

  /** The runs other than run i stay as they are when something happens to run i. */
  lemma {:induction false} OtherRuns(runs: seq<RunFile>, i: int, j: int)
    requires 0 <= i < |runs| && 0 <= j < |runs| && i != j
    requires forall a, b {:trigger TwoRuns(runs, a, b)} | 0 <= a < b < |runs| :: TwoRuns(runs, a, b)
    ensures TwoRuns(runs, i, j)
  {
    assert i < j ==> TwoRuns(runs, i, j);
    assert j < i ==> TwoRuns(runs, j, i);
  }

  method FetchRun(runs: seq<RunFile>, i: nat, ghost now: seq<Run>, ghost repr: set<object>)
    requires RunsAre(runs, now, repr) && i < |runs|
    modifies runs[i], runs[i].inFile, runs[i].inFile.store
    ensures now[i].Ok() && RunsAre(runs, now[i := now[i].Fetched()], repr)
    ensures forall j | 0 <= j < |runs| :: runs[j].marked == old(runs[j].marked)
  {
    assert RunIs(runs, now, repr, i);
    runs[i].Fetch();
    ghost var after := now[i := now[i].Fetched()];
    forall j {:trigger RunIs(runs, after, repr, j)} | 0 <= j < |runs| ensures RunIs(runs, after, repr, j) {
      if j != i {
        OtherRuns(runs, i, j);
        assert old(RunIs(runs, now, repr, j));
      }
    }
  }

  method TakeRun(runs: seq<RunFile>, i: nat, ghost now: seq<Run>, ghost repr: set<object>) returns (rec: Rec)
    requires RunsAre(runs, now, repr) && i < |runs| && now[i].valid && now[i].rid >= 0
    modifies runs[i]
    ensures RunsAre(runs, now[i := now[i].(valid := false)], repr)
    ensures rec == now[i].rec && forall j | 0 <= j < |runs| :: runs[j].marked == old(runs[j].marked)
  {
    assert RunIs(runs, now, repr, i);
    assert runs[i].Is(runs[i].abs);
    rec := runs[i].rec;
    runs[i].Take();
    ghost var after := now[i := now[i].(valid := false)];
    forall j {:trigger RunIs(runs, after, repr, j)} | 0 <= j < |runs| ensures RunIs(runs, after, repr, j) {
      if j != i {
        OtherRuns(runs, i, j);
        assert old(RunIs(runs, now, repr, j));
      }
    }
  }

  method MarkRun(runs: seq<RunFile>, i: nat, ghost now: seq<Run>, ghost repr: set<object>)
    requires RunsAre(runs, now, repr) && i < |runs|
    modifies runs[i], runs[i].inFile
    ensures RunsAre(runs, now[i := now[i].(scanMark := now[i].at, mark := now[i].rid)], repr)
    ensures forall j | 0 <= j < |runs| :: runs[j].marked == (old(runs[j].marked) || j == i)
  {
    assert RunIs(runs, now, repr, i);
    runs[i].SetMark();
    ghost var after := now[i := now[i].(scanMark := now[i].at, mark := now[i].rid)];
    forall j | 0 <= j < |runs| ensures runs[j].marked == (old(runs[j].marked) || j == i) {
      if j != i {
        OtherRuns(runs, i, j);
      }
    }
    forall j {:trigger RunIs(runs, after, repr, j)} | 0 <= j < |runs| ensures RunIs(runs, after, repr, j) {
      if j != i {
        OtherRuns(runs, i, j);
        assert old(RunIs(runs, now, repr, j));
      }
    }
  }

  method ReturnRun(runs: seq<RunFile>, i: nat, ghost now: seq<Run>, ghost repr: set<object>)
    requires RunsAre(runs, now, repr) && i < |runs| && runs[i].marked
    modifies runs[i], runs[i].inFile, runs[i].inFile.store
    ensures now[i].Ok() && RunsAre(runs, now[i := BackAt(now[i])], repr)
    ensures forall j | 0 <= j < |runs| :: runs[j].marked == old(runs[j].marked)
  {
    assert RunIs(runs, now, repr, i);
    runs[i].GotoMark();
    ghost var after := now[i := BackAt(now[i])];
    forall j {:trigger RunIs(runs, after, repr, j)} | 0 <= j < |runs| ensures RunIs(runs, after, repr, j) {
      if j != i {
        OtherRuns(runs, i, j);
        assert old(RunIs(runs, now, repr, j));
      }
    }
  }

  /** startScans */
  method StartScans(files: seq<HeapStore>, ghost rs: seq<Run>) returns (runs: seq<RunFile>, ghost repr: set<object>)
    requires Filed(files, rs)
    modifies files
    ensures RunsAre(runs, rs, repr) && forall o | o in repr :: fresh(o) || o in files
  {
    runs, repr := [], {};
    assert forall k | 0 <= k < |files| :: FileHolds(files[k], rs[k].recs);
    for i := 0 to |files|
      invariant RunsAre(runs, rs[..i], repr) && forall o | o in repr :: fresh(o) || o in files
      invariant forall k | 0 <= k < i :: runs[k].inFile.store == files[k]
      invariant forall k | i <= k < |files| :: FileHolds(files[k], rs[k].recs) && files[k] !in repr
    {
      assert Started(rs[i]);
      runs, repr := StartRun(files, i, files[i], rs, runs, repr);
    }
    assert rs[..|files|] == rs;
  }

  /** A scan is started on one more run. */
  method StartRun(
      files: seq<HeapStore>, i: nat, file: HeapStore, ghost rs: seq<Run>, runs: seq<RunFile>, ghost repr: set<object>)
    returns (more: seq<RunFile>, ghost repr': set<object>)
    requires |files| == |rs| && i < |files| && file == files[i] && RunsAre(runs, rs[..i], repr)
    requires forall k, j {:trigger TwoFiles(files, k, j)} | 0 <= k < j < |files| :: TwoFiles(files, k, j)
    requires forall k | 0 <= k < i :: runs[k].inFile.store == files[k]
    requires forall k | i <= k < |files| :: FileHolds(files[k], rs[k].recs) && files[k] !in repr
    requires rs[i] == Run.Start(rs[i].recs)
    modifies file`pins
    ensures RunsAre(more, rs[..i + 1], repr') && forall o | o in repr' :: o in repr || fresh(o) || o == files[i]
    ensures forall k | 0 <= k < i + 1 :: more[k].inFile.store == files[k]
    ensures forall k | i < k < |files| :: FileHolds(files[k], rs[k].recs) && files[k] !in repr'
  {
    assert FileHolds(files[i], rs[i].recs);
    var run := new RunFile(file);
    more, repr' := runs + [run], repr + {run, run.inFile, files[i]};
    forall j {:trigger RunIs(more, rs[..i + 1], repr', j)} | 0 <= j < |more|
      ensures RunIs(more, rs[..i + 1], repr', j)
    {
      if j < i {
        assert old(RunIs(runs, rs[..i], repr, j));
      }
    }
    forall a, b {:trigger TwoRuns(more, a, b)} | 0 <= a < b < |more| ensures TwoRuns(more, a, b) {
      assert TwoFiles(files, a, b);
      if b < i {
        assert TwoRuns(runs, a, b);
      } else {
        assert old(RunIs(runs, rs[..i], repr, a));
      }
    }
    forall k | i < k < |files| ensures FileHolds(files[k], rs[k].recs) && files[k] !in repr' {
      assert TwoFiles(files, i, k);
      assert old(FileHolds(files[k], rs[k].recs));
    }
  }

  /** The source is open while the runs are written. */
  method SortIntoFiles(k: SortKey, source: HeapStore, maxItems: nat, ghost all: seq<Entry>)
    returns (files: seq<HeapStore>, ghost rs: seq<Run>)
    requires source.Valid() && source.Records() == all && Source(k, all) && maxItems >= 2
    modifies source`pins, source`unsaved
    ensures source.Valid() && source.Records() == all
    ensures (forall n :: source.pins[n] == old(source.pins)[n]) && source.unsaved <= old(source.unsaved)
    ensures Filed(files, rs) && source !in files && (forall f | f in files :: fresh(f))
    ensures Divided(k, Map(BytesOf, all), maxItems, rs, |all|)
  {
    var hfs := new HeapFileScan(source);
    var status := hfs.StartUnfiltered();
    label Opened:
    assert ReadTo(hfs, all, 0);
    files, rs := SplitSource(k, hfs, maxItems, all);
    label Done:
    status := hfs.Destroy();
    forall n ensures source.pins[n] == old(source.pins)[n] {
      assert old@Done(hfs.OtherPins(n)) == old@Opened(hfs.OtherPins(n));
    }
    forall n | n in source.unsaved ensures n in old(source.unsaved) {
      assert old@Done(hfs.LeftDirty(n)) ==> old@Opened(hfs.LeftDirty(n));
    }
  }

  /** The records of the source are split into sorted runs of at most maxItems records, and a scan is started
      on each. */
  method SortFile(k: SortKey, source: HeapStore, maxItems: nat)
    returns (runs: seq<RunFile>, ghost rs: seq<Run>, ghost repr: set<object>)
    requires source.Valid() && Source(k, source.Records()) && maxItems >= 2
    modifies source`pins, source`unsaved
    ensures source.Valid() && source.Records() == old(source.Records())
    ensures (forall n :: source.pins[n] == old(source.pins)[n]) && source.unsaved <= old(source.unsaved)
    ensures RunsAre(runs, rs, repr) && forall o | o in repr :: fresh(o)
    ensures var recs := Map(BytesOf, source.Records()); Divided(k, recs, maxItems, rs, |recs|)
  {
    ghost var all := source.Records();
    MapBytes(all);
    var files;
    files, rs := SortIntoFiles(k, source, maxItems, all);
    forall i | 0 <= i < |files| ensures fresh(files[i]) {
      assert files[i] in files;
    }
    runs, repr := StartScans(files, rs);
  }

  // ---- Merging ----

  /** The loop of setMark(). */
  method MarkAll(runs: seq<RunFile>, ghost now: seq<Run>, ghost repr: set<object>) returns (ghost after: seq<Run>)
    requires RunsAre(runs, now, repr)
    modifies repr
    ensures RunsAre(runs, after, repr) && AllMarked(runs, |runs|) && AreMarked(now, after)
  {
    after := now;
    for i := 0 to |runs|
      invariant RunsAre(runs, after, repr) && |after| == |now| && AllMarked(runs, i)
      invariant forall j {:trigger after[j]} | 0 <= j < |now| ::
        after[j] == if j < i then now[j].(scanMark := now[j].at, mark := now[j].rid) else now[j]
    {
      assert RunIs(runs, after, repr, i);
      MarkRun(runs, i, after, repr);
      after := after[i := after[i].(scanMark := after[i].at, mark := after[i].rid)];
    }
  }

  /** The loop of gotoMark(). */
  method ReturnAll(runs: seq<RunFile>, ghost now: seq<Run>, ghost repr: set<object>) returns (ghost after: seq<Run>)
    requires RunsAre(runs, now, repr) && AllMarked(runs, |runs|)
    modifies repr
    ensures RunsAre(runs, after, repr) && AllMarked(runs, |runs|) && AreBack(now, after)
  {
    after := now;
    for i := 0 to |runs|
      invariant RunsAre(runs, after, repr) && |after| == |now| && AllMarked(runs, |runs|)
      invariant forall j {:trigger after[j]} {:trigger now[j]} | 0 <= j < |now| ::
        if j < i then now[j].Ok() && after[j] == BackAt(now[j]) else after[j] == now[j]
    {
      assert RunIs(runs, after, repr, i);
      ghost var before := after;
      assert before[i] == now[i];
      ReturnRun(runs, i, before, repr);
      after := before[i := BackAt(before[i])];
    }
  }

  class SortedFile {
    const key: SortKey
    const maxItems: int
    const status: Status         // what the constructor answers
    const runs: seq<RunFile>
    ghost const source: seq<Rec> // the records of the source file
    ghost const repr: set<object>
    ghost var now: seq<Run>      // the state of the runs
    ghost var begun: bool        // next() was called
    ghost var last: seq<Rec>     // the record the last next() gave, if it gave one
    ghost var marked: bool       // setMark() was called
    ghost var coming: seq<Rec>   // the records next() will give from now on
    ghost var atMark: seq<Rec>   // those it would give after going to the mark

    /** Sorts a source file into runs and opens a scan on each.  Of the parameters an attribute that cannot be
        compared is refused first, then a buffer of fewer than two records. */
    constructor (source: HeapStore, offset: int, length: int, typ: Datatype, maxItems: int)
      requires source.Valid() && Solid(source.Records())
      requires var k := SortKey(offset, length, typ); k.Proper() ==> Sortable(k, Map(BytesOf, source.Records()))
      modifies source`pins, source`unsaved
      ensures key == SortKey(offset, length, typ) && source.Valid() && source.Records() == old(source.Records())
      ensures this.source == Map(BytesOf, source.Records()) && forall n :: source.pins[n] == old(source.pins)[n]
      ensures status == if offset < 0 || length < 1 || (typ == INTEGER && length != 4) || (typ == FLOAT && length != 4)
                        then BADSORTPARM else if maxItems < 2 then INSUFMEM else OK
      ensures forall o | o in repr :: fresh(o)
      ensures status == OK ==>
        && Valid() && !begun && Sorted(key, coming) && multiset(coming) == multiset(this.source)
        && Sized(now, maxItems)
    {
      var k := SortKey(offset, length, typ);
      var made: seq<RunFile> := [];
      ghost var rs: seq<Run>, objects: set<object> := [], {};
      ghost var come: seq<Rec>, back: seq<Rec> := [], [];
      ghost var recs := Map(BytesOf, source.Records());
      var st := OK;
      if offset < 0 || length < 1 || (typ == INTEGER && length != 4) || (typ == FLOAT && length != 4) {
        st := BADSORTPARM;
      } else if maxItems < 2 {
        st := INSUFMEM;
      } else {
        DistinctRids(source);
        made, rs, objects := SortFile(k, source, maxItems);
        come, back := StartRunning(k, recs, maxItems, rs);
      }
      key, this.maxItems, status, runs, repr := k, maxItems, st, made, objects;
      this.source, now, begun, last, marked := recs, rs, false, [], false;
      coming, atMark := come, back;
      new;
      forall i | 0 <= i < |runs| && status == OK ensures runs[i] in repr {
        assert RunIs(runs, now, repr, i);
      }
    }

    ghost predicate Valid()
      reads this, repr
    {
      && this !in repr && RunsAre(runs, now, repr) && Running(key, source, now, begun, last, coming, atMark)
      && (forall i | 0 <= i < |runs| :: runs[i] in repr) && (marked ==> AllMarked(runs, |runs|))
    }

    /** Marks the position.  Going back to it will bring the record next() gave last and then what was to
        follow, if next() was called at all; a mark set before brings nothing, so that it is right only
        if there is nothing to come either. */
    method SetMark()
      requires Valid()
      modifies `now, `marked, `atMark, repr
      ensures Valid() && marked && coming == old(coming)
      ensures atMark == if begun then last + coming else []
    {
      ghost var after := MarkAll(runs, now, repr);
      MarkRunning(key, source, now, after, begun, last, coming, atMark);
      now, marked := after, true;
      atMark := if begun then last + coming else [];
    }

    /** Goes back to the mark: also the runs that were at their end when it was set are at their end again. */
    method GotoMark()
      requires Valid() && marked
      modifies `now, `begun, `last, `coming, repr
      ensures Valid() && coming == old(atMark)
    {
      ghost var after := ReturnAll(runs, now, repr);
      GotoRunning(key, source, now, after, begun, last, coming, atMark);
      now, begun, last, coming := after, true, [], atMark;
    }

    /** The loop of next(): every run gets its record, and the first of the smallest is chosen. */
    method FindSmallest() returns (smallest: int)
      requires Valid()
      modifies `now, repr
      ensures RunsAre(runs, now, repr) && (marked ==> AllMarked(runs, |runs|))
      ensures Poised(key, source, now, coming, atMark) && smallest == Smallest(key, Pendings(now), |now|)
    {
      smallest := -1;
      ghost var before := now;
      StartLooking(key, source, now, begun, last, coming, atMark);
      for i := 0 to |runs|
        invariant RunsAre(runs, now, repr) && |now| == |before| && (marked ==> AllMarked(runs, |runs|))
        invariant Looked(key, source, before, now, i, smallest)
      {
        smallest := Visit(i, smallest, before);
      }
      FetchedRunning(key, source, before, now, begun, last, coming, atMark, smallest);
    }

    method Visit(i: nat, smallest: int, ghost before: seq<Run>) returns (next: int)
      requires RunsAre(runs, now, repr) && this !in repr && (marked ==> AllMarked(runs, |runs|))
      requires Sortable(key, source) && i < |runs| && Looked(key, source, before, now, i, smallest)
      modifies `now, repr
      ensures RunsAre(runs, now, repr) && |now| == |old(now)| && (marked ==> AllMarked(runs, |runs|))
      ensures Looked(key, source, before, now, i + 1, next)
    {
      assert RunIs(runs, now, repr, i);
      FetchKeeps(key, source, before, now, i, smallest);
      FetchRun(runs, i, now, repr);
      now := now[i := now[i].Fetched()];
      next := Smaller(i, smallest, before);
    }

    /** Run i, if it is not at its end, against the smallest so far. */
    method Smaller(i: nat, smallest: int, ghost before: seq<Run>) returns (next: int)
      requires RunsAre(runs, now, repr)
      requires Sortable(key, source) && i < |runs| && Looked(key, source, before, now, i, smallest) && now[i].valid
      ensures Looked(key, source, before, now, i + 1, next)
    {
      assert LookedAt(key, source, before, now, i, smallest) && Unmoved(key, source, before, now);
      assert RunIs(runs, now, repr, i) && runs[i].Is(now[i]);
      HeadOf(now, i);
      next := smallest;
      if runs[i].rid.pageNo >= 0 {
        if smallest < 0 {
          next := i;
        } else {
          assert RunIs(runs, now, repr, smallest) && runs[smallest].Is(now[smallest]);
          CompareHeads(key, source, now, smallest, i);
          if RecCmp(key.typ, key.Of(runs[smallest].rec), key.Of(runs[i].rec)) > 0 {
            next := i;
          }
        }
      }
      LookedNext(key, source, before, now, i, smallest, next);
    }

    /** The next record in sort order, or FILEEOF, and then at every further call. */
    method Next() returns (st: Status, rec: Rec)
      requires Valid()
      modifies `now, `begun, `last, `coming, repr
      ensures Valid() && begun
      ensures if old(coming) == [] then st == FILEEOF && coming == [] && last == []
              else st == OK && old(coming) == [rec] + coming && last == [rec]
    {
      if |runs| <= 0 {
        NoRuns(key, source, now, begun, last, coming, atMark);
        begun, last := true, [];
        return FILEEOF, [];
      }
      var smallest := FindSmallest();
      if smallest < 0 {
        AtEnd(smallest);
        st, rec := FILEEOF, [];
      } else {
        rec := Take(smallest);
        st := OK;
      }
    }

    /** No run has a record left. */
    method AtEnd(smallest: int)
      requires this !in repr && RunsAre(runs, now, repr) && forall i | 0 <= i < |runs| :: runs[i] in repr
      requires (marked ==> AllMarked(runs, |runs|)) && smallest < 0
      requires Poised(key, source, now, coming, atMark) && smallest == Smallest(key, Pendings(now), |now|)
      modifies `begun, `last
      ensures Valid() && begun && coming == [] && last == []
    {
      EndRunning(key, source, now, coming, atMark);
      begun, last := true, [];
    }

    /** The record of the run chosen is given to the caller. */
    method Take(smallest: int) returns (rec: Rec)
      requires this !in repr && RunsAre(runs, now, repr) && forall i | 0 <= i < |runs| :: runs[i] in repr
      requires (marked ==> AllMarked(runs, |runs|)) && smallest >= 0
      requires Poised(key, source, now, coming, atMark) && smallest == Smallest(key, Pendings(now), |now|)
      modifies `now, `begun, `last, `coming, repr
      ensures Valid() && begun && old(coming) == [rec] + coming && last == [rec]
    {
      TakeRunning(key, source, now, coming, atMark, smallest);
      rec := TakeRun(runs, smallest, now, repr);
      now := now[smallest := now[smallest].(valid := false)];
      begun, last, coming := true, [rec], coming[1..];
    }
  }

  lemma {:induction false} DistinctRids(f: HeapStore)
    requires f.Valid()
    ensures OneEach(f.Records())
  {
    f.Facts();
    FileRids(f.chain, 0, |f.chain|);
  }

  // ---- Clients ----

  /** Asks for records until the end. */
  method Drain(f: SortedFile) returns (out: seq<Rec>)
    requires f.Valid()
    modifies f`now, f`begun, f`last, f`coming, f.repr
    ensures f.Valid() && out == old(f.coming) && f.coming == []
  {
    out := [];
    var st := OK;
    while st == OK
      invariant f.Valid()
      invariant if st == OK then out + f.coming == old(f.coming) else out == old(f.coming) && f.coming == []
      decreases |f.coming|, st == OK
    {
      var rec;
      ghost var coming := f.coming;
      st, rec := f.Next();
      if st == OK {
        Regroup(out, [rec], f.coming);
        out := out + [rec];
      } else {
        assert out + [] == out;
      }
    }
  }

  /** External sorting: what next() gives until FILEEOF is the source, sorted. */
  method SortAll(source: HeapStore, offset: int, length: int, typ: Datatype, maxItems: int)
    returns (status: Status, out: seq<Rec>)
    requires source.Valid() && Solid(source.Records())
    requires var k := SortKey(offset, length, typ); k.Proper() ==> Sortable(k, Map(BytesOf, source.Records()))
    modifies source`pins, source`unsaved
    ensures source.Valid() && source.Records() == old(source.Records())
    ensures status == if offset < 0 || length < 1 || (typ == INTEGER && length != 4) || (typ == FLOAT && length != 4)
                      then BADSORTPARM else if maxItems < 2 then INSUFMEM else OK
    ensures status == OK ==> multiset(out) == multiset(Map(BytesOf, source.Records()))
    ensures status == OK ==> forall r | r in out :: offset + length <= |r|
    ensures status == OK && typ == INTEGER ==>
      forall i, j | 0 <= i <= j < |out| :: GetInt(out[i], offset) <= GetInt(out[j], offset)
    ensures status == OK && typ == FLOAT ==>
      forall i, j | 0 <= i <= j < |out| ::
        var u, v := GetUInt(out[i], offset), GetUInt(out[j], offset);
        u == v || (u == 0x8000_0000 && v == 0) || (u == 0 && v == 0x8000_0000)
        || if u < 0x8000_0000 && v < 0x8000_0000 then u < v
           else if u >= 0x8000_0000 && v >= 0x8000_0000 then v < u
           else u >= 0x8000_0000
    ensures status == OK && typ == STRING ==>
      forall i, j, m {:trigger out[i][m], out[j][m]} | 0 <= i <= j < |out| && offset <= m < offset + length ::
        out[i][offset..m] == out[j][offset..m] ==> out[i][m] <= out[j][m]
  {
    var f := new SortedFile(source, offset, length, typ, maxItems);
    status, out := f.status, [];
    if status == OK {
      out := Drain(f);
      PermutedHave(SortKey(offset, length, typ), out, Map(BytesOf, source.Records()));
      SortedMeans(offset, length, typ, out);
    }
  }

  /** Takes a record and sets a mark behind it. */
  method TakeAndMark(f: SortedFile) returns (r: Rec)
    requires f.Valid() && f.coming != []
    modifies f, f.repr
    ensures f.Valid() && f.marked && old(f.coming) == [r] + f.coming && f.atMark == old(f.coming)
  {
    var st;
    st, r := f.Next();
    f.SetMark();
  }

  /** Asks for n records. */
  method Skip(f: SortedFile, n: nat)
    requires f.Valid()
    modifies f`now, f`begun, f`last, f`coming, f.repr
    ensures f.Valid()
  {
    for i := 0 to n
      invariant f.Valid()
    {
      var st, other := f.Next();
    }
  }

  /** Merge replay: with the mark set behind the record r, any number n of further records taken, and the
      scan sent back, the next records are r and all that followed it. */
  method MarkAndReturn(f: SortedFile, n: nat) returns (r: Rec, again: seq<Rec>)
    requires f.Valid() && f.coming != []
    modifies f, f.repr
    ensures f.Valid() && again == old(f.coming) && r == again[0]
  {
    r := TakeAndMark(f);
    Skip(f, n);
    f.GotoMark();
    again := Drain(f);
  }

  /** A mark set before the first call of next() loses everything: going back to it is right exactly if
      the source has no records. */
  method MarkUnread(f: SortedFile) returns (again: seq<Rec>)
    requires f.Valid() && !f.begun
    modifies f, f.repr
    ensures f.Valid() && again == [] && (again == old(f.coming) <==> old(f.coming) == [])
  {
    f.SetMark();
    f.GotoMark();
    again := Drain(f);
  }
}
