/**
  Splitting a source file into sorted runs: sortFile and generateRun.
 */
module RunMaking {
  import opened Bytes
  import opened Errors
  import opened Sequences
  import opened SlottedPage
  import opened HeapSpec
  import opened HeapGrowth
  import opened HeapStores
  import opened HeapScans
  import opened HeapInserts
  import opened Filters
  import opened MergeOrder
  import opened RunValues
  import opened RunFiles
  import opened ScanRuns

  /** SORTREC: the RID of a record and its sort attribute. */
  datatype SortRec = SortRec(rid: RID, field: seq<byte>)

  ghost predicate FieldsSorted(typ: Datatype, s: seq<SortRec>) {
    forall i, j {:trigger KeyLe(typ, s[i].field, s[j].field)} | 0 <= i <= j < |s| :: KeyLe(typ, s[i].field, s[j].field)
  }

  function InsertRec(typ: Datatype, x: SortRec, s: seq<SortRec>): (r: seq<SortRec>)
    ensures multiset(r) == multiset(s) + multiset{x}
  {
    if s == [] || KeyLe(typ, x.field, s[0].field) then [x] + s
    else
      assert s == [s[0]] + s[1..];
      [s[0]] + InsertRec(typ, x, s[1..])
  }

  ghost predicate AllNumeric(typ: Datatype, s: seq<SortRec>) {
    forall x {:trigger Numeric(typ, x.field)} | x in s :: Numeric(typ, x.field)
  }

  ghost predicate FieldBelow(typ: Datatype, f: seq<byte>, s: seq<SortRec>) {
    forall x {:trigger KeyLe(typ, f, x.field)} | x in s :: KeyLe(typ, f, x.field)
  }

  lemma {:induction false} FieldsCons(typ: Datatype, x: SortRec, s: seq<SortRec>)
    requires Numeric(typ, x.field) && FieldBelow(typ, x.field, s) && FieldsSorted(typ, s)
    ensures FieldsSorted(typ, [x] + s)
  {
    KeyTotal(typ, x.field, x.field);
    var t := [x] + s;
    forall i, j {:trigger KeyLe(typ, t[i].field, t[j].field)} | 0 <= i <= j < |t|
      ensures KeyLe(typ, t[i].field, t[j].field)
    {
      if i > 0 {
        assert KeyLe(typ, s[i - 1].field, s[j - 1].field);
      } else if j > 0 {
        assert t[j] in s;
      }
    }
  }

  lemma {:induction false} FieldsTail(typ: Datatype, s: seq<SortRec>)
    requires FieldsSorted(typ, s) && s != []
    ensures FieldsSorted(typ, s[1..]) && FieldBelow(typ, s[0].field, s[1..])
  {
    var t := s[1..];
    forall i, j {:trigger KeyLe(typ, t[i].field, t[j].field)} | 0 <= i <= j < |t|
      ensures KeyLe(typ, t[i].field, t[j].field)
    {
      assert KeyLe(typ, s[i + 1].field, s[j + 1].field);
    }
    forall x {:trigger KeyLe(typ, s[0].field, x.field)} | x in t ensures KeyLe(typ, s[0].field, x.field) {
      var j :| 0 <= j < |t| && t[j] == x;
      assert KeyLe(typ, s[0].field, s[j + 1].field);
    }
  }

  lemma {:induction false} InsertSorted(typ: Datatype, x: SortRec, s: seq<SortRec>)
    requires FieldsSorted(typ, s) && AllNumeric(typ, s) && Numeric(typ, x.field)
    ensures FieldsSorted(typ, InsertRec(typ, x, s))
  {
    if s == [] {
      FieldsCons(typ, x, s);
    } else if KeyLe(typ, x.field, s[0].field) {
      FieldsTail(typ, s);
      forall y {:trigger KeyLe(typ, x.field, y.field)} | y in s ensures KeyLe(typ, x.field, y.field) {
        if y in s[1..] {
          assert KeyLe(typ, s[0].field, y.field);
          KeyTransitive(typ, x.field, s[0].field, y.field);
        } else {
          assert y == s[0];
        }
      }
      FieldsCons(typ, x, s);
    } else {
      FieldsTail(typ, s);
      assert Numeric(typ, s[0].field);
      forall y {:trigger Numeric(typ, y.field)} | y in s[1..] ensures Numeric(typ, y.field) {
        assert y in s;
      }
      InsertSorted(typ, x, s[1..]);
      KeyTotal(typ, x.field, s[0].field);
      var r := InsertRec(typ, x, s[1..]);
      forall y {:trigger KeyLe(typ, s[0].field, y.field)} | y in r ensures KeyLe(typ, s[0].field, y.field) {
        assert y in multiset(r);
        assert y == x || y in s[1..];
      }
      FieldsCons(typ, s[0], r);
    }
  }

  /** qsort(3) on the buffer.  Nothing is used of it but that it sorts. */
  method Qsort(typ: Datatype, buffer: seq<SortRec>) returns (sorted: seq<SortRec>)
    requires AllNumeric(typ, buffer)
    ensures multiset(sorted) == multiset(buffer) && FieldsSorted(typ, sorted)
  {
    sorted := [];
    for i := 0 to |buffer|
      invariant multiset(sorted) == multiset(buffer[..i]) && FieldsSorted(typ, sorted)
    {
      assert buffer[..i + 1] == buffer[..i] + [buffer[i]];
      assert Numeric(typ, buffer[i].field);
      forall y {:trigger Numeric(typ, y.field)} | y in sorted ensures Numeric(typ, y.field) {
        assert y in multiset(sorted);
        assert y in buffer[..i];
      }
      InsertSorted(typ, buffer[i], sorted);
      sorted := InsertRec(typ, buffer[i], sorted);
    }
    assert buffer[..|buffer|] == buffer;
  }

  // ---- The buffer ----

  /** The bytes of the record with that RID. */
  function ByRid(all: seq<Entry>, rid: RID): Rec {
    if all == [] then [] else if all[0].rid == rid then all[0].bytes else ByRid(all[1..], rid)
  }

  lemma {:induction false} ByRidAt(all: seq<Entry>, i: nat)
    requires OneEach(all) && i < |all|
    ensures ByRid(all, all[i].rid) == all[i].bytes
  {
    if i > 0 {
      assert all[0].rid != all[i].rid;
      forall a, b {:trigger all[1..][a], all[1..][b]} | 0 <= a < b < |all| - 1
        ensures all[1..][a].rid != all[1..][b].rid
      {
        assert all[a + 1].rid != all[b + 1].rid;
      }
      ByRidAt(all[1..], i - 1);
    }
  }

  function FetchRec(all: seq<Entry>): SortRec -> Rec {
    (x: SortRec) => ByRid(all, x.rid)
  }

  predicate IsSortRec(k: SortKey, e: Entry, x: SortRec) {
    x == SortRec(e.rid, k.Of(e.bytes))
  }

  /** The buffer holds the records of the source from lo on. */
  ghost predicate Buffered(k: SortKey, all: seq<Entry>, lo: nat, buffer: seq<SortRec>) {
    && lo + |buffer| <= |all|
    && forall i {:trigger buffer[i]} | 0 <= i < |buffer| :: IsSortRec(k, all[lo + i], buffer[i])
  }

  /** The records of a file that can be sorted: each has one RID and the attribute, and it can be
      compared with that of any other. */
  ghost predicate Source(k: SortKey, all: seq<Entry>) {
    OneEach(all) && Solid(all) && Sortable(k, Map(BytesOf, all))
  }

  lemma {:induction false} SourceHas(k: SortKey, all: seq<Entry>, i: nat)
    requires Source(k, all) && i < |all|
    ensures all[i].bytes in Map(BytesOf, all) && k.Has(all[i].bytes)
  {
    MapIndex(BytesOf, all, i);
    assert Map(BytesOf, all)[i] == all[i].bytes;
  }

  /** The record an element of the buffer stands for. */
  lemma {:induction false} EntryOf(k: SortKey, all: seq<Entry>, lo: nat, buffer: seq<SortRec>, x: SortRec)
    returns (e: Entry)
    requires Source(k, all) && Buffered(k, all, lo, buffer) && x in buffer
    ensures e in all && IsSortRec(k, e, x) && FetchRec(all)(x) == e.bytes
    ensures e.bytes in Map(BytesOf, all) && k.Has(e.bytes) && Numeric(k.typ, x.field)
  {
    var i :| 0 <= i < |buffer| && buffer[i] == x;
    e := all[lo + i];
    ByRidAt(all, lo + i);
    SourceHas(k, all, lo + i);
  }

  lemma {:induction false} BufferNumeric(k: SortKey, all: seq<Entry>, lo: nat, buffer: seq<SortRec>)
    requires Source(k, all) && Buffered(k, all, lo, buffer)
    ensures AllNumeric(k.typ, buffer)
  {
    forall x {:trigger Numeric(k.typ, x.field)} | x in buffer ensures Numeric(k.typ, x.field) {
      var e := EntryOf(k, all, lo, buffer, x);
    }
  }

  lemma {:induction false} BufferRecords(k: SortKey, all: seq<Entry>, lo: nat, buffer: seq<SortRec>)
    requires Source(k, all) && Buffered(k, all, lo, buffer)
    ensures |Map(BytesOf, all)| == |all| && Map(FetchRec(all), buffer) == Map(BytesOf, all)[lo..lo + |buffer|]
  {
    MapBytes(all);
    forall i | 0 <= i < |buffer| ensures FetchRec(all)(buffer[i]) == Map(BytesOf, all)[lo..lo + |buffer|][i] {
      assert IsSortRec(k, all[lo + i], buffer[i]);
      ByRidAt(all, lo + i);
      assert SameBytes(Map(BytesOf, all), all, lo + i);
    }
    MapIs(FetchRec(all), buffer, Map(BytesOf, all)[lo..lo + |buffer|]);
  }

  /** A record is read, and its attribute copied. */
  method ReadSortRec(k: SortKey, hfs: HeapFileScan, ghost all: seq<Entry>, ghost at: nat)
    returns (status: Status, x: SortRec)
    requires Reading(hfs, all, at) && k.Proper() && forall e | e in all :: k.Within(e.bytes)
    modifies hfs, hfs.store`pins, hfs.store`unsaved
    ensures hfs.Conserved()
    ensures if at < |all| then status == OK && Reading(hfs, all, at + 1) && IsSortRec(k, all[at], x)
            else status == FILEEOF && Reading(hfs, all, at)
  {
    var rid, rec;
    status, rid, rec := ReadNext(hfs, all, at);
    x := SortRec(rid, []);
    if status == OK {
      assert all[at] in all;
      x := SortRec(rid, rec[k.offset..k.offset + k.length]);
    }
  }

  /** The inner loop of sortFile: up to maxItems records are read. */
  method FillBuffer(k: SortKey, hfs: HeapFileScan, maxItems: nat, ghost all: seq<Entry>, ghost lo: nat)
    returns (buffer: seq<SortRec>)
    requires Reading(hfs, all, lo) && k.Proper() && lo <= |all| && forall e | e in all :: k.Within(e.bytes)
    modifies hfs, hfs.store`pins, hfs.store`unsaved
    ensures hfs.Conserved()
    ensures Buffered(k, all, lo, buffer) && Reading(hfs, all, lo + |buffer|)
    ensures |buffer| <= maxItems && (|buffer| < maxItems ==> lo + |buffer| == |all|)
  {
    buffer := [];
    var status := OK;
    while |buffer| < maxItems && status == OK
      invariant hfs.Conserved() && Reading(hfs, all, lo + |buffer|)
      invariant |buffer| <= maxItems && Buffered(k, all, lo, buffer)
      invariant status != OK ==> lo + |buffer| == |all|
      decreases maxItems - |buffer|, status == OK
    {
      var x;
      status, x := ReadSortRec(k, hfs, all, lo + |buffer|);
      if status == OK {
        buffer := buffer + [x];
      }
    }
  }

  // ---- Writing a run ----

  /** A file with these records, in this order. */
  ghost predicate FileHolds(f: HeapStore, recs: seq<Rec>)
    reads f
  {
    f.Valid() && f.Counted() && Solid(f.Records()) && Map(BytesOf, f.Records()) == recs
  }

  lemma {:induction false} ShortExtent(p: PageState, lo: int, hi: int)
    requires p.Valid()
    ensures forall e | e in PageEntries(p, lo, hi) :: |e.bytes| <= MAX_RECORD
    decreases hi - lo
  {
    if lo < hi {
      ShortExtent(p, lo + 1, hi);
      assert p.area.Live(lo) ==> p.area.Within(lo);
    }
  }

  /** Every record of a file fits an empty page. */
  lemma {:induction false} ShortRecords(ps: seq<PageState>, i: int, j: int)
    requires AllValid(ps) && 0 <= i && j <= |ps|
    ensures forall e | e in FileEntries(ps, i, j) :: |e.bytes| <= MAX_RECORD
    decreases j - i
  {
    if i < j {
      assert ps[i].Valid();
      ShortExtent(ps[i], 0, SlotCount(ps[i]));
      ShortRecords(ps, i + 1, j);
    }
  }

  predicate Present(r: Rec) { r != [] }

  /** Records a page can take, none of length 0. */
  ghost predicate Proper(recs: seq<Rec>) {
    Short(recs) && forall r {:trigger Present(r)} | r in recs :: Present(r)
  }

  lemma {:induction false} SolidBytes(es: seq<Entry>, recs: seq<Rec>)
    requires recs == Map(BytesOf, es) && Proper(recs)
    ensures Solid(es)
  {
    MapBytes(es);
    forall e {:trigger Legible(e)} | e in es ensures Legible(e) {
      var i :| 0 <= i < |es| && es[i] == e;
      assert SameBytes(recs, es, i) && recs[i] in recs && Present(recs[i]);
    }
  }

  lemma {:induction false} EmptyFile()
    ensures var ps := [InitPage(2)];
      IsChain(ps) && NewTo(ps, 3) && AllValid(ps) && Listing(ps) == [] && Behind(ps) == []
  {
    var ps := [InitPage(2)];
    EmptyAreaValid();
    assert ChainAt(ps, 0);
    assert ps[0].Valid();
    ListingSplit(ps, 0, 0);
  }

  /** A file that was empty holds what was written to it, in that order. */
  lemma {:induction false} Written(f: HeapStore, base: Snapshot, recs: seq<Rec>)
    requires f.Valid() && Filled(f, base, recs) && Proper(recs) && base == Snapshot([InitPage(2)], 3, 0)
    ensures FileHolds(f, recs)
  {
    EmptyFile();
    FilledCounted(f, base, recs);
    InsertAllAppends(base.chain, base.numPages, recs);
    assert FilledTo(f.Now(), base, recs);
    assert Map(BytesOf, f.Records()) == [] + recs;
    SolidBytes(f.Records(), recs);
  }

  ghost predicate Writing(hfile: HeapFileScan, out: InsertFileScan, all: seq<Entry>, base: Snapshot, recs: seq<Rec>)
    reads hfile, hfile.store, out, out.store
  {
    && hfile.Valid() && hfile.store.Records() == all && hfile.store != out.store
    && out.Valid() && Filled(out.store, base, recs)
  }

  /** A record is read again by its RID and written to the run. */
  method CopyRecord(
      hfile: HeapFileScan, out: InsertFileScan, rid: RID, ghost e: Entry, ghost all: seq<Entry>, ghost base: Snapshot,
      ghost recs: seq<Rec>)
    requires Writing(hfile, out, all, base, recs) && e in all && e.rid == rid && e.bytes != []
    modifies hfile, hfile.store`pins, hfile.store`unsaved, out, out.store
    ensures hfile.Conserved() && out.Conserved() && Writing(hfile, out, all, base, recs + [e.bytes])
    ensures |e.bytes| <= MAX_RECORD
  {
    hfile.store.Facts();
    ShortRecords(hfile.store.chain, 0, |hfile.store.chain|);
    var status, record := hfile.GetEntry(rid, e);
    status := Append(out, record, base, recs);
  }

  /** The next record of the sorted buffer. */
  method WriteNext(
      k: SortKey, hfile: HeapFileScan, out: InsertFileScan, x: SortRec, ghost all: seq<Entry>, ghost lo: nat,
      ghost buffer: seq<SortRec>, ghost base: Snapshot, ghost recs: seq<Rec>)
    requires Source(k, all) && Buffered(k, all, lo, buffer) && x in buffer && Proper(recs)
    requires Writing(hfile, out, all, base, recs)
    modifies hfile, hfile.store`pins, hfile.store`unsaved, out, out.store
    ensures hfile.Conserved() && out.Conserved() && Writing(hfile, out, all, base, recs + [FetchRec(all)(x)])
    ensures Proper(recs + [FetchRec(all)(x)])
  {
    ghost var e := EntryOf(k, all, lo, buffer, x);
    CopyRecord(hfile, out, x.rid, e, all, base, recs);
    assert Present(e.bytes);
  }

  /** The records of the sorted buffer are written. */
  method WriteRun(
      k: SortKey, hfile: HeapFileScan, out: InsertFileScan, sorted: seq<SortRec>, ghost all: seq<Entry>, ghost lo: nat,
      ghost buffer: seq<SortRec>, ghost base: Snapshot)
    requires Source(k, all) && Buffered(k, all, lo, buffer) && forall x | x in sorted :: x in buffer
    requires Writing(hfile, out, all, base, [])
    modifies hfile, hfile.store`pins, hfile.store`unsaved, out, out.store
    ensures hfile.Conserved() && out.Conserved() && Writing(hfile, out, all, base, Map(FetchRec(all), sorted))
    ensures Proper(Map(FetchRec(all), sorted))
  {
    ghost var recs: seq<Rec> := [];
    for i := 0 to |sorted|
      invariant hfile.Conserved() && out.Conserved() && Writing(hfile, out, all, base, recs)
      invariant recs == Map(FetchRec(all), sorted[..i]) && Proper(recs)
    {
      WriteNext(k, hfile, out, sorted[i], all, lo, buffer, base, recs);
      MapNext(FetchRec(all), sorted, i);
      recs := recs + [FetchRec(all)(sorted[i])];
    }
    assert sorted[..|sorted|] == sorted;
  }

  lemma {:induction false} MapNext(g: SortRec -> Rec, s: seq<SortRec>, i: nat)
    requires i < |s|
    ensures Map(g, s[..i + 1]) == Map(g, s[..i]) + [g(s[i])]
  {
    assert s[..i + 1] == s[..i] + [s[i]];
    MapOne(g, s[..i], s[i]);
  }

  lemma {:induction false} RunSorted(
      k: SortKey, all: seq<Entry>, lo: nat, buffer: seq<SortRec>, sorted: seq<SortRec>, recs: seq<Rec>)
    requires Source(k, all) && Buffered(k, all, lo, buffer) && recs == Map(FetchRec(all), sorted)
    requires multiset(sorted) == multiset(buffer) && FieldsSorted(k.typ, sorted)
    ensures FromSource(k, Map(BytesOf, all), recs) && |recs| == |buffer|
  {
    assert |sorted| == |multiset(sorted)| == |buffer|;
    forall i | 0 <= i < |sorted|
      ensures |recs| == |sorted| && recs[i] in Map(BytesOf, all) && k.Has(recs[i]) && k.Of(recs[i]) == sorted[i].field
    {
      assert sorted[i] in multiset(sorted);
      assert sorted[i] in buffer;
      var e := EntryOf(k, all, lo, buffer, sorted[i]);
      MapIndex(FetchRec(all), sorted, i);
    }
    forall i, j {:trigger Le(k, recs[i], recs[j])} | 0 <= i <= j < |recs| ensures Le(k, recs[i], recs[j]) {
      assert KeyLe(k.typ, sorted[i].field, sorted[j].field);
    }
  }

  /** What a run holds: its part of the source, sorted. */
  ghost predicate RunOf(k: SortKey, source: seq<Rec>, lo: nat, n: nat, recs: seq<Rec>) {
    && |recs| == n && lo + n <= |source|
    && multiset(recs) == multiset(source[lo..lo + n]) && FromSource(k, source, recs)
  }

  lemma {:induction false} SortedPart(k: SortKey, all: seq<Entry>, lo: nat, buffer: seq<SortRec>, sorted: seq<SortRec>)
    requires Source(k, all) && Buffered(k, all, lo, buffer)
    requires multiset(sorted) == multiset(buffer) && FieldsSorted(k.typ, sorted)
    ensures RunOf(k, Map(BytesOf, all), lo, |buffer|, Map(FetchRec(all), sorted))
  {
    RunSorted(k, all, lo, buffer, sorted, Map(FetchRec(all), sorted));
    BufferRecords(k, all, lo, buffer);
    MapPermutes(FetchRec(all), sorted, buffer);
  }

  lemma {:induction false} SameElements(sorted: seq<SortRec>, buffer: seq<SortRec>)
    requires multiset(sorted) == multiset(buffer)
    ensures forall x | x in sorted :: x in buffer
  {
    forall x | x in sorted ensures x in buffer {
      assert x in multiset(sorted);
    }
  }

  /** Sorts the buffer and writes the records to the file of a run, reading each one again by its RID. */
  method GenerateRun(k: SortKey, source: HeapStore, buffer: seq<SortRec>, ghost all: seq<Entry>, ghost lo: nat)
    returns (file: HeapStore, ghost recs: seq<Rec>)
    requires source.Valid() && source.Records() == all && Source(k, all) && Buffered(k, all, lo, buffer)
    modifies source`pins, source`unsaved
    ensures source.Valid() && (forall n :: source.pins[n] == old(source.pins)[n])
         && source.unsaved <= old(source.unsaved)
    ensures fresh(file) && FileHolds(file, recs) && RunOf(k, Map(BytesOf, all), lo, |buffer|, recs)
  {
    BufferNumeric(k, all, lo, buffer);
    var sorted := Qsort(k.typ, buffer);
    SortedPart(k, all, lo, buffer, sorted);
    SameElements(sorted, buffer);
    recs := Map(FetchRec(all), sorted);
    file := new HeapStore();
    ghost var base := file.Now();
    FillFile(k, source, file, sorted, all, lo, buffer);
    Written(file, base, recs);
  }

  /** The source is open while the file of the run is written. */
  method FillFile(
      k: SortKey, source: HeapStore, file: HeapStore, sorted: seq<SortRec>, ghost all: seq<Entry>, ghost lo: nat,
      ghost buffer: seq<SortRec>)
    requires Source(k, all) && Buffered(k, all, lo, buffer) && forall x | x in sorted :: x in buffer
    requires source.Valid() && source.Records() == all && file.Valid() && file != source
    modifies source`pins, source`unsaved, file
    ensures source.Valid() && (forall n :: source.pins[n] == old(source.pins)[n])
         && source.unsaved <= old(source.unsaved)
    ensures file.Valid() && Filled(file, old(file.Now()), Map(FetchRec(all), sorted))
    ensures Proper(Map(FetchRec(all), sorted))
  {
    var hfile := new HeapFileScan(source);
    label Opened:
    FillOpen(k, hfile, file, sorted, all, lo, buffer);
    label Done:
    var status := hfile.Destroy();
    forall n ensures source.pins[n] == old(source.pins)[n] {
      assert old@Done(hfile.OtherPins(n)) == old@Opened(hfile.OtherPins(n));
    }
    forall n | n in source.unsaved ensures n in old(source.unsaved) {
      assert old@Done(hfile.LeftDirty(n)) ==> old@Opened(hfile.LeftDirty(n));
    }
  }

  method FillOpen(
      k: SortKey, hfile: HeapFileScan, file: HeapStore, sorted: seq<SortRec>, ghost all: seq<Entry>, ghost lo: nat,
      ghost buffer: seq<SortRec>)
    requires Source(k, all) && Buffered(k, all, lo, buffer) && forall x | x in sorted :: x in buffer
    requires hfile.Valid() && hfile.store.Records() == all && file.Valid() && file != hfile.store
    modifies hfile, hfile.store`pins, hfile.store`unsaved, file
    ensures hfile.Conserved() && hfile.Valid()
    ensures file.Valid() && Filled(file, old(file.Now()), Map(FetchRec(all), sorted))
    ensures Proper(Map(FetchRec(all), sorted))
  {
    var outFile := new InsertFileScan(file);
    FilledStart(file);
    WriteRun(k, hfile, outFile, sorted, all, lo, buffer, file.Now());
    outFile.Destroy();
  }

  // ---- All runs ----

  predicate TwoFiles(files: seq<HeapStore>, i: nat, j: nat)
    requires i < |files| && j < |files|
  {
    files[i] != files[j]
  }

  predicate Started(r: Run) { r == Run.Start(r.recs) }

  /** Each run has a file of its own with its records, and no record was asked of it. */
  ghost predicate Filed(files: seq<HeapStore>, rs: seq<Run>)
    reads files
  {
    && |files| == |rs| && (forall i {:trigger Started(rs[i])} | 0 <= i < |rs| :: Started(rs[i]))
    && (forall i {:trigger FileHolds(files[i], rs[i].recs)} | 0 <= i < |files| :: FileHolds(files[i], rs[i].recs))
    && forall i, j {:trigger TwoFiles(files, i, j)} | 0 <= i < j < |files| :: TwoFiles(files, i, j)
  }

  lemma {:induction false} FiledOne(files: seq<HeapStore>, rs: seq<Run>, f: HeapStore, r: Run)
    requires Filed(files, rs) && f !in files && FileHolds(f, r.recs) && Started(r)
    ensures Filed(files + [f], rs + [r])
  {
    var more, all := files + [f], rs + [r];
    forall i {:trigger FileHolds(more[i], all[i].recs)} | 0 <= i < |more| ensures FileHolds(more[i], all[i].recs) {
      assert i < |files| ==> FileHolds(files[i], rs[i].recs);
    }
    forall i {:trigger Started(all[i])} | 0 <= i < |all| ensures Started(all[i]) {
      assert i < |rs| ==> Started(rs[i]);
    }
    forall i, j {:trigger TwoFiles(more, i, j)} | 0 <= i < j < |more| ensures TwoFiles(more, i, j) {
      assert j < |files| ==> TwoFiles(files, i, j);
      assert files[i] in files;
    }
  }

  lemma {:induction false} RunDivides(
      k: SortKey, source: seq<Rec>, maxItems: nat, rs: seq<Run>, lo: nat, n: nat, recs: seq<Rec>)
    requires Divided(k, source, maxItems, rs, lo) && RunOf(k, source, lo, n, recs) && 1 <= n <= maxItems
    ensures Divided(k, source, maxItems, rs + [Run.Start(recs)], lo + n)
  {
    DividedNext(k, source, maxItems, rs, lo, Run.Start(recs));
  }

  /** A run is generated while the scan of the source keeps its place. */
  method NewRun(k: SortKey, hfs: HeapFileScan, buffer: seq<SortRec>, ghost all: seq<Entry>, ghost lo: nat)
    returns (file: HeapStore, ghost recs: seq<Rec>)
    requires Reading(hfs, all, lo + |buffer|) && Source(k, all) && Buffered(k, all, lo, buffer)
    modifies hfs.store`pins, hfs.store`unsaved
    ensures hfs.Conserved() && Reading(hfs, all, lo + |buffer|)
    ensures fresh(file) && FileHolds(file, recs) && RunOf(k, Map(BytesOf, all), lo, |buffer|, recs)
  {
    assert ReadTo(hfs, all, lo + |buffer|);
    file, recs := GenerateRun(k, hfs.store, buffer, all, lo);
    forall n {:trigger hfs.LeftDirty(n)} | hfs.LeftDirty(n) ensures old(hfs.LeftDirty(n)) {}
    assert ReadTo(hfs, all, lo + |buffer|);
  }

  /** One more run, unless the source is at its end. */
  method AddRun(
      k: SortKey, hfs: HeapFileScan, maxItems: nat, files: seq<HeapStore>, ghost rs: seq<Run>, ghost all: seq<Entry>,
      ghost lo: nat)
    returns (numItems: nat, more: seq<HeapStore>, ghost rs': seq<Run>)
    requires Reading(hfs, all, lo) && Source(k, all) && maxItems >= 2 && hfs.store !in files
    requires Divided(k, Map(BytesOf, all), maxItems, rs, lo) && Filed(files, rs) && lo <= |all|
    modifies hfs, hfs.store`pins, hfs.store`unsaved
    ensures hfs.Conserved() && Reading(hfs, all, lo + numItems) && lo + numItems <= |all|
    ensures hfs.store !in more && Filed(more, rs') && (forall f | f in more :: f in files || fresh(f))
    ensures Divided(k, Map(BytesOf, all), maxItems, rs', lo + numItems) && (numItems == 0 ==> lo == |all|)
  {
    SourceWithin(k, all);
    var buffer := FillBuffer(k, hfs, maxItems, all, lo);
    numItems := |buffer|;
    more, rs' := files, rs;
    if numItems > 0 {
      var file;
      ghost var recs;
      file, recs := NewRun(k, hfs, buffer, all, lo);
      RunDivides(k, Map(BytesOf, all), maxItems, rs, lo, numItems, recs);
      FiledOne(files, rs, file, Run.Start(recs));
      more, rs' := files + [file], rs + [Run.Start(recs)];
    }
  }

  lemma {:induction false} SourceWithin(k: SortKey, all: seq<Entry>)
    requires Source(k, all)
    ensures forall e | e in all :: k.Within(e.bytes)
  {
    forall e | e in all ensures k.Within(e.bytes) {
      var i :| 0 <= i < |all| && all[i] == e;
      SourceHas(k, all, i);
    }
  }

  /** The loop of sortFile. */
  method SplitSource(k: SortKey, hfs: HeapFileScan, maxItems: nat, ghost all: seq<Entry>)
    returns (files: seq<HeapStore>, ghost rs: seq<Run>)
    requires Reading(hfs, all, 0) && Source(k, all) && maxItems >= 2
    modifies hfs, hfs.store`pins, hfs.store`unsaved
    ensures hfs.Conserved() && hfs.Valid() && hfs.store.Records() == all
    ensures Filed(files, rs) && hfs.store !in files && (forall f | f in files :: fresh(f))
    ensures Divided(k, Map(BytesOf, all), maxItems, rs, |all|)
  {
    files, rs := [], [];
    var numItems := 1;
    ghost var lo := 0;
    MapBytes(all);
    assert ReadTo(hfs, all, 0);
    while numItems > 0
      invariant numItems >= 0 && 0 <= lo <= |all| && hfs.Conserved() && Reading(hfs, all, lo) && hfs.store !in files
      invariant Divided(k, Map(BytesOf, all), maxItems, rs, lo) && (numItems == 0 ==> lo == |all|)
      invariant Filed(files, rs) && forall f | f in files :: fresh(f)
      decreases |all| - lo, numItems
    {
      numItems, files, rs := AddRun(k, hfs, maxItems, files, rs, all, lo);
      lo := lo + numItems;
    }
    assert ReadTo(hfs, all, |all|);
  }
}
