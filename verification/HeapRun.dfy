/**
  The books of a heap file - its chain, page count and record count - over any mix of insertions and deletions.
 */
module HeapRuns {
  import opened Bytes
  import opened Errors
  import opened SlottedPage
  import opened HeapSpec
  import opened HeapGrowth
  import opened HeapStores
  import opened HeapScans
  import opened HeapInserts
  import opened Filters

  datatype Book = Book(chain: seq<PageState>, numPages: int, pageCnt: int, recCnt: int)

  /** insertRecord, or deleteRecord by a scan that stands on slot k of page i of the chain. */
  datatype Change = Put(rec: seq<byte>) | Drop(i: nat, k: int)

  /** The pages are linked in one chain, pageCnt is its length and recCnt the number of records on it. */
  ghost predicate Kept(b: Book) {
    && IsChain(b.chain) && NewTo(b.chain, b.numPages) && AllValid(b.chain)
    && b.pageCnt == |b.chain| && b.recCnt == |Listing(b.chain)|
  }

  /** There is a record to delete. */
  predicate Removable(ps: seq<PageState>, i: nat, k: int) {
    i < |ps| && ps[i].area.Readable(k) && ps[i].area.Within(k)
  }

  ghost function AfterPut(b: Book, rec: seq<byte>): Book
    requires b.chain != []
  {
    if |rec| > DATA_SIZE then b
    else Book(InsertInto(b.chain, rec, b.numPages), NextNumber(b.chain, rec, b.numPages),
              b.pageCnt + (if FitsLast(b.chain, rec) then 0 else 1),
              b.recCnt + if |rec| <= MAX_RECORD then 1 else 0)
  }

  ghost function AfterDrop(b: Book, i: nat, k: int): Book {
    if Removable(b.chain, i, k) then b.(chain := b.chain[i := RemoveFrom(b.chain[i], k)], recCnt := b.recCnt - 1) else b
  }

  ghost function After(b: Book, c: Change): Book
    requires b.chain != []
  {
    match c
    case Put(rec) => AfterPut(b, rec)
    case Drop(i, k) => AfterDrop(b, i, k)
  }

  /** The records after a change: a bag that gains the new one under its RID, or loses the one deleted. */
  ghost function Told(es: multiset<Entry>, b: Book, c: Change): multiset<Entry>
    requires Kept(b)
  {
    match c
    case Put(rec) => if |rec| <= MAX_RECORD then es + multiset{NewEntry(b.chain, rec, b.numPages)} else es
    case Drop(i, k) =>
      if Removable(b.chain, i, k) then (assert b.chain[i].Valid(); es - multiset{EntryAt(b.chain[i], k)}) else es
  }

  lemma {:induction false} OneAmong(a: seq<Entry>, e: Entry, b: seq<Entry>)
    ensures multiset(a + [e] + b) == multiset(a + b) + multiset{e} && |a + [e] + b| == |a + b| + 1
  {}

  lemma {:induction false} InsertedPages(ps: seq<PageState>, rec: seq<byte>, n: int)
    requires ps != []
    ensures |InsertInto(ps, rec, n)| == |ps| + if FitsLast(ps, rec) then 0 else 1
  {}

  lemma {:induction false} PutShort(b: Book, rec: seq<byte>)
    requires Kept(b) && |rec| <= MAX_RECORD
    ensures Kept(AfterPut(b, rec))
    ensures multiset(Listing(AfterPut(b, rec).chain))
            == multiset(Listing(b.chain)) + multiset{NewEntry(b.chain, rec, b.numPages)}
  {
    var ps, n := b.chain, b.numPages;
    InsertIntoChain(ps, n, rec);
    InsertedPages(ps, rec, n);
    var back := InsertExact(ps, rec, n);
    OneAmong(Front(Listing(ps), back), NewEntry(ps, rec, n), back);
  }

  lemma {:induction false} PutLong(b: Book, rec: seq<byte>)
    requires Kept(b) && |rec| > MAX_RECORD
    ensures Kept(AfterPut(b, rec)) && Listing(AfterPut(b, rec).chain) == Listing(b.chain)
  {
    if FitsLast(b.chain, rec) {
      FitsShort(b.chain, rec);
    }
    if |rec| <= DATA_SIZE {
      InsertTooLong(b.chain, rec, b.numPages);
      InsertedPages(b.chain, rec, b.numPages);
    }
  }

  lemma {:induction false} PutKeeps(b: Book, rec: seq<byte>)
    requires Kept(b)
    ensures Kept(After(b, Put(rec)))
    ensures multiset(Listing(After(b, Put(rec)).chain)) == Told(multiset(Listing(b.chain)), b, Put(rec))
  {
    if |rec| <= MAX_RECORD {
      PutShort(b, rec);
    } else {
      PutLong(b, rec);
    }
  }

  lemma {:induction false} DropKeeps(b: Book, i: nat, k: int)
    requires Kept(b)
    ensures Kept(After(b, Drop(i, k)))
    ensures multiset(Listing(After(b, Drop(i, k)).chain)) == Told(multiset(Listing(b.chain)), b, Drop(i, k))
  {
    var ps := b.chain;
    if Removable(ps, i, k) {
      DeleteChain(ps, i, k);
      DeleteListing(ps, i, k);
      assert ps[i].Valid() && ps[i].area.Live(k);
      ListingAt(ps, i, k);
      assert Listing(ps) == Before(ps, i, k) + [EntryAt(ps[i], k)] + From(ps, i, k + 1);
      NumbersStay(ps, b.numPages, i, RemoveFrom(ps[i], k));
    }
  }

  lemma {:induction false} NumbersStay(ps: seq<PageState>, n: int, i: nat, p: PageState)
    requires NewTo(ps, n) && i < |ps| && p.pageNo == ps[i].pageNo
    ensures NewTo(ps[i := p], n)
  {}

  // ---- Runs ----

  ghost function Run(b: Book, cs: seq<Change>): (r: Book)
    requires b.chain != []
    ensures r.chain != []
  {
    if cs == [] then b else After(Run(b, cs[..|cs| - 1]), cs[|cs| - 1])
  }

  /** The bag of records, change by change. */
  ghost function Tally(b: Book, cs: seq<Change>): multiset<Entry>
    requires Kept(b)
  {
    if cs == [] then multiset(Listing(b.chain))
    else
      RunKept(b, cs[..|cs| - 1]);
      Told(Tally(b, cs[..|cs| - 1]), Run(b, cs[..|cs| - 1]), cs[|cs| - 1])
  }

  lemma {:induction false} ChangeKept(b: Book, c: Change)
    requires Kept(b)
    ensures Kept(After(b, c))
  {
    match c
    case Put(rec) => PutKeeps(b, rec);
    case Drop(i, k) => DropKeeps(b, i, k);
  }

  /** Whatever is inserted and deleted, in any order, the books are kept. */
  lemma {:induction false} RunKept(b: Book, cs: seq<Change>)
    requires Kept(b)
    ensures Kept(Run(b, cs))
  {
    if cs != [] {
      RunKept(b, cs[..|cs| - 1]);
      ChangeKept(Run(b, cs[..|cs| - 1]), cs[|cs| - 1]);
    }
  }

  /** And the file lists exactly the records that were put in and not deleted, with their RIDs and bytes. */
  lemma {:induction false} RunTallies(b: Book, cs: seq<Change>)
    requires Kept(b)
    ensures Kept(Run(b, cs)) && multiset(Listing(Run(b, cs).chain)) == Tally(b, cs)
  {
    RunKept(b, cs);
    if cs != [] {
      var before, c := Run(b, cs[..|cs| - 1]), cs[|cs| - 1];
      RunTallies(b, cs[..|cs| - 1]);
      match c
      case Put(rec) => PutKeeps(before, rec);
      case Drop(i, k) => DropKeeps(before, i, k);
    }
  }

  // ---- A RID is given to one record at a time ----

  /** No two records of a file have one RID; so an insertion never takes the RID of a record that is there. */
  lemma {:induction false} RidsDiffer(b: Book, cs: seq<Change>)
    requires Kept(b)
    ensures Kept(Run(b, cs)) && OneEach(Listing(Run(b, cs).chain))
  {
    RunKept(b, cs);
    FileRids(Run(b, cs).chain, 0, |Run(b, cs).chain|);
  }

  // ---- On the file ----

  ghost function Books(store: HeapStore): Book
    reads store`hdr, store`chain, store`numPages
  {
    Book(store.chain, store.numPages, store.hdr.pageCnt, store.hdr.recCnt)
  }

  lemma {:induction false} BooksKept(store: HeapStore)
    requires store.Valid()
    ensures Kept(Books(store)) <==> store.Counted()
  {
    store.Facts();
    store.NextIsNew();
  }

  method PutRecord(ins: InsertFileScan, rec: seq<byte>) returns (status: Status, outRid: RID)
    requires ins.Valid() && ins.store.Counted()
    modifies ins, ins.store
    ensures ins.Conserved() && ins.Valid() && ins.store.Counted()
    ensures Books(ins.store) == After(old(Books(ins.store)), Put(rec))
    ensures status == OK <==> |rec| <= MAX_RECORD
  {
    BooksKept(ins.store);
    PutKeeps(Books(ins.store), rec);
    if FitsLast(ins.store.chain, rec) {
      FitsShort(ins.store.chain, rec);
    }
    InsertedPages(ins.store.chain, rec, ins.store.numPages);
    status, outRid := ins.InsertRecord(rec);
    ins.store.Facts();
    BooksKept(ins.store);
  }

  /** Deletes the record a scan has come to. */
  method DropRecord(scan: HeapFileScan, ghost e: Entry) returns (status: Status)
    requires scan.Valid() && scan.IsOn(e) && e.bytes != [] && scan.store.Counted()
    modifies scan`curDirtyFlag, scan`hdrDirtyFlag
    modifies scan.store`pages, scan.store`chain, scan.store`hdr, scan.store`unsaved
    ensures scan.Conserved() && scan.Valid() && scan.store.Counted() && status == OK
    ensures Books(scan.store) == After(old(Books(scan.store)), Drop(scan.idx, scan.curRec.slotNo))
  {
    ghost var before;
    status, before := scan.DeleteRecord(e);
  }

  /** What a client asks for: to insert a record, or to delete the first one that meets a condition. */
  datatype Request = Adding(rec: seq<byte>) | Deleting(f: Filter)

  predicate Askable(r: Request) { r.Deleting? ==> r.f.Filter? && Usable(r.f) }

  /** Which page of the chain has number n. */
  function PageOf(ps: seq<PageState>, n: int): nat {
    if ps == [] || ps[0].pageNo == n then 0 else 1 + PageOf(ps[1..], n)
  }

  lemma {:induction false} PageOfIs(ps: seq<PageState>, i: nat)
    requires i < |ps| && forall j | 0 <= j < i :: ps[j].pageNo != ps[i].pageNo
    ensures PageOf(ps, ps[i].pageNo) == i
  {
    if i > 0 {
      assert ps[0].pageNo != ps[i].pageNo;
      PageOfIs(ps[1..], i - 1);
    }
  }

  lemma {:induction false} PageOfChain(ps: seq<PageState>, i: nat)
    requires IsChain(ps) && i < |ps|
    ensures PageOf(ps, ps[i].pageNo) == i
  {
    forall j | 0 <= j < i ensures ps[j].pageNo != ps[i].pageNo {
      assert OtherPage(ps, j, i);
    }
    PageOfIs(ps, i);
  }

  /** The change a request asks for: a deletion takes the first record its scan stops at, if it can read it. */
  ghost function Asked(b: Book, r: Request): (cs: seq<Change>)
    requires Kept(b) && Askable(r)
    ensures |cs| <= 1
  {
    match r
    case Adding(rec) => [Put(rec)]
    case Deleting(f) =>
      var s := SkipTo(f, Listing(b.chain));
      if s == [] || s[0].bytes == [] then []
      else [Drop(PageOf(b.chain, s[0].rid.pageNo), s[0].rid.slotNo)]
  }

  ghost function AfterRequest(b: Book, r: Request): (after: Book)
    requires Kept(b) && Askable(r)
    ensures Kept(after)
  {
    RunKept(b, Asked(b, r));
    Run(b, Asked(b, r))
  }

  predicate AllAskable(rs: seq<Request>) { forall r | r in rs :: Askable(r) }

  ghost function RunAsked(b: Book, rs: seq<Request>): (after: Book)
    requires Kept(b) && AllAskable(rs)
    ensures Kept(after)
  {
    if rs == [] then b else AfterRequest(RunAsked(b, rs[..|rs| - 1]), rs[|rs| - 1])
  }

  lemma {:induction false} RunOne(b: Book, c: Change)
    requires b.chain != []
    ensures Run(b, [c]) == After(b, c)
  {
    assert [c][..0] == [] && Run(b, []) == b;
  }

  lemma {:induction false} RunNone(b: Book)
    requires b.chain != []
    ensures Run(b, []) == b
  {}

  // ---- What the requests do to the records ----

  lemma {:induction false} CutAtStop(f: Filter, es: seq<Entry>) returns (front: seq<Entry>)
    requires Usable(f) && SkipTo(f, es) != []
    ensures var s := SkipTo(f, es); front == es[..|es| - |s|] && es == front + [s[0]] + s[1..] && s[0] in es
  {
    SkipMeans(f, es);
    front := es[..|es| - |SkipTo(f, es)|];
    HeadOut(es, front, SkipTo(f, es));
  }

  lemma {:induction false} HeadOut(es: seq<Entry>, front: seq<Entry>, s: seq<Entry>)
    requires es == front + s && s != []
    ensures es == front + [s[0]] + s[1..] && s[0] in es
  {
    assert s == [s[0]] + s[1..];
    assert es[|front|] == s[0];
  }

  /** A RID occurs in one place. */
  lemma {:induction false} SamePlace(a: seq<Entry>, e: Entry, b: seq<Entry>, c: seq<Entry>, d: seq<Entry>)
    requires OneEach(a + [e] + b) && a + [e] + b == c + [e] + d
    ensures a == c && b == d
  {
    var es := a + [e] + b;
    assert es[|a|] == e && es[|c|] == e;
    assert |a| == |c|;
    assert a == es[..|a|] && b == es[|a| + 1..] && c == es[..|c|] && d == es[|c| + 1..];
  }

  lemma {:induction false} DropListing(b: Book, i: nat, k: int, front: seq<Entry>, e: Entry, back: seq<Entry>)
    requires Kept(b) && i < |b.chain| && b.chain[i].Valid() && b.chain[i].area.Live(k)
    requires EntryAt(b.chain[i], k) == e && e.bytes != [] && k >= 0
    requires Listing(b.chain) == front + [e] + back && OneEach(front + [e] + back)
    ensures Removable(b.chain, i, k) && AllValid(After(b, Drop(i, k)).chain)
    ensures Listing(After(b, Drop(i, k)).chain) == front + back
  {
    assert b.chain[i].area.Within(k);
    DeleteListing(b.chain, i, k);
    ListingAt(b.chain, i, k);
    SamePlace(front, e, back, Before(b.chain, i, k), From(b.chain, i, k + 1));
  }

  /** The first record a deletion's scan stops at is the one that is asked for. */
  lemma {:induction false} AskedDrop(b: Book, f: Filter, i: nat, k: int)
    requires Kept(b) && f.Filter? && Usable(f) && i < |b.chain|
    requires var s := SkipTo(f, Listing(b.chain)); s != [] && s[0].bytes != [] && s[0].rid == RID(b.chain[i].pageNo, k)
    ensures AfterRequest(b, Deleting(f)) == After(b, Drop(i, k))
  {
    PageOfChain(b.chain, i);
    RunOne(b, Drop(i, k));
  }

  lemma {:induction false} AskedNothing(b: Book, f: Filter)
    requires Kept(b) && f.Filter? && Usable(f)
    requires var s := SkipTo(f, Listing(b.chain)); s == [] || s[0].bytes == []
    ensures AfterRequest(b, Deleting(f)) == b
  {
    RunNone(b);
  }

  /** A deletion takes out the first record that its scan stops at, and keeps all others, their RIDs and their
      order; if it stops at a record of length 0, or at none, nothing changes. */
  lemma {:induction false} DeletesFirst(b: Book, f: Filter)
    requires Kept(b) && f.Filter? && Usable(f)
    ensures var es, s := Listing(b.chain), SkipTo(f, Listing(b.chain));
      if s == [] || s[0].bytes == [] then AfterRequest(b, Deleting(f)) == b
      else
        && Listing(AfterRequest(b, Deleting(f)).chain) == es[..|es| - |s|] + s[1..]
        && AfterRequest(b, Deleting(f)).recCnt == b.recCnt - 1
  {
    var es, s := Listing(b.chain), SkipTo(f, Listing(b.chain));
    if s == [] || s[0].bytes == [] {
      AskedNothing(b, f);
    } else {
      var front := CutAtStop(f, es);
      FileRids(b.chain, 0, |b.chain|);
      var i, k := Located(b.chain, s[0]);
      AskedDrop(b, f, i, k);
      DropListing(b, i, k, front, s[0], s[1..]);
    }
  }

  /** An insertion adds its record under a RID of its own, or nothing if no page can take it. */
  lemma {:induction false} InsertsOne(b: Book, rec: seq<byte>)
    requires Kept(b)
    ensures multiset(Listing(AfterRequest(b, Adding(rec)).chain)) == Told(multiset(Listing(b.chain)), b, Put(rec))
  {
    RunOne(b, Put(rec));
    PutKeeps(b, rec);
  }

  // ---- The requests on the file ----

  method DoInsert(store: HeapStore, rec: seq<byte>)
    requires store.Valid() && store.Counted() && Kept(Books(store))
    modifies store
    ensures store.Valid() && store.Counted() && Books(store) == AfterRequest(old(Books(store)), Adding(rec))
    ensures forall n :: store.pins[n] == old(store.pins)[n]
    ensures store.unsaved <= old(store.unsaved)
  {
    RunOne(Books(store), Put(rec));
    var ins := new InsertFileScan(store);
    label Opened:
    var status, outRid := PutRecord(ins, rec);
    label Done:
    ins.Destroy();
    forall n ensures store.pins[n] == old(store.pins)[n] {
      assert old@Done(ins.OtherPins(n)) == old@Opened(ins.OtherPins(n));
    }
    forall n | n in store.unsaved ensures n in old(store.unsaved) {
      assert old@Done(ins.LeftDirty(n)) ==> old@Opened(ins.LeftDirty(n));
    }
  }

  /** The scan goes to the record that the request to delete is about. */
  method ToFirst(scan: HeapFileScan) returns (found: bool, ghost e: Entry)
    requires scan.Valid() && scan.store.Counted() && scan.rest == scan.store.Records() && scan.filter.Filter?
    requires Kept(Books(scan.store))
    modifies scan, scan.store`pins, scan.store`unsaved
    ensures scan.Conserved() && scan.Valid()
    ensures var b := old(Books(scan.store));
      if found then
        && scan.IsOn(e) && e.bytes != []
        && AfterRequest(b, Deleting(old(scan.filter))) == After(b, Drop(scan.idx, scan.curRec.slotNo))
      else AfterRequest(b, Deleting(old(scan.filter))) == b
  {
    ghost var b, r := Books(scan.store), SkipTo(scan.filter, scan.rest);
    var status, rid := scan.ScanNext();
    found, e := status == OK, NOTHING;
    if found {
      e := r[0];
      scan.OnBytes(e);
      assert scan.Stands(scan.idx, e);
      AskedDrop(b, scan.filter, scan.idx, scan.curRec.slotNo);
    } else {
      AskedNothing(b, scan.filter);
    }
  }

  /** The scan deletes the first record that meets its condition. */
  method DropFirst(scan: HeapFileScan)
    requires scan.Valid() && scan.store.Counted() && scan.rest == scan.store.Records() && scan.filter.Filter?
    requires Kept(Books(scan.store))
    modifies scan, scan.store
    ensures scan.Conserved() && scan.Valid() && scan.store.Counted()
    ensures Books(scan.store) == AfterRequest(old(Books(scan.store)), Deleting(old(scan.filter)))
  {
    var found;
    ghost var e;
    found, e := ToFirst(scan);
    if found {
      var status := DropRecord(scan, e);
    }
  }

  method DoDelete(store: HeapStore, f: Filter)
    requires store.Valid() && store.Counted() && f.Filter? && Usable(f) && Kept(Books(store))
    modifies store
    ensures store.Valid() && store.Counted() && store.unsaved <= old(store.unsaved)
    ensures Books(store) == AfterRequest(old(Books(store)), Deleting(f))
    ensures forall n :: store.pins[n] == old(store.pins)[n]
  {
    var scan := new HeapFileScan(store);
    var status := scan.StartScan(f.offset, f.length, f.typ, f.value, f.op);
    label Opened:
    DropFirst(scan);
    label Done:
    status := scan.Destroy();
    forall n ensures store.pins[n] == old(store.pins)[n] {
      assert old@Done(scan.OtherPins(n)) == old@Opened(scan.OtherPins(n));
    }
    forall n | n in store.unsaved ensures n in old(store.unsaved) {
      assert old@Done(scan.LeftDirty(n)) ==> old@Opened(scan.LeftDirty(n));
    }
  }

  method Handle(store: HeapStore, r: Request)
    requires store.Valid() && store.Counted() && Askable(r) && Kept(Books(store))
    modifies store
    ensures store.Valid() && store.Counted() && Books(store) == AfterRequest(old(Books(store)), r)
    ensures (forall n :: store.pins[n] == old(store.pins)[n]) && store.unsaved <= old(store.unsaved)
  {
    match r
    case Adding(rec) =>
      DoInsert(store, rec);
    case Deleting(f) =>
      DoDelete(store, f);
  }

  /** Any mix of insertions and deletions, each through an object of its own: the file is what the requests make of
      it one after the other, every pin is given back, and what the clients changed was unpinned dirty. */
  method RunRequests(store: HeapStore, requests: seq<Request>)
    requires store.Valid() && store.Counted() && AllAskable(requests)
    modifies store
    ensures store.Valid() && store.Counted() && Kept(old(Books(store)))
    ensures Books(store) == RunAsked(old(Books(store)), requests)
    ensures (forall n :: store.pins[n] == old(store.pins)[n]) && store.unsaved <= old(store.unsaved)
  {
    BooksKept(store);
    ghost var b := Books(store);
    for i := 0 to |requests|
      invariant store.Valid() && store.Counted() && Books(store) == RunAsked(b, requests[..i])
      invariant (forall n :: store.pins[n] == old(store.pins)[n]) && store.unsaved <= old(store.unsaved)
    {
      assert Askable(requests[i]) && requests[..i + 1][..i] == requests[..i];
      Handle(store, requests[i]);
    }
    assert requests[..|requests|] == requests;
  }
}
