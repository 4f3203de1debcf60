/**
  The heap file as a client of the buffer manager: its calls are requests the rules allow.
 */
module HeapClient {
  import opened Errors
  import opened Files
  import opened BufferHash
  import opened BufferState
  import opened BufferRuns
  import opened SlottedPage
  import opened HeapStores

  /** What a heap file asks the buffer manager for: to pin or unpin a page, for a new page, or to store bytes into
      a page it has pinned. */
  datatype Call = Take(n: int) | Return(n: int, dirty: bool) | New | Put(n: int, bytes: Block)

  /** The pages a file has, their pins, and those that were changed and not unpinned dirty since. */
  datatype Usage = Usage(numPages: int, pins: multiset<int>, unsaved: set<int>) {

    ghost predicate Ok() { numPages >= 1 && forall n | n in pins :: 1 <= n < numPages }

    /** What the methods of HeapStore demand, of a file that nobody left a changed page of without a pin. */
    predicate May(c: Call) {
      match c
      case Take(n) => 1 <= n < numPages
      case Return(n, dirty) => n in pins && (dirty || n !in unsaved || pins[n] > 1)
      case New => numPages < MAX_PAGES
      case Put(n, _) => n in pins
    }

    function Do(c: Call): Usage {
      match c
      case Take(n) => this.(pins := pins + multiset{n})
      case Return(n, dirty) =>
        this.(pins := pins - multiset{n}, unsaved := if dirty then unsaved - {n} else unsaved)
      case New => Usage(numPages + 1, pins + multiset{numPages}, unsaved + {numPages})
      case Put(n, _) => this.(unsaved := unsaved + {n})
    }
  }

  function RequestOf(file: File, c: Call): Request {
    match c
    case Take(n) => Read(PageId(file, n))
    case Return(n, dirty) => UnPin(PageId(file, n), dirty)
    case New => Alloc(file)
    case Put(n, bytes) => Write(PageId(file, n), bytes)
  }

  ghost predicate SamePage(u: Usage, book: Ledger, file: File, n: int) {
    && Count(book.pins, PageId(file, n)) == u.pins[n]
    && (PageId(file, n) in book.image <==> 1 <= n < u.numPages)
    && (PageId(file, n) in book.changed <==> n in u.unsaved)
  }

  /** The file is in use as its clients' ledger says. */
  ghost predicate Mirrors(u: Usage, book: Ledger, file: File) {
    && u.Ok() && file in book.room && book.room[file] == Extent(u.numPages, [])
    && forall n {:trigger SamePage(u, book, file, n)} :: SamePage(u, book, file, n)
  }

  /** A call that HeapStore allows is a request that the buffer manager allows. */
  lemma {:induction false} CallLawful(u: Usage, book: Ledger, file: File, c: Call)
    requires Mirrors(u, book, file) && u.May(c)
    ensures Lawful(book, RequestOf(file, c))
  {
    match c
    case Take(n) => assert SamePage(u, book, file, n);
    case Return(n, _) => assert SamePage(u, book, file, n);
    case Put(n, _) => assert SamePage(u, book, file, n);
    case New =>
  }

  /** It does to the ledger what it does to the file, if there was a frame for it. */
  lemma {:induction false} CallMirrors(u: Usage, book: Ledger, file: File, frames: int, c: Call, b: Block)
    requires Mirrors(u, book, file) && u.May(c) && StatusOf(book, frames, RequestOf(file, c)) == OK
    ensures Mirrors(u.Do(c), Next(book, frames, RequestOf(file, c), b), file)
  {
    CallLawful(u, book, file, c);
    var v, after := u.Do(c), Next(book, frames, RequestOf(file, c), b);
    forall n | n in v.pins ensures 1 <= n < v.numPages {
      assert n in u.pins || c == Take(n) || (c.New? && n == u.numPages);
    }
    forall n {:trigger SamePage(v, after, file, n)} ensures SamePage(v, after, file, n) {
      assert SamePage(u, book, file, n);
    }
  }

  /** There is a frame as long as fewer pages are pinned than there are frames. */
  lemma {:induction false} EnoughFrames(book: Ledger, file: File, frames: int, c: Call)
    requires |PinnedPages(book.pins)| < frames
    ensures StatusOf(book, frames, RequestOf(file, c)) == OK
  {}

  /** Requests about other files leave the file alone. */
  lemma {:induction false} Elsewhere(u: Usage, book: Ledger, file: File, frames: int, r: Request, b: Block)
    requires Mirrors(u, book, file)
    requires match r
      case Flush(_) => true
      case Alloc(f) => f != file
      case _ => r.id.file != file
    ensures Mirrors(u, Next(book, frames, r, b), file)
  {
    var after := Next(book, frames, r, b);
    forall n {:trigger SamePage(u, after, file, n)} ensures SamePage(u, after, file, n) {
      assert SamePage(u, book, file, n);
    }
  }

  // ---- Whole runs of calls ----

  function UsageAt(u: Usage, cs: seq<Call>, k: nat): Usage
    requires k <= |cs|
  {
    if k == 0 then u else UsageAt(u, cs, k - 1).Do(cs[k - 1])
  }

  function Requests(file: File, cs: seq<Call>): (rs: seq<Request>)
    ensures |rs| == |cs| && forall k | 0 <= k < |cs| :: rs[k] == RequestOf(file, cs[k])
  {
    seq(|cs|, k requires 0 <= k < |cs| => RequestOf(file, cs[k]))
  }

  predicate Allowed(u: Usage, cs: seq<Call>, k: nat)
    requires k < |cs|
  {
    UsageAt(u, cs, k).May(cs[k])
  }

  /** Before moment k no call was without a frame. */
  predicate Served(answers: seq<Answer>, k: nat)
    requires k <= |answers|
  {
    forall m | 0 <= m < k :: answers[m].Answer? ==> answers[m].status == OK
  }

  /** Each call of a run keeps the rules, so the buffer manager refuses none of them, and all the time the ledger
      says of the file what the file says of itself. */
  lemma {:induction false} RunLawful(
      u: Usage, book: Ledger, file: File, frames: int, cs: seq<Call>, answers: seq<Answer>, k: nat)
    requires Mirrors(u, book, file) && |answers| == |cs| && k <= |cs|
    requires AllRight(book, frames, Requests(file, cs), answers, |cs|) && Served(answers, k)
    requires forall m {:trigger Allowed(u, cs, m)} | 0 <= m < |cs| :: Allowed(u, cs, m)
    ensures Mirrors(UsageAt(u, cs, k), LedgerAt(book, frames, Requests(file, cs), answers, k), file)
    ensures k < |cs| ==> answers[k].Answer?
  {
    var rs := Requests(file, cs);
    if k > 0 {
      RunLawful(u, book, file, frames, cs, answers, k - 1);
      assert Allowed(u, cs, k - 1) && Right(book, frames, rs, answers, k - 1);
      CallLawful(UsageAt(u, cs, k - 1), LedgerAt(book, frames, rs, answers, k - 1), file, cs[k - 1]);
      CallMirrors(UsageAt(u, cs, k - 1), LedgerAt(book, frames, rs, answers, k - 1), file, frames, cs[k - 1],
                  BytesOf(answers[k - 1]));
    }
    if k < |cs| {
      assert Allowed(u, cs, k) && Right(book, frames, rs, answers, k);
      CallLawful(UsageAt(u, cs, k), LedgerAt(book, frames, rs, answers, k), file, cs[k]);
    }
  }

  // ---- The calls of HeapStore ----

  ghost function Use(store: HeapStore): Usage
    reads store`numPages, store`pins, store`unsaved
  {
    Usage(store.numPages, store.pins, store.unsaved)
  }

  /** The same pages, pins and unsaved pages. */
  ghost predicate Alike(u: Usage, v: Usage) {
    u.numPages == v.numPages && u.unsaved == v.unsaved && forall n {:trigger u.pins[n]} :: u.pins[n] == v.pins[n]
  }

  lemma {:induction false} AlikeMirrors(u: Usage, v: Usage, book: Ledger, file: File)
    requires Alike(u, v) && Mirrors(v, book, file)
    ensures Mirrors(u, book, file)
  {
    forall n {:trigger SamePage(u, book, file, n)} ensures SamePage(u, book, file, n) {
      assert SamePage(v, book, file, n) && u.pins[n] == v.pins[n];
    }
    forall n | n in u.pins ensures 1 <= n < u.numPages {
      assert u.pins[n] == v.pins[n];
    }
  }

  lemma {:induction false} NoStrays(store: HeapStore, n: int, dirty: bool)
    requires store.Strays() == {} && n in store.pins
    ensures Use(store).May(Return(n, dirty)) <==>
      dirty || n !in store.unsaved || store.pins[n] > 1 || n in store.Strays()
  {}

  /** readPage of a page of the file. */
  method TakePage(store: HeapStore, n: int)
    requires Use(store).May(Take(n))
    modifies store`pins
    ensures Alike(Use(store), old(Use(store)).Do(Take(n)))
  {
    store.ReadPage(n);
  }

  /** unPinPage, of a file that no changed page was left unpinned of. */
  method ReturnPage(store: HeapStore, n: int, dirty: bool)
    requires Use(store).May(Return(n, dirty))
    modifies store`pins, store`unsaved
    ensures Alike(Use(store), old(Use(store)).Do(Return(n, dirty)))
  {
    store.UnPinPage(n, dirty, {});
  }

  /** allocPage */
  method NewPage(store: HeapStore) returns (n: int)
    requires Use(store).May(New)
    modifies store`pins, store`numPages, store`unsaved
    ensures n == old(store.numPages) && Alike(Use(store), old(Use(store)).Do(New))
  {
    n := store.AllocPage();
  }

  /** Bytes are stored into a page: a data page, */
  method StorePage(store: HeapStore, n: int, p: PageState, ghost bytes: Block)
    requires Use(store).May(Put(n, bytes))
    modifies store`pages, store`unsaved
    ensures Use(store) == old(Use(store)).Do(Put(n, bytes))
  {
    store.PutPage(n, p);
  }

  /** or the header page. */
  method StoreHeader(store: HeapStore, h: FileHdr, ghost bytes: Block)
    requires Use(store).May(Put(store.hdrPageNo, bytes))
    modifies store`hdr, store`unsaved
    ensures Use(store) == old(Use(store)).Do(Put(store.hdrPageNo, bytes))
  {
    store.PutHeader(h);
  }
}
