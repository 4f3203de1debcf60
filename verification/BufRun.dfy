/**
  Cache coherence over whole runs: clients that keep to the rules cannot tell the buffer manager
  with its files from a plain map of pages.
 */
module BufferRuns {
  import opened Errors
  import opened Files
  import opened BufferHash
  import opened ClockPolicy
  import opened BufferState
  import opened BufferManager

  datatype Request =
    | Read(id: PageId)
    | Write(id: PageId, bytes: Block)
    | UnPin(id: PageId, dirty: bool)
    | Flush(file: File)
    | Alloc(file: File)
    | Dispose(id: PageId)

  /** Pages that are not in `changed` are on disk, or their frames are marked to be written. */
  ghost predicate Tracked(s: Pool, changed: set<PageId>) {
    forall id {:trigger s.Saved(id)} | id in s.view && id !in changed :: s.Saved(id)
  }

  function Count(pins: map<PageId, int>, id: PageId): int {
    if id in pins then pins[id] else 0
  }

  ghost predicate Counts(s: Pool, pins: map<PageId, int>) {
    forall id {:trigger s.Pins(id)} {:trigger Count(pins, id)} | id in s.entries.Keys + pins.Keys ::
      s.Pins(id) == Count(pins, id)
  }

  /** What the clients keep in mind about the pool: the pins they hold and the pages they changed. */
  ghost predicate KnownAt(s: Pool, pins: map<PageId, int>, changed: set<PageId>) {
    Counts(s, pins) && Tracked(s, changed)
  }

  ghost predicate Known(s: Pool, pins: map<PageId, int>, changed: set<PageId>) {
    forall t {:trigger KnownAt(t, pins, changed)} | t == s :: KnownAt(t, pins, changed)
  }

  /** A step that concerns one page. */
  lemma {:induction false} KnownStep(s: Pool, t: Pool, id: PageId, pins: map<PageId, int>, changed: set<PageId>,
      after: set<PageId>)
    requires Known(s, pins, changed) && SamePinsBut(s, t, id) && t.view.Keys <= s.view.Keys + {id}
    requires changed <= after + {id} && (id in after || id !in t.view || t.Saved(id))
    ensures Known(t, pins[id := t.Pins(id)], after)
  {
    assert KnownAt(s, pins, changed);
    PinsAgreeBut(s, t, id);
    forall d {:trigger t.Saved(d)} | d in t.view && d !in after ensures t.Saved(d) {
      assert d != id ==> s.Saved(d);
    }
    forall d {:trigger t.Pins(d)} | d in t.entries.Keys + (pins.Keys + {id})
      ensures t.Pins(d) == Count(pins[id := t.Pins(id)], d)
    {
      if d != id {
        assert s.Pins(d) == Count(pins, d);
      }
    }
  }

  lemma {:induction false} KnownSame(s: Pool, t: Pool, pins: map<PageId, int>, changed: set<PageId>)
    requires Known(s, pins, changed) && SamePins(s, t) && t.view == s.view
    ensures Known(t, pins, changed)
  {
    assert KnownAt(s, pins, changed);
    PinsAgree(s, t);
    forall d {:trigger t.Pins(d)} | d in t.entries.Keys + pins.Keys ensures t.Pins(d) == Count(pins, d) {
      assert s.Pins(d) == Count(pins, d);
    }
    forall d {:trigger t.Saved(d)} | d in t.view && d !in changed ensures t.Saved(d) {
      assert s.Saved(d);
    }
  }

  lemma {:induction false} KnownOf(s: Pool, pins: map<PageId, int>, changed: set<PageId>, id: PageId)
    requires Known(s, pins, changed)
    ensures s.Pins(id) == Count(pins, id) && (id in s.view && id !in changed ==> s.Saved(id))
  {
    assert KnownAt(s, pins, changed);
  }

  // ---- The clients' side: a ledger without a pool ----

  /** What the clients know: the bytes of every page, the pins they hold, the pages they changed and have not
      unpinned dirty since, and the room in each file. */
  datatype Ledger = Ledger(
    image: map<PageId, Block>, pins: map<PageId, int>, changed: set<PageId>, room: map<File, Extent>)

  datatype Answer = Refused | Answer(status: Status, page: PageId, bytes: Block)

  /** The pages that are pinned. */
  function PinnedPages(pins: map<PageId, int>): set<PageId> {
    set id | id in pins && pins[id] > 0
  }

  /** The last pin on a page that was changed is not given back as a clean one. */
  predicate MayUnPin(book: Ledger, id: PageId, dirty: bool) {
    id in book.image && Count(book.pins, id) > 0 && (dirty || id !in book.changed || Count(book.pins, id) > 1)
  }

  /** Which requests the rules allow: pages that exist, pins that are held, and room in the file. */
  predicate Lawful(book: Ledger, r: Request) {
    match r
    case Read(id) => id in book.image
    case Write(id, _) => id in book.image && Count(book.pins, id) > 0
    case UnPin(id, dirty) => MayUnPin(book, id, dirty)
    case Flush(_) => true
    case Alloc(file) => file in book.room && book.room[file].size < MAX_PAGES
    case Dispose(id) => id in book.image && id.pageNo > 1 && id.file in book.room
  }

  /** Nothing else is refused: each kind of request is lawful under just these conditions. */
  lemma {:induction false} LawfulMeans(book: Ledger, id: PageId, b: Block, dirty: bool, file: File)
    ensures Lawful(book, Read(id)) <==> id in book.image
    ensures Lawful(book, Write(id, b)) <==> id in book.image && id in book.pins && book.pins[id] > 0
    ensures Lawful(book, UnPin(id, dirty)) <==>
      && id in book.image && id in book.pins && book.pins[id] > 0
      && !(book.pins[id] == 1 && !dirty && id in book.changed)
    ensures Lawful(book, Flush(file))
    ensures Lawful(book, Alloc(file)) <==> file in book.room && book.room[file].size < MAX_PAGES
    ensures Lawful(book, Dispose(id)) <==> id in book.image && id.pageNo > 1 && id.file in book.room
  {}

  /** With n frames, each of them is taken by a pinned page. */
  predicate Full(book: Ledger, n: int) { |PinnedPages(book.pins)| == n }

  predicate FilePinned(book: Ledger, file: File) {
    exists id :: id in PinnedPages(book.pins) && id.file == file
  }

  /** The status of a lawful request. */
  function StatusOf(book: Ledger, n: int, r: Request): Status {
    match r
    case Read(id) => if Count(book.pins, id) == 0 && Full(book, n) then BUFFEREXCEEDED else OK
    case Alloc(_) => if Full(book, n) then BUFFEREXCEEDED else OK
    case Flush(file) => if FilePinned(book, file) then PAGEPINNED else OK
    case _ => OK
  }

  /** What a pool of n frames answers.  The bytes of a new page are whatever its frame held, or its block in the
      file if there was no frame: b. */
  function Reply(book: Ledger, n: int, r: Request, b: Block): Answer {
    if !Lawful(book, r) then Refused
    else
      var status := StatusOf(book, n, r);
      match r
      case Read(id) => Answer(status, id, if status == OK then book.image[id] else ZeroBlock)
      case Write(id, bytes) => Answer(status, id, bytes)
      case UnPin(id, _) => Answer(status, id, ZeroBlock)
      case Flush(file) => Answer(status, PageId(file, 0), ZeroBlock)
      case Alloc(file) => Answer(status, PageId(file, book.room[file].First()), b)
      case Dispose(id) => Answer(status, id, ZeroBlock)
  }

  function Pin(pins: map<PageId, int>, id: PageId, more: int): map<PageId, int> {
    pins[id := Count(pins, id) + more]
  }

  /** The ledger after a request. */
  function Next(book: Ledger, n: int, r: Request, b: Block): Ledger {
    if !Lawful(book, r) then book
    else
      var taken := if StatusOf(book, n, r) == OK then 1 else 0;
      match r
      case Read(id) => book.(pins := Pin(book.pins, id, taken))
      case Write(id, bytes) => book.(image := book.image[id := bytes], changed := book.changed + {id})
      case UnPin(id, dirty) =>
        book.(pins := Pin(book.pins, id, -1), changed := if dirty then book.changed - {id} else book.changed)
      case Flush(_) => book
      case Alloc(file) =>
        var id := PageId(file, book.room[file].First());
        Ledger(book.image[id := b], book.pins[id := taken], book.changed + {id},
               book.room[file := book.room[file].Taken()])
      case Dispose(id) =>
        Ledger(book.image - {id}, book.pins[id := 0], book.changed - {id},
               book.room[id.file := book.room[id.file].Given(id.pageNo)])
  }

  function BytesOf(answer: Answer): Block {
    if answer.Refused? then ZeroBlock else answer.bytes
  }

  /** The ledger after the first k requests. */
  function LedgerAt(book: Ledger, n: int, rs: seq<Request>, answers: seq<Answer>, k: nat): Ledger
    requires k <= |rs| && k <= |answers|
  {
    if k == 0 then book else Next(LedgerAt(book, n, rs, answers, k - 1), n, rs[k - 1], BytesOf(answers[k - 1]))
  }

  predicate Right(book: Ledger, n: int, rs: seq<Request>, answers: seq<Answer>, k: nat)
    requires k < |rs| && k < |answers|
  {
    answers[k] == Reply(LedgerAt(book, n, rs, answers, k), n, rs[k], BytesOf(answers[k]))
  }

  /** Every answer is the one the ledger of that moment asks for. */
  ghost predicate AllRight(book: Ledger, n: int, rs: seq<Request>, answers: seq<Answer>, m: nat)
    requires m <= |rs| && m <= |answers|
  {
    forall k {:trigger Right(book, n, rs, answers, k)} | 0 <= k < m :: Right(book, n, rs, answers, k)
  }

  lemma {:induction false} LedgerPrefix(
      book: Ledger, n: int, rs: seq<Request>, answers: seq<Answer>, more: seq<Answer>, k: nat)
    requires k <= |rs| && k <= |answers| <= |more| && answers == more[..|answers|]
    ensures LedgerAt(book, n, rs, answers, k) == LedgerAt(book, n, rs, more, k)
  {
    if k > 0 {
      LedgerPrefix(book, n, rs, answers, more, k - 1);
      assert more[..|answers|][k - 1] == more[k - 1];
    }
  }

  lemma {:induction false} OneMore(
      book: Ledger, n: int, rs: seq<Request>, answers: seq<Answer>, now: Ledger, answer: Answer)
    requires |answers| < |rs| && now == LedgerAt(book, n, rs, answers, |answers|)
    requires AllRight(book, n, rs, answers, |answers|) && answer == Reply(now, n, rs[|answers|], BytesOf(answer))
    ensures AllRight(book, n, rs, answers + [answer], |answers| + 1)
    ensures LedgerAt(book, n, rs, answers + [answer], |answers| + 1) == Next(now, n, rs[|answers|], BytesOf(answer))
  {
    var m, more := |answers|, answers + [answer];
    LedgerPrefix(book, n, rs, answers, more, m);
    forall k {:trigger Right(book, n, rs, more, k)} | 0 <= k < m + 1 ensures Right(book, n, rs, more, k) {
      LedgerPrefix(book, n, rs, answers, more, k);
      assert k < m ==> Right(book, n, rs, answers, k);
    }
  }

  // ---- Every page is accounted for ----

  /** The pages of a file are its first `size` ones without the header, and without the free ones. */
  predicate HasPage(room: map<File, Extent>, f: File, p: int) {
    f in room && 1 <= p < room[f].size && p !in room[f].free
  }

  ghost predicate ExtentOk(room: map<File, Extent>, f: File)
    requires f in room
  {
    1 <= room[f].size && Distinct(room[f].free) && forall p | p in room[f].free :: 1 < p < room[f].size
  }

  /** Each page of a file is either known to the clients or free, and not both, and no page is free twice. */
  ghost predicate Accounted(book: Ledger) {
    && (forall f {:trigger ExtentOk(book.room, f)} | f in book.room :: ExtentOk(book.room, f))
    && (forall id {:trigger id in book.image} | id in book.image :: HasPage(book.room, id.file, id.pageNo))
    && forall f, p {:trigger HasPage(book.room, f, p)} | f in book.room && HasPage(book.room, f, p) ::
         PageId(f, p) in book.image
  }

  /** A new page is one that no client knows. */
  lemma {:induction false} NewIsNew(book: Ledger, file: File)
    requires Accounted(book) && file in book.room
    ensures PageId(file, book.room[file].First()) !in book.image && book.room[file].First() >= 1
  {
    assert ExtentOk(book.room, file);
    assert book.room[file].free != [] ==> book.room[file].First() in book.room[file].free;
    assert !HasPage(book.room, file, book.room[file].First());
  }

  lemma {:induction false} TakenOk(free: seq<int>)
    requires Distinct(free) && free != []
    ensures Distinct(free[1..]) && free[0] !in free[1..]
  {
    forall i, j {:trigger Differ(free[1..], i, j)} | 0 <= i < j < |free[1..]| ensures Differ(free[1..], i, j) {
      assert Differ(free, i + 1, j + 1);
    }
    forall j | 1 <= j < |free| ensures free[j] != free[0] {
      assert Differ(free, 0, j);
    }
  }

  lemma {:induction false} GivenOk(free: seq<int>, p: int)
    requires Distinct(free) && p !in free
    ensures Distinct([p] + free)
  {
    forall i, j {:trigger Differ([p] + free, i, j)} | 0 <= i < j < |[p] + free| ensures Differ([p] + free, i, j) {
      assert i > 0 ==> Differ(free, i - 1, j - 1);
    }
  }

  lemma {:induction false} AllocAccounted(book: Ledger, n: int, file: File, b: Block)
    requires Accounted(book) && Lawful(book, Alloc(file))
    ensures Accounted(Next(book, n, Alloc(file), b))
  {
    var after, e := Next(book, n, Alloc(file), b), book.room[file];
    assert ExtentOk(book.room, file);
    NewIsNew(book, file);
    if e.free != [] {
      TakenOk(e.free);
      assert e.free == [e.free[0]] + e.free[1..];
    }
    assert forall p | p in e.Taken().free :: p in e.free;
    assert e.free != [] ==> e.First() in e.free;
    assert HasPage(after.room, file, e.First());
    forall f {:trigger ExtentOk(after.room, f)} | f in after.room ensures ExtentOk(after.room, f) {
      assert ExtentOk(book.room, f);
    }
    forall id | id in after.image ensures HasPage(after.room, id.file, id.pageNo) {
      assert id == PageId(file, e.First()) || HasPage(book.room, id.file, id.pageNo);
    }
    forall f, p {:trigger HasPage(after.room, f, p)} | f in after.room && HasPage(after.room, f, p)
      ensures PageId(f, p) in after.image
    {
      assert HasPage(book.room, f, p) || (f == file && p == e.First());
    }
  }

  lemma {:induction false} DisposeAccounted(book: Ledger, n: int, id: PageId, b: Block)
    requires Accounted(book) && Lawful(book, Dispose(id))
    ensures Accounted(Next(book, n, Dispose(id), b))
  {
    var after := Next(book, n, Dispose(id), b);
    assert ExtentOk(book.room, id.file) && HasPage(book.room, id.file, id.pageNo);
    GivenOk(book.room[id.file].free, id.pageNo);
    forall f {:trigger ExtentOk(after.room, f)} | f in after.room ensures ExtentOk(after.room, f) {
      assert ExtentOk(book.room, f);
    }
    forall d | d in after.image ensures HasPage(after.room, d.file, d.pageNo) {
      assert d in book.image && d != id;
    }
    forall f, p {:trigger HasPage(after.room, f, p)} | f in after.room && HasPage(after.room, f, p)
      ensures PageId(f, p) in after.image
    {
      assert HasPage(book.room, f, p);
    }
  }

  lemma {:induction false} NextAccounted(book: Ledger, n: int, r: Request, b: Block)
    requires Accounted(book)
    ensures Accounted(Next(book, n, r, b))
  {
    if Lawful(book, r) {
      match r
      case Alloc(file) => AllocAccounted(book, n, file, b);
      case Dispose(id) => DisposeAccounted(book, n, id, b);
      case _ =>
        var after := Next(book, n, r, b);
        assert after.room == book.room && after.image.Keys == book.image.Keys;
        forall id | id in after.image ensures HasPage(after.room, id.file, id.pageNo) {
          assert id in book.image;
        }
    }
  }

  /** Over any run no page is lost and none has two owners. */
  lemma {:induction false} RunAccounted(book: Ledger, n: int, rs: seq<Request>, answers: seq<Answer>, k: nat)
    requires Accounted(book) && k <= |rs| && k <= |answers|
    ensures Accounted(LedgerAt(book, n, rs, answers, k))
  {
    if k > 0 {
      RunAccounted(book, n, rs, answers, k - 1);
      NextAccounted(LedgerAt(book, n, rs, answers, k - 1), n, rs[k - 1], BytesOf(answers[k - 1]));
    }
  }

  // ---- A read gives what was written last ----

  /** A request that changes the bytes of a page, or takes it away. */
  predicate Alters(r: Request, id: PageId) {
    (r.Write? && r.id == id) || (r.Dispose? && r.id == id)
  }

  /** Between a write and moment j nobody changed the page. */
  ghost predicate Untouched(rs: seq<Request>, answers: seq<Answer>, id: PageId, i: nat, j: nat)
    requires j <= |rs| && j <= |answers|
  {
    forall m | i < m < j :: answers[m].Refused? || !Alters(rs[m], id)
  }

  lemma {:induction false} StillWritten(
      book: Ledger, n: int, rs: seq<Request>, answers: seq<Answer>, id: PageId, b: Block, i: nat, j: nat)
    requires i < j <= |rs| && j <= |answers| && Accounted(book) && AllRight(book, n, rs, answers, j)
    requires rs[i] == Write(id, b) && answers[i].Answer? && Untouched(rs, answers, id, i, j)
    ensures var now := LedgerAt(book, n, rs, answers, j); id in now.image && now.image[id] == b
    decreases j
  {
    assert Right(book, n, rs, answers, j - 1);
    if i < j - 1 {
      StillWritten(book, n, rs, answers, id, b, i, j - 1);
      RunAccounted(book, n, rs, answers, j - 1);
      StepKeeps(LedgerAt(book, n, rs, answers, j - 1), n, rs[j - 1], BytesOf(answers[j - 1]), id);
    }
  }

  lemma {:induction false} StepKeeps(book: Ledger, n: int, r: Request, b: Block, id: PageId)
    requires Accounted(book) && id in book.image && (!Lawful(book, r) || !Alters(r, id))
    ensures var after := Next(book, n, r, b); id in after.image && after.image[id] == book.image[id]
  {
    if r.Alloc? && Lawful(book, r) {
      NewIsNew(book, r.file);
    }
  }

  /** Whatever was evicted in between, a page that is read has the bytes written to it last. */
  lemma {:induction false} ReadLastWritten(
      book: Ledger, n: int, rs: seq<Request>, answers: seq<Answer>, id: PageId, b: Block, i: nat, j: nat)
    requires i < j < |rs| == |answers| && Accounted(book) && AllRight(book, n, rs, answers, |rs|)
    requires rs[i] == Write(id, b) && answers[i].Answer? && Untouched(rs, answers, id, i, j) && rs[j] == Read(id)
    ensures answers[j].Answer? && answers[j].status in {OK, BUFFEREXCEEDED}
    ensures answers[j].status == OK ==> answers[j].bytes == b
  {
    assert Right(book, n, rs, answers, j);
    assert forall k {:trigger Right(book, n, rs, answers, k)} | 0 <= k < j :: Right(book, n, rs, answers, k);
    StillWritten(book, n, rs, answers, id, b, i, j);
  }

  // ---- What the ledger says of frames ----

  /** The pages that pin the first k frames. */
  ghost function Holders(s: Pool, k: nat): set<PageId>
    requires s.Ok(NONE) && k <= |s.table|
  {
    if k == 0 then {}
    else if PinnedAt(s.table, k - 1) then OwnerInIndex(s, k - 1); Holders(s, k - 1) + {s.Owner(k - 1)}
    else Holders(s, k - 1)
  }

  lemma {:induction false} HoldersIn(s: Pool, k: nat, id: PageId)
    requires s.Ok(NONE) && k <= |s.table|
    ensures id in Holders(s, k) <==> s.Pins(id) > 0 && s.entries[id] < k
  {
    if id in s.entries {
      EntryFrame(s, id);
    }
    if k > 0 {
      HoldersIn(s, k - 1, id);
      if PinnedAt(s.table, k - 1) {
        OwnerInIndex(s, k - 1);
      }
    }
  }

  ghost predicate FirstPinned(s: Pool, k: nat)
    requires k <= |s.table|
  {
    forall i {:trigger PinnedAt(s.table, i)} | 0 <= i < k :: PinnedAt(s.table, i)
  }

  /** No page pins two frames. */
  lemma {:induction false} HoldersCount(s: Pool, k: nat)
    requires s.Ok(NONE) && k <= |s.table|
    ensures |Holders(s, k)| <= k && (|Holders(s, k)| == k <==> FirstPinned(s, k))
  {
    if k > 0 {
      HoldersCount(s, k - 1);
      if PinnedAt(s.table, k - 1) {
        OwnerInIndex(s, k - 1);
        HoldersIn(s, k - 1, s.Owner(k - 1));
      }
    }
  }

  /** All frames are pinned exactly if the clients hold pins on as many pages. */
  lemma {:induction false} FullMeans(s: Pool, book: Ledger)
    requires s.Ok(NONE) && Known(s, book.pins, book.changed)
    ensures Full(book, |s.table|) <==> AllPinned(s.table)
  {
    var n := |s.table|;
    HoldersCount(s, n);
    forall id | id in Holders(s, n) ensures id in PinnedPages(book.pins) {
      HoldersIn(s, n, id);
      KnownOf(s, book.pins, book.changed, id);
    }
    forall id | id in PinnedPages(book.pins) ensures id in Holders(s, n) {
      KnownOf(s, book.pins, book.changed, id);
      EntryFrame(s, id);
      HoldersIn(s, n, id);
    }
    assert Holders(s, n) == PinnedPages(book.pins);
    assert FirstPinned(s, n) <==> AllPinned(s.table);
  }

  /** With all frames pinned, a page is in the pool exactly if it is pinned. */
  lemma {:induction false} ResidentIfPinned(s: Pool, id: PageId)
    requires s.Ok(NONE) && AllPinned(s.table)
    ensures id in s.entries <==> s.Pins(id) > 0
  {
    if id in s.entries {
      EntryFrame(s, id);
      assert PinnedAt(s.table, s.entries[id]);
    }
  }

  /** A page of the file is pinned exactly if some frame has one. */
  lemma {:induction false} FilePinnedMeans(s: Pool, book: Ledger, file: File)
    requires s.Ok(NONE) && Known(s, book.pins, book.changed)
    ensures FilePinned(book, file) <==> exists i | 0 <= i < |s.table| :: PinnedBy(s.table, file, i)
  {
    if i :| 0 <= i < |s.table| && PinnedBy(s.table, file, i) {
      OwnerInIndex(s, i);
      KnownOf(s, book.pins, book.changed, s.Owner(i));
      assert s.Owner(i) in PinnedPages(book.pins);
    }
    if id :| id in PinnedPages(book.pins) && id.file == file {
      KnownOf(s, book.pins, book.changed, id);
      EntryFrame(s, id);
      assert PinnedBy(s.table, file, s.entries[id]);
    }
  }

  /** All clients of a buffer manager together. */
  class Session {
    const mgr: BufMgr
    var book: Ledger

    ghost predicate Valid()
      reads this, mgr, mgr.bufTable, mgr.bufPool, mgr.hashTable, mgr.hashTable.ht, mgr.hashTable.nodes, mgr.files
    {
      && mgr.Valid() && book.image == mgr.st.view && book.room == mgr.room
      && Known(mgr.st, book.pins, book.changed)
    }

    /** An empty pool over some files. */
    constructor (mgr: BufMgr, image: map<PageId, Block>, room: map<File, Extent>)
      requires mgr.Valid() && image == mgr.st.view && room == mgr.room && mgr.st.entries == map[]
      ensures Valid() && this.mgr == mgr && book == Ledger(image, map[], {}, room)
    {
      this.mgr, book := mgr, Ledger(image, map[], {}, room);
      new;
      forall id {:trigger mgr.st.Saved(id)} | id in mgr.st.view ensures mgr.st.Saved(id) {
        PageBacked(mgr.st, NONE, id);
      }
    }

    /** Carries out a request if it is lawful.  Answer and ledger follow from the ledger before, whatever is in the
        pool and whatever is evicted. */
    method Submit(r: Request) returns (answer: Answer)
      requires Valid()
      modifies this, mgr, mgr.bufTable, mgr.bufPool, mgr.hashTable, mgr.hashTable.ht, mgr.hashTable.nodes, mgr.files
      ensures Valid() && mgr.hashTable.Grown()
      ensures answer == Reply(old(book), mgr.numBufs, r, BytesOf(answer))
      ensures book == Next(old(book), mgr.numBufs, r, BytesOf(answer))
      ensures answer.Answer? && r.Alloc? ==> answer.page !in old(book.image)
    {
      if !Lawful(book, r) {
        return Refused;
      }
      match r
      case Read(id) =>
        answer := DoRead(id);
      case Write(id, b) =>
        DoWrite(id, b);
        answer := Answer(OK, id, b);
      case UnPin(id, dirty) =>
        DoUnPin(id, dirty);
        answer := Answer(OK, id, ZeroBlock);
      case Flush(file) =>
        var status := DoFlush(file);
        answer := Answer(status, PageId(file, 0), ZeroBlock);
      case Alloc(file) =>
        answer := DoAlloc(file);
      case Dispose(id) =>
        DoDispose(id);
        answer := Answer(OK, id, ZeroBlock);
    }

    /** The book after a request, once the buffer manager has done its part. */
    method Record(b: Ledger)
      requires mgr.Valid() && b.image == mgr.st.view && b.room == mgr.room && Known(mgr.st, b.pins, b.changed)
      modifies this
      ensures Valid() && book == b
    {
      book := b;
    }

    method DoRead(id: PageId) returns (answer: Answer)
      requires Valid() && Lawful(book, Read(id))
      modifies this, mgr, mgr.bufTable, mgr.bufPool, mgr.hashTable, mgr.hashTable.ht, mgr.hashTable.nodes, mgr.files
      ensures Valid() && mgr.hashTable.Grown()
      ensures answer == Reply(old(book), mgr.numBufs, Read(id), BytesOf(answer))
      ensures book == Next(old(book), mgr.numBufs, Read(id), BytesOf(answer))
    {
      ghost var s := mgr.st;
      KnownOf(s, book.pins, book.changed, id);
      ReadStatus(id);
      var status, frame := mgr.ReadPage(id.file, id.pageNo);
      answer := Answer(status, id, if status == OK then mgr.bufPool[frame] else ZeroBlock);
      KnownStep(s, mgr.st, id, book.pins, book.changed, book.changed);
      Record(book.(pins := Pin(book.pins, id, if status == OK then 1 else 0)));
    }

    lemma {:induction false} ReadStatus(id: PageId)
      requires Valid() && id in book.image
      ensures StatusOf(book, mgr.numBufs, Read(id))
           == if id !in mgr.st.entries && AllPinned(mgr.st.table) then BUFFEREXCEEDED else OK
    {
      FullMeans(mgr.st, book);
      KnownOf(mgr.st, book.pins, book.changed, id);
      if AllPinned(mgr.st.table) {
        ResidentIfPinned(mgr.st, id);
      }
      if id in mgr.st.entries {
        EntryFrame(mgr.st, id);
      }
    }

    method DoWrite(id: PageId, b: Block)
      requires Valid() && Lawful(book, Write(id, b))
      modifies this, mgr, mgr.bufTable, mgr.bufPool, mgr.hashTable, mgr.hashTable.ht, mgr.hashTable.nodes, mgr.files
      ensures Valid() && mgr.hashTable.nodes == old(mgr.hashTable.nodes)
      ensures book == Next(old(book), mgr.numBufs, Write(id, b), b)
    {
      ghost var s := mgr.st;
      KnownOf(s, book.pins, book.changed, id);
      mgr.Modify(id, b);
      KnownStep(s, mgr.st, id, book.pins, book.changed, book.changed + {id});
      assert book.pins[id := Count(book.pins, id)] == book.pins;
      Record(book.(image := book.image[id := b], changed := book.changed + {id}));
    }

    method DoUnPin(id: PageId, dirty: bool)
      requires Valid() && Lawful(book, UnPin(id, dirty))
      modifies this, mgr, mgr.bufTable, mgr.bufPool, mgr.hashTable, mgr.hashTable.ht, mgr.hashTable.nodes, mgr.files
      ensures Valid() && mgr.hashTable.nodes == old(mgr.hashTable.nodes)
      ensures book == Next(old(book), mgr.numBufs, UnPin(id, dirty), ZeroBlock)
    {
      ghost var s := mgr.st;
      KnownOf(s, book.pins, book.changed, id);
      EntryFrame(s, id);
      var status := mgr.UnPinPage(id.file, id.pageNo, dirty);
      var changed := if dirty then book.changed - {id} else book.changed;
      KnownStep(s, mgr.st, id, book.pins, book.changed, changed);
      Record(book.(pins := Pin(book.pins, id, -1), changed := changed));
    }

    method DoFlush(file: File) returns (status: Status)
      requires Valid()
      modifies this, mgr, mgr.bufTable, mgr.bufPool, mgr.hashTable, mgr.hashTable.ht, mgr.hashTable.nodes, mgr.files
      ensures Valid() && mgr.hashTable.nodes == old(mgr.hashTable.nodes)
      ensures book == old(book) && status == StatusOf(book, mgr.numBufs, Flush(file))
    {
      ghost var s := mgr.st;
      FilePinnedMeans(s, book, file);
      status := mgr.FlushFile(file);
      KnownSame(s, mgr.st, book.pins, book.changed);
    }

    /** If every frame is pinned the page is new all the same, with the bytes of its block in the file. */
    method DoAlloc(file: File) returns (answer: Answer)
      requires Valid() && Lawful(book, Alloc(file))
      modifies this, mgr, mgr.bufTable, mgr.bufPool, mgr.hashTable, mgr.hashTable.ht, mgr.hashTable.nodes, mgr.files
      ensures Valid() && mgr.hashTable.Grown() && answer.Answer? && answer.page !in old(book.image)
      ensures answer == Reply(old(book), mgr.numBufs, Alloc(file), BytesOf(answer))
      ensures book == Next(old(book), mgr.numBufs, Alloc(file), BytesOf(answer))
    {
      ghost var s := mgr.st;
      FullMeans(s, book);
      InRoom(file);
      answer := NewPageOf(file);
      var page := answer.page;
      KnownStep(s, mgr.st, page, book.pins, book.changed, book.changed + {page});
      Record(Ledger(book.image[page := answer.bytes], book.pins[page := if answer.status == OK then 1 else 0],
                    book.changed + {page}, book.room[file := book.room[file].Taken()]));
    }

    method NewPageOf(file: File) returns (answer: Answer)
      requires mgr.Valid() && file in mgr.files && |file.blocks| < MAX_PAGES
      modifies mgr, mgr.bufTable, mgr.bufPool, mgr.hashTable, mgr.hashTable.ht, mgr.hashTable.nodes, mgr.files
      ensures mgr.Valid() && mgr.hashTable.Grown()
      ensures file in old(mgr.room) && mgr.room == old(mgr.room)[file := old(mgr.room)[file].Taken()]
      ensures answer.Answer? && answer.page == PageId(file, old(mgr.room)[file].First())
      ensures answer.status == if AllPinned(old(mgr.st).table) then BUFFEREXCEEDED else OK
      ensures answer.page !in old(mgr.st).view && mgr.st.view == old(mgr.st).view[answer.page := answer.bytes]
      ensures mgr.st.Pins(answer.page) == if answer.status == OK then 1 else 0
      ensures SamePinsBut(old(mgr.st), mgr.st, answer.page)
    {
      ghost var s := mgr.st;
      var status, pageNo, frame := mgr.AllocPage(file);
      var page := PageId(file, pageNo);
      var bytes := NewBytes(status, page, frame);
      SameMap(s.view, mgr.st.view, page);
      answer := Answer(status, page, bytes);
    }

    /** The clients' ledger accounts for every page of the files. */
    lemma {:induction false} BookAccounted()
      requires Valid()
      ensures Accounted(book)
    {
      assert Stored(mgr.files, mgr.st.disk, mgr.room);
      forall f {:trigger ExtentOk(book.room, f)} | f in book.room ensures ExtentOk(book.room, f) {
        assert FileOk(f) && RoomAt(f, mgr.room);
        FreePages(f.blocks, f.free);
      }
      forall id | id in book.image ensures HasPage(book.room, id.file, id.pageNo) {
        assert DiskAt(mgr.files, mgr.st.disk, id) && RoomAt(id.file, mgr.room);
      }
      forall f, p {:trigger HasPage(book.room, f, p)} | f in book.room && HasPage(book.room, f, p)
        ensures PageId(f, p) in book.image
      {
        assert RoomAt(f, mgr.room) && OnlyAllocated(f, mgr.st.disk) && f.Has(p);
      }
    }

    lemma {:induction false} InRoom(file: File)
      requires Valid() && file in book.room
      ensures file in mgr.files && book.room[file] == Extent(|file.blocks|, file.free)
    {
      assert Stored(mgr.files, mgr.st.disk, mgr.room) && RoomAt(file, mgr.room);
    }

    method NewBytes(status: Status, page: PageId, frame: int) returns (bytes: Block)
      requires mgr.Valid() && page in mgr.st.view
      requires if status == OK then mgr.st.Holds(page, frame) else page !in mgr.st.entries
      ensures bytes == mgr.st.view[page]
    {
      if status == OK {
        bytes := mgr.bufPool[frame];
      } else {
        PageBacked(mgr.st, NONE, page);
        assert Stored(mgr.files, mgr.st.disk, mgr.room) && DiskAt(mgr.files, mgr.st.disk, page) && FileOk(page.file);
        var st;
        st, bytes := page.file.ReadPage(page.pageNo);
      }
    }

    method DoDispose(id: PageId)
      requires Valid() && Lawful(book, Dispose(id))
      modifies this, mgr, mgr.bufTable, mgr.bufPool, mgr.hashTable, mgr.hashTable.ht, mgr.hashTable.nodes, mgr.files
      ensures Valid() && mgr.hashTable.nodes == old(mgr.hashTable.nodes)
      ensures book == Next(old(book), mgr.numBufs, Dispose(id), ZeroBlock)
    {
      ghost var s := mgr.st;
      assert Stored(mgr.files, s.disk, mgr.room) && DiskAt(mgr.files, s.disk, id) && FileOk(id.file);
      DisposeMeaning(s, id);
      var status := mgr.DisposePage(id.file, id.pageNo);
      KnownStep(s, mgr.st, id, book.pins, book.changed, book.changed - {id});
      Record(Ledger(book.image - {id}, book.pins[id := 0], book.changed - {id},
                    book.room[id.file := book.room[id.file].Given(id.pageNo)]));
    }

    /** Any sequence of requests; those the rules forbid are passed over.  Every answer is the one the ledger of
        its moment asks for, and the ledger at the end is the one the requests lead to. */
    method Run(rs: seq<Request>) returns (answers: seq<Answer>)
      requires Valid()
      modifies this, mgr, mgr.bufTable, mgr.bufPool, mgr.hashTable, mgr.hashTable.ht, mgr.hashTable.nodes, mgr.files
      ensures Valid() && mgr.hashTable.Grown() && |answers| == |rs|
      ensures AllRight(old(book), mgr.numBufs, rs, answers, |rs|)
      ensures book == LedgerAt(old(book), mgr.numBufs, rs, answers, |rs|)
    {
      answers := [];
      for i := 0 to |rs|
        invariant Valid() && mgr.hashTable.Grown()
        invariant |answers| == i && AllRight(old(book), mgr.numBufs, rs, answers, i)
        invariant book == LedgerAt(old(book), mgr.numBufs, rs, answers, i)
      {
        ghost var now := book;
        var answer := Submit(rs[i]);
        OneMore(old(book), mgr.numBufs, rs, answers, now, answer);
        answers := answers + [answer];
      }
    }
  }

  lemma {:induction false} SameMap(m: map<PageId, Block>, n: map<PageId, Block>, id: PageId)
    requires n - {id} == m && n.Keys == m.Keys + {id}
    ensures n == m[id := n[id]]
  {
    assert forall d | d in m :: d in n - {id} && (n - {id})[d] == n[d];
  }
}
