/**
  A heap file as a value: its data pages in chain order.  A scan visits the entries of
  `Listing`, ordered by position in the chain and slot number.
 */
module HeapSpec {
  import opened Bytes
  import opened SlottedPage

  datatype RID = RID(pageNo: int, slotNo: int)

  const NULLRID := RID(-1, -1)

  /** A record as a scan meets it. */
  datatype Entry = Entry(rid: RID, bytes: seq<byte>)

  ghost predicate AllValid(ps: seq<PageState>) {
    forall i {:trigger ps[i].Valid()} | 0 <= i < |ps| :: ps[i].Valid()
  }

  ghost function EntryAt(p: PageState, k: int): Entry
    requires p.Valid() && p.area.Live(k)
  {
    assert p.area.Within(k);
    Entry(RID(p.pageNo, k), p.area.Extent(k))
  }

  /** The records of page p in slots lo..hi-1. */
  ghost function PageEntries(p: PageState, lo: int, hi: int): seq<Entry>
    requires p.Valid()
    decreases hi - lo
  {
    if lo >= hi then []
    else if p.area.Live(lo) then [EntryAt(p, lo)] + PageEntries(p, lo + 1, hi)
    else PageEntries(p, lo + 1, hi)
  }

  ghost function SlotCount(p: PageState): nat { |p.area.slots| }

  /** The records of pages i..j-1 of the chain. */
  ghost function FileEntries(ps: seq<PageState>, i: int, j: int): seq<Entry>
    requires AllValid(ps) && 0 <= i && j <= |ps|
    decreases j - i
  {
    if i >= j then [] else PageEntries(ps[i], 0, SlotCount(ps[i])) + FileEntries(ps, i + 1, j)
  }

  ghost function Listing(ps: seq<PageState>): seq<Entry>
    requires AllValid(ps)
  {
    FileEntries(ps, 0, |ps|)
  }

  /** The records before slot k of page i, and those from there on. */
  ghost function Before(ps: seq<PageState>, i: int, k: int): seq<Entry>
    requires AllValid(ps) && 0 <= i < |ps|
  {
    FileEntries(ps, 0, i) + PageEntries(ps[i], 0, k)
  }

  ghost function From(ps: seq<PageState>, i: int, k: int): seq<Entry>
    requires AllValid(ps) && 0 <= i < |ps|
  {
    PageEntries(ps[i], k, SlotCount(ps[i])) + FileEntries(ps, i + 1, |ps|)
  }

  // ---- Cutting a listing ----

  lemma {:induction false} PageSplit(p: PageState, lo: int, k: int, hi: int)
    requires p.Valid() && lo <= k <= hi
    ensures PageEntries(p, lo, hi) == PageEntries(p, lo, k) + PageEntries(p, k, hi)
    decreases k - lo
  {
    if lo < k {
      PageSplit(p, lo + 1, k, hi);
    }
  }

  lemma {:induction false} PageBeyond(p: PageState, lo: int, hi: int)
    requires p.Valid() && forall k | lo <= k < hi :: !p.area.Live(k)
    ensures PageEntries(p, lo, hi) == []
    decreases hi - lo
  {
    if lo < hi {
      PageBeyond(p, lo + 1, hi);
    }
  }

  /** Two pages with the same records in a range of slots list the same there. */
  lemma {:induction false} PageSame(p: PageState, q: PageState, lo: int, hi: int)
    requires p.Valid() && q.Valid()
    requires forall k | lo <= k < hi :: p.area.Live(k) == q.area.Live(k)
    requires forall k | lo <= k < hi && p.area.Live(k) :: EntryAt(p, k) == EntryAt(q, k)
    ensures PageEntries(p, lo, hi) == PageEntries(q, lo, hi)
    decreases hi - lo
  {
    if lo < hi {
      PageSame(p, q, lo + 1, hi);
    }
  }

  lemma {:induction false} FileSplit(ps: seq<PageState>, i: int, m: int, j: int)
    requires AllValid(ps) && 0 <= i <= m <= j <= |ps|
    ensures FileEntries(ps, i, j) == FileEntries(ps, i, m) + FileEntries(ps, m, j)
    decreases m - i
  {
    if i < m {
      FileSplit(ps, i + 1, m, j);
    }
  }

  /** Chains that agree on a range of pages, up to the links, list the same there. */
  lemma {:induction false} FileSame(ps: seq<PageState>, qs: seq<PageState>, i: int, j: int)
    requires AllValid(ps) && AllValid(qs) && 0 <= i && j <= |ps| && j <= |qs|
    requires forall m | i <= m < j :: ps[m].area == qs[m].area && ps[m].pageNo == qs[m].pageNo
    ensures FileEntries(ps, i, j) == FileEntries(qs, i, j)
    decreases j - i
  {
    if i < j {
      FileSame(ps, qs, i + 1, j);
      PageSame(ps[i], qs[i], 0, SlotCount(ps[i]));
    }
  }

  lemma {:induction false} ListingSplit(ps: seq<PageState>, i: int, k: int)
    requires AllValid(ps) && 0 <= i < |ps| && k >= 0
    ensures Listing(ps) == Before(ps, i, k) + From(ps, i, k)
  {
    FileSplit(ps, 0, i, |ps|);
    var n := SlotCount(ps[i]);
    if k <= n {
      PageSplit(ps[i], 0, k, n);
    } else {
      PageSplit(ps[i], 0, n, k);
      PageBeyond(ps[i], n, k);
      PageBeyond(ps[i], k, n);
    }
  }

  /** One step of a scan: to the next live slot of the page. */
  lemma {:induction false} FromNext(ps: seq<PageState>, i: int, k: int)
    requires AllValid(ps) && 0 <= i < |ps| && k >= 0
    ensures var r := ps[i].area.NextLive(k);
      if r < SlotCount(ps[i])
      then From(ps, i, k) == [EntryAt(ps[i], r)] + From(ps, i, r + 1)
      else From(ps, i, k) == FileEntries(ps, i + 1, |ps|)
  {
    var p, n := ps[i], SlotCount(ps[i]);
    var r := p.area.NextLive(k);
    if r < n {
      PageSplit(p, k, r, n);
      PageBeyond(p, k, r);
    } else {
      PageBeyond(p, k, n);
    }
  }

  /** From the first slot of a page on is everything from that page on. */
  lemma {:induction false} FromPage(ps: seq<PageState>, i: int)
    requires AllValid(ps) && 0 <= i < |ps|
    ensures From(ps, i, 0) == FileEntries(ps, i, |ps|)
  {}

  /** A slot the scan stands on is one entry of the listing. */
  lemma {:induction false} ListingAt(ps: seq<PageState>, i: int, k: int)
    requires AllValid(ps) && 0 <= i < |ps| && ps[i].area.Live(k)
    ensures Listing(ps) == Before(ps, i, k) + [EntryAt(ps[i], k)] + From(ps, i, k + 1)
  {
    ListingSplit(ps, i, k);
    FromNext(ps, i, k);
  }

  lemma {:induction false} OnPageAt(p: PageState, lo: int, hi: int, e: Entry) returns (k: int)
    requires p.Valid() && e in PageEntries(p, lo, hi)
    ensures lo <= k < hi && p.area.Live(k) && EntryAt(p, k) == e
    decreases hi - lo
  {
    if p.area.Live(lo) && EntryAt(p, lo) == e {
      k := lo;
    } else {
      k := OnPageAt(p, lo + 1, hi, e);
    }
  }

  lemma {:induction false} InFileAt(ps: seq<PageState>, i: int, j: int, e: Entry) returns (m: nat, k: int)
    requires AllValid(ps) && 0 <= i && j <= |ps| && e in FileEntries(ps, i, j)
    ensures m < |ps| && ps[m].Valid() && ps[m].area.Live(k) && EntryAt(ps[m], k) == e
    decreases j - i
  {
    assert ps[i].Valid();
    if e in PageEntries(ps[i], 0, SlotCount(ps[i])) {
      m := i;
      k := OnPageAt(ps[i], 0, SlotCount(ps[i]), e);
    } else {
      m, k := InFileAt(ps, i + 1, j, e);
    }
  }

  /** Where a record of the file is: page m of the chain, slot k. */
  lemma {:induction false} Located(ps: seq<PageState>, e: Entry) returns (m: nat, k: int)
    requires AllValid(ps) && e in Listing(ps)
    ensures m < |ps| && ps[m].Valid() && ps[m].area.Live(k) && EntryAt(ps[m], k) == e
    ensures e.rid == RID(ps[m].pageNo, k) && k >= 0
  {
    m, k := InFileAt(ps, 0, |ps|, e);
  }

  // ---- Deleting a record ----

  function RemoveFrom(p: PageState, k: int): PageState
    requires p.area.Readable(k) && p.area.Within(k)
  {
    p.(area := Remove(p.area, k))
  }

  /** The chain qs is ps without the record in slot k of page i. */
  predicate CutAt(ps: seq<PageState>, qs: seq<PageState>, i: nat, k: int) {
    && i < |ps| && ps[i].area.Readable(k) && ps[i].area.Within(k)
    && qs == ps[i := RemoveFrom(ps[i], k)]
  }

  lemma {:induction false} ReadableWithin(p: PageState, k: int)
    requires p.Valid() && p.area.Readable(k)
    ensures p.area.Within(k)
  {
    assert p.area.Live(k);
  }

  lemma {:induction false} RemoveEntry(p: PageState, k: int, j: int)
    requires p.Valid() && p.area.Readable(k) && p.area.Within(k) && RemoveFrom(p, k).Valid()
    ensures RemoveFrom(p, k).area.Live(j) == (p.area.Live(j) && j != k)
    ensures j != k && p.area.Live(j) ==> EntryAt(RemoveFrom(p, k), j) == EntryAt(p, j)
  {
    RemoveSlot(p.area, k, j);
    if j != k && p.area.Live(j) {
      RemoveExtent(p.area, k, j);
    }
  }

  lemma {:induction false} RemovePageEntries(p: PageState, k: int, lo: int, hi: int)
    requires p.Valid() && p.area.Readable(k) && p.area.Within(k) && RemoveFrom(p, k).Valid()
    requires k < lo || hi <= k
    ensures PageEntries(RemoveFrom(p, k), lo, hi) == PageEntries(p, lo, hi)
  {
    var q := RemoveFrom(p, k);
    forall j | lo <= j < hi
      ensures q.area.Live(j) == p.area.Live(j) && (p.area.Live(j) ==> EntryAt(q, j) == EntryAt(p, j))
    {
      RemoveEntry(p, k, j);
    }
    PageSame(q, p, lo, hi);
  }

  /** After deleting slot k of page i the scan has the same records ahead and behind. */
  lemma {:induction false} DeleteListing(ps: seq<PageState>, i: int, k: int)
    requires AllValid(ps) && 0 <= i < |ps| && ps[i].area.Readable(k) && ps[i].area.Within(k)
    ensures var qs := ps[i := RemoveFrom(ps[i], k)];
      && AllValid(qs)
      && From(qs, i, k + 1) == From(ps, i, k + 1)
      && Before(qs, i, k + 1) == Before(ps, i, k)
      && Listing(qs) == Before(ps, i, k) + From(ps, i, k + 1)
  {
    var p := ps[i];
    assert ps[i].Valid();
    RemoveValid(p.area, k);
    var q := RemoveFrom(p, k);
    var qs := ps[i := q];
    assert AllValid(qs);
    FileSame(qs, ps, 0, i);
    FileSame(qs, ps, i + 1, |ps|);
    RemovePageEntries(p, k, 0, k);
    RemoveEntry(p, k, k);
    PageSplit(q, 0, k, k + 1);
    PageBeyond(q, k, k + 1);
    var n, m := SlotCount(p), SlotCount(q);
    RemovePageEntries(p, k, k + 1, n);
    if m <= k {
      PageBeyond(q, k + 1, n);
      PageBeyond(q, k + 1, m);
    } else {
      PageSplit(q, k + 1, m, n);
      PageBeyond(q, m, n);
    }
    ListingSplit(qs, i, k + 1);
  }

  // ---- The chain ----

  /** The page number a page must link to. */
  ghost function NextNo(ps: seq<PageState>, i: int): int
    requires 0 <= i < |ps|
  {
    if i + 1 < |ps| then ps[i + 1].pageNo else -1
  }

  ghost predicate ChainAt(ps: seq<PageState>, i: int)
    requires 0 <= i < |ps|
  {
    ps[i].Valid() && ps[i].nextPage == NextNo(ps, i) && ps[i].pageNo >= 1
  }

  predicate OtherPage(ps: seq<PageState>, i: int, j: int)
    requires 0 <= i < |ps| && 0 <= j < |ps|
  {
    ps[i].pageNo != ps[j].pageNo
  }

  /** The pages are linked in this order, each once, and every page is a valid slotted page. */
  ghost predicate IsChain(ps: seq<PageState>) {
    && ps != []
    && (forall i {:trigger ChainAt(ps, i)} | 0 <= i < |ps| :: ChainAt(ps, i))
    && forall i, j {:trigger OtherPage(ps, i, j)} | 0 <= i < j < |ps| :: OtherPage(ps, i, j)
  }

  lemma {:induction false} ChainValid(ps: seq<PageState>)
    requires IsChain(ps)
    ensures AllValid(ps)
  {
    forall i {:trigger ps[i].Valid()} | 0 <= i < |ps| ensures ps[i].Valid() {
      assert ChainAt(ps, i);
    }
  }

  /** Page numbers tell the positions in a chain apart. */
  lemma {:induction false} OnePlace(ps: seq<PageState>, i: nat, j: nat)
    requires IsChain(ps) && i < |ps| && j < |ps| && ps[i].pageNo == ps[j].pageNo
    ensures i == j
  {
    assert i < j ==> OtherPage(ps, i, j);
    assert j < i ==> OtherPage(ps, j, i);
  }

  lemma {:induction false} DeleteChain(ps: seq<PageState>, i: int, k: int)
    requires IsChain(ps) && 0 <= i < |ps| && ps[i].area.Readable(k) && ps[i].area.Within(k)
    ensures IsChain(ps[i := RemoveFrom(ps[i], k)])
  {
    var qs := ps[i := RemoveFrom(ps[i], k)];
    assert ChainAt(ps, i);
    RemoveValid(ps[i].area, k);
    forall m {:trigger ChainAt(qs, m)} | 0 <= m < |qs| ensures ChainAt(qs, m) {
      assert ChainAt(ps, m);
    }
    forall m, j {:trigger OtherPage(qs, m, j)} | 0 <= m < j < |qs| ensures OtherPage(qs, m, j) {
      assert OtherPage(ps, m, j);
    }
  }

  // ---- A RID is given to one record at a time ----

  ghost predicate RidIn(e: Entry, ps: seq<PageState>, i: int, j: int) {
    exists m :: i <= m < j && 0 <= m < |ps| && e.rid.pageNo == ps[m].pageNo
  }

  ghost predicate OneEach(es: seq<Entry>) {
    forall a, b {:trigger es[a], es[b]} | 0 <= a < b < |es| :: es[a].rid != es[b].rid
  }

  lemma {:induction false} PageRids(p: PageState, lo: int, hi: int)
    requires p.Valid()
    ensures OneEach(PageEntries(p, lo, hi))
    ensures forall e | e in PageEntries(p, lo, hi) :: e.rid.pageNo == p.pageNo && lo <= e.rid.slotNo < hi
    decreases hi - lo
  {
    if lo < hi {
      PageRids(p, lo + 1, hi);
    }
  }

  lemma {:induction false} FileRids(ps: seq<PageState>, i: int, j: int)
    requires IsChain(ps) && AllValid(ps) && 0 <= i && j <= |ps|
    ensures OneEach(FileEntries(ps, i, j)) && forall e | e in FileEntries(ps, i, j) :: RidIn(e, ps, i, j)
    decreases j - i
  {
    if i < j {
      assert ps[i].Valid();
      var a, b := PageEntries(ps[i], 0, SlotCount(ps[i])), FileEntries(ps, i + 1, j);
      PageRids(ps[i], 0, SlotCount(ps[i]));
      FileRids(ps, i + 1, j);
      forall e | e in b ensures e.rid.pageNo != ps[i].pageNo && RidIn(e, ps, i, j) {
        var m :| i + 1 <= m < j && 0 <= m < |ps| && e.rid.pageNo == ps[m].pageNo;
        assert OtherPage(ps, i, m);
      }
      forall e | e in a ensures RidIn(e, ps, i, j) {
        assert e.rid.pageNo == ps[i].pageNo;
      }
      OneEachPlus(a, b);
    }
  }

  lemma {:induction false} OneEachPlus(a: seq<Entry>, b: seq<Entry>)
    requires OneEach(a) && OneEach(b) && forall e, f | e in a && f in b :: e.rid.pageNo != f.rid.pageNo
    ensures OneEach(a + b)
  {
    forall i, j {:trigger (a + b)[i], (a + b)[j]} | 0 <= i < j < |a + b| ensures (a + b)[i].rid != (a + b)[j].rid {
      if i < |a| <= j {
        assert a[i] in a && b[j - |a|] in b;
      }
    }
  }
}
