/**
  One heap file (heapfile.C) as its clients see it through the buffer manager: a map from page
  numbers to pages, which BufferManager keeps faithful as long as pages are pinned while in
  use and unpinned dirty once changed.
 */
module HeapStores {
  import opened Bytes
  import opened SlottedPage
  import opened HeapSpec
  import opened HeapGrowth

  /** FileHdrPage without the name. */
  datatype FileHdr = FileHdr(firstPage: int, lastPage: int, pageCnt: int, recCnt: int)

  /** What an insertion depends on, and recCnt. */
  datatype Snapshot = Snapshot(chain: seq<PageState>, numPages: int, recCnt: int)

  class HeapStore {
    const hdrPageNo: int
    var hdr: FileHdr
    var pages: map<int, PageState>
    var numPages: int                     // pages of the file; the next one allocated has this number
    ghost var chain: seq<PageState>       // the data pages in order
    ghost var pins: multiset<int>         // one element per pin held on a page
    ghost var unsaved: set<int>           // pages changed and not yet unpinned dirty

    ghost predicate StoredAt(i: int)
      requires 0 <= i < |chain|
      reads `pages, `numPages, `chain
    {
      var n := chain[i].pageNo;
      n in pages && pages[n] == chain[i] && n < numPages && n != hdrPageNo
    }

    ghost predicate Linked(ps: seq<PageState>)
      reads `hdr, `pages, `numPages, `chain
    {
      && ps == chain && IsChain(chain)
      && hdr.firstPage == chain[0].pageNo && hdr.lastPage == Last(chain).pageNo && hdr.pageCnt == |chain|
      && 1 <= hdrPageNo < numPages
      && forall i {:trigger StoredAt(i)} | 0 <= i < |chain| :: StoredAt(i)
    }

    /** The chain runs from firstPage to lastPage through pageCnt pages. */
    ghost predicate Valid()
      reads `hdr, `pages, `numPages, `chain
    {
      chain != [] && forall ps {:trigger Linked(ps)} | ps == chain :: Linked(ps)
    }

    ghost function Records(): seq<Entry>
      requires Valid()
      reads `hdr, `pages, `numPages, `chain
    {
      assert Linked(chain);
      ChainValid(chain);
      Listing(chain)
    }

    ghost function Now(): Snapshot
      reads `hdr, `numPages, `chain
    {
      Snapshot(chain, numPages, hdr.recCnt)
    }

    /** recCnt is the number of records on the chain. */
    ghost predicate Counted()
      requires Valid()
      reads `hdr, `pages, `numPages, `chain
    {
      hdr.recCnt == |Records()|
    }

    /** createHeapFile: in a file that has no pages yet, a header page and one empty data page are allocated,
        set up, and unpinned dirty. */
    constructor ()
      ensures Valid() && Counted() && Records() == [] && unsaved == {} && forall n :: pins[n] == 0
      ensures Now() == Snapshot([InitPage(2)], 3, 0)
    {
      hdrPageNo, hdr := 1, FileHdr(0, 0, 0, 0);
      pages, numPages, chain := map[], 1, [];
      pins, unsaved := multiset{}, {};
      new;
      CreatePages();
      chain := [InitPage(2)];
      EmptyAreaValid();
      assert ChainAt(chain, 0) && StoredAt(0);
      assert Linked(chain);
    }

    method CreatePages()
      requires hdrPageNo == numPages == 1 && pages == map[] && pins == multiset{} && unsaved == {}
      modifies `hdr, `pages, `numPages, `pins, `unsaved
      ensures hdr == FileHdr(2, 2, 1, 0) && pages == map[2 := InitPage(2)] && numPages == 3
      ensures unsaved == {} && forall n :: pins[n] == 0
    {
      var hdrPage := AllocPage();
      var newPageNo := AllocPage();
      PutPage(newPageNo, InitPage(newPageNo));
      PutHeader(FileHdr(newPageNo, newPageNo, 1, 0));
      UnPinPage(newPageNo, true, {});
      UnPinPage(hdrPage, true, {});
    }

    // ---- The buffer manager as its clients see it ----

    /** Pages that were changed, and that nobody has pinned who could still unpin them dirty. */
    ghost function Strays(): set<int>
      reads `pins, `unsaved
    {
      set n | n in unsaved && pins[n] == 0
    }

    /** One page has got some pins more. */
    twostate predicate Pinned(pageNo: int, more: int)
      reads `pins
    {
      forall n {:trigger pins[n]} :: pins[n] == old(pins)[n] + if n == pageNo then more else 0
    }

    method ReadPage(pageNo: int)
      requires 1 <= pageNo < numPages
      modifies `pins
      ensures Pinned(pageNo, 1)
    {
      pins := pins + multiset{pageNo};
    }

    /** The last pin on a page that was changed is given back dirty, as BufferRuns.Session.MayUnPin demands it.
        This cannot be asked for pages that somebody else left without a pin before. */
    method UnPinPage(pageNo: int, dirty: bool, ghost stray: set<int>)
      requires pageNo in pins && (dirty || pageNo !in unsaved || pins[pageNo] > 1 || pageNo in stray)
      modifies `pins, `unsaved
      ensures Pinned(pageNo, -1)
      ensures unsaved == if dirty then old(unsaved) - {pageNo} else old(unsaved)
    {
      pins := pins - multiset{pageNo};
      unsaved := if dirty then unsaved - {pageNo} else unsaved;
    }

    /** Pages of a heap file are never given back, so a new one extends the file.  What is on it is not on disk. */
    method AllocPage() returns (pageNo: int)
      modifies `pins, `numPages, `unsaved
      ensures old(Valid()) ==> Valid()
      ensures pageNo == old(numPages) && numPages == old(numPages) + 1
      ensures Pinned(pageNo, 1) && unsaved == old(unsaved) + {pageNo}
    {
      ghost var linked := Valid() && Linked(chain);
      pageNo := numPages;
      numPages := numPages + 1;
      pins := pins + multiset{pageNo};
      unsaved := unsaved + {pageNo};
      if linked {
        forall k {:trigger StoredAt(k)} | 0 <= k < |chain| ensures StoredAt(k) {
          assert old(StoredAt(k));
        }
      }
    }

    /** A client stores into a page it has pinned. */
    method PutPage(pageNo: int, p: PageState)
      requires pageNo in pins
      modifies `pages, `unsaved
      ensures pages == old(pages)[pageNo := p] && unsaved == old(unsaved) + {pageNo}
    {
      pages := pages[pageNo := p];
      unsaved := unsaved + {pageNo};
    }

    method PutHeader(h: FileHdr)
      requires hdrPageNo in pins
      modifies `hdr, `unsaved
      ensures hdr == h && unsaved == old(unsaved) + {hdrPageNo}
    {
      hdr := h;
      unsaved := unsaved + {hdrPageNo};
    }

    /** headerPage->recCnt = n */
    method SetCount(n: int)
      requires Valid() && hdrPageNo in pins
      modifies `hdr, `unsaved
      ensures Valid() && hdr == old(hdr).(recCnt := n) && unsaved == old(unsaved) + {hdrPageNo}
    {
      assert Linked(chain);
      PutHeader(hdr.(recCnt := n));
      forall k {:trigger StoredAt(k)} | 0 <= k < |chain| ensures StoredAt(k) {
        assert old(StoredAt(k));
      }
    }

    /** curPage->deleteRecord(rid) on page i of the chain. */
    method RemoveRecord(pageNo: int, slotNo: int, ghost i: int)
      requires Valid() && 0 <= i < |chain| && chain[i].pageNo == pageNo && pageNo in pins
      requires chain[i].area.Readable(slotNo)
      modifies `pages, `chain, `unsaved
      ensures Valid() && unsaved == old(unsaved) + {pageNo}
      ensures old(chain)[i].area.Within(slotNo) && chain == old(chain)[i := RemoveFrom(old(chain)[i], slotNo)]
    {
      assert Linked(chain);
      PageAt(i);
      ReadableWithin(chain[i], slotNo);
      DeleteChain(chain, i, slotNo);
      PutPage(pageNo, RemoveFrom(pages[pageNo], slotNo));
      ghost var before := chain;
      chain := chain[i := RemoveFrom(chain[i], slotNo)];
      forall k {:trigger StoredAt(k)} | 0 <= k < |chain| ensures StoredAt(k) {
        assert old(StoredAt(k));
        assert k < i ==> OtherPage(before, k, i);
        assert i < k ==> OtherPage(before, i, k);
      }
    }

    /** curPage->insertRecord(rec) on the last page. */
    method AddRecord(rec: seq<byte>)
      requires Valid() && FitsLast(chain, rec) && hdr.lastPage in pins
      modifies `pages, `chain, `unsaved
      ensures Valid() && chain == AddLast(old(chain), rec) && unsaved == old(unsaved) + {hdr.lastPage}
    {
      ghost var before, n := chain, |chain| - 1;
      assert Linked(chain);
      PageAt(n);
      AddLastChain(chain, rec);
      PutPage(hdr.lastPage, AddTo(pages[hdr.lastPage], rec));
      chain := AddLast(chain, rec);
      forall k {:trigger StoredAt(k)} | 0 <= k < |chain| ensures StoredAt(k) {
        assert old(StoredAt(k));
        assert k < n ==> OtherPage(before, k, n);
      }
    }

    /** Sets up page n behind the last page: the page itself, the header, then the link. */
    method LinkPage(n: int)
      requires Valid() && NewTo(chain, n) && n < numPages && n != hdrPageNo
      requires hdrPageNo in pins && n in pins && hdr.lastPage in pins
      modifies `hdr, `pages, `chain, `unsaved
      ensures Valid() && chain == AddPage(old(chain), n) && hdr.recCnt == old(hdr).recCnt
      ensures unsaved == old(unsaved) + {hdrPageNo, n, old(hdr).lastPage}
    {
      var last := hdr.lastPage;
      ghost var before, m := chain, |chain| - 1;
      assert Linked(chain);
      PageAt(m);
      AddPageChain(chain, n);
      PutPage(n, InitPage(n));
      PutHeader(hdr.(lastPage := n, pageCnt := hdr.pageCnt + 1));
      PutPage(last, pages[last].(nextPage := n));
      chain := AddPage(chain, n);
      forall k {:trigger StoredAt(k)} | 0 <= k < |chain| ensures StoredAt(k) {
        if k <= m {
          assert old(StoredAt(k));
          assert k < m ==> OtherPage(before, k, m);
        }
      }
    }

    lemma {:induction false} Facts()
      requires Valid()
      ensures Linked(chain) && AllValid(chain)
    {
      assert Linked(chain);
      ChainValid(chain);
    }

    lemma {:induction false} NextIsNew()
      requires Valid()
      ensures NewTo(chain, numPages) && numPages != hdrPageNo
    {
      assert Linked(chain);
      forall k | 0 <= k < |chain| ensures chain[k].pageNo < numPages {
        assert StoredAt(k);
      }
    }

    lemma {:induction false} PageNumber(i: int)
      requires Valid() && 0 <= i < |chain|
      ensures 1 <= chain[i].pageNo < numPages
    {
      PageAt(i);
    }

    lemma {:induction false} PageAt(i: int)
      requires Valid() && 0 <= i < |chain|
      ensures chain[i].pageNo in pages && pages[chain[i].pageNo] == chain[i] && chain[i].pageNo != hdrPageNo
      ensures chain[i].Valid() && chain[i].nextPage == NextNo(chain, i) && 1 <= chain[i].pageNo < numPages
      ensures chain[i].nextPage == -1 <==> i + 1 == |chain|
    {
      assert Linked(chain) && StoredAt(i) && ChainAt(chain, i);
      if i + 1 < |chain| {
        assert ChainAt(chain, i + 1);
      }
    }
  }

  // ---- The pins and dirty pages of one open heap file object ----

  /** How many pins on page n an object holds: one on the header page, one on its current page if it has one. */
  ghost function Held(hdr: int, hasPage: bool, cur: int, n: int): nat {
    (if n == hdr then 1 else 0) + if hasPage && n == cur then 1 else 0
  }

  /** Will it unpin page n dirty? */
  ghost predicate Promised(hdr: int, hdrDirty: bool, hasPage: bool, cur: int, curDirty: bool, n: int) {
    (n == hdr && hdrDirty) || (hasPage && n == cur && curDirty)
  }
}
