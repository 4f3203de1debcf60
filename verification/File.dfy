/**
  Page allocation inside one file (db.C).  Block 0 is the header: the head of the free
  list, the first user page and the number of pages, kept as three ints at its start.
  A free block holds the number of the next free block in its first int.
 */
module Files {
  import opened Bytes
  import opened Errors

  const MAX_PAGES := 0x7fff_ffff

  type Block = b: seq<byte> | |b| == PAGESIZE witness Zeros(PAGESIZE)

  const ZeroBlock: Block := Zeros(PAGESIZE)

  function NextFree(b: Block): int { GetInt(b, 0) }
  function FirstPage(b: Block): int { GetInt(b, 4) }
  function NumPages(b: Block): int { GetInt(b, 8) }

  /** Assigns one int of the overlaid header structure. */
  function SetInt(b: Block, at: nat, v: int): Block
    requires at + 4 <= PAGESIZE && Int32(v)
  {
    Put(b, at, IntBytes(v))
  }

  /** The int is read back and the ints beside it are untouched. */
  lemma {:induction false} SetIntGet(b: Block, at: nat, v: int, i: nat)
    requires at + 4 <= PAGESIZE && Int32(v) && i + 4 <= PAGESIZE && (i == at || i + 4 <= at || at + 4 <= i)
    ensures GetInt(SetInt(b, at, v), i) == if i == at then v else GetInt(b, i)
  {
    var r := SetInt(b, at, v);
    if i == at {
      assert forall k | 0 <= k < 4 :: r[at + k] == r[at..at + 4][k] == IntBytes(v)[k];
    }
  }

  /** A header assembled from its three ints, over the bytes of b. */
  function Header(b: Block, nextFree: int, firstPage: int, numPages: int): Block
    requires Int32(nextFree) && Int32(firstPage) && Int32(numPages)
  {
    SetInt(SetInt(SetInt(b, 0, nextFree), 4, firstPage), 8, numPages)
  }

  lemma {:induction false} HeaderGet(b: Block, nextFree: int, firstPage: int, numPages: int)
    requires Int32(nextFree) && Int32(firstPage) && Int32(numPages)
    ensures NextFree(Header(b, nextFree, firstPage, numPages)) == nextFree
    ensures FirstPage(Header(b, nextFree, firstPage, numPages)) == firstPage
    ensures NumPages(Header(b, nextFree, firstPage, numPages)) == numPages
  {
    var b0 := SetInt(b, 0, nextFree);
    var b1 := SetInt(b0, 4, firstPage);
    SetIntGet(b, 0, nextFree, 0);
    SetIntGet(b0, 4, firstPage, 0);
    SetIntGet(b0, 4, firstPage, 4);
    SetIntGet(b1, 8, numPages, 0);
    SetIntGet(b1, 8, numPages, 4);
    SetIntGet(b1, 8, numPages, 8);
  }

  /** Element i of the list of page numbers, or -1 beyond its end. */
  function At(list: seq<int>, i: nat): int {
    if i < |list| then list[i] else -1
  }

  /** Element i is a page of the file whose link leads to element i + 1. */
  predicate Linked(blocks: seq<Block>, list: seq<int>, i: nat)
    requires i < |list|
  {
    1 <= list[i] < |blocks| && NextFree(blocks[list[i]]) == At(list, i + 1)
  }

  predicate Differ(list: seq<int>, i: nat, j: nat)
    requires i < |list| && j < |list|
  {
    list[i] != list[j]
  }

  ghost predicate Distinct(list: seq<int>) {
    forall i, j {:trigger Differ(list, i, j)} | 0 <= i < j < |list| :: Differ(list, i, j)
  }

  /** `list` is what following the links of the file from `head` visits. */
  ghost predicate IsFreeList(blocks: seq<Block>, head: int, list: seq<int>) {
    && head == At(list, 0)
    && (forall i {:trigger Linked(blocks, list, i)} | 0 <= i < |list| :: Linked(blocks, list, i))
    && Distinct(list)
  }

  /** A file as the allocator keeps it, `free` being its free list. */
  ghost predicate WellFormed(blocks: seq<Block>, free: seq<int>) {
    && 1 <= |blocks| == NumPages(blocks[0])
    && FirstPage(blocks[0]) == (if |blocks| == 1 then -1 else 1)
    && IsFreeList(blocks, NextFree(blocks[0]), free)
    && 1 !in free
  }

  predicate IsAllocated(blocks: seq<Block>, free: seq<int>, p: int) {
    1 <= p < |blocks| && p !in free
  }

  ghost function Allocated(blocks: seq<Block>, free: seq<int>): set<int> {
    set p | 1 <= p < |blocks| && IsAllocated(blocks, free, p)
  }

  ghost function Elements(list: seq<int>): set<int> {
    set p | p in list
  }

  lemma {:induction false} ElementsSize(list: seq<int>)
    requires Distinct(list)
    ensures |Elements(list)| == |list|
  {
    if list != [] {
      var n := |list| - 1;
      forall i, j {:trigger Differ(list[..n], i, j)} | 0 <= i < j < n ensures Differ(list[..n], i, j) {
        assert Differ(list, i, j);
      }
      ElementsSize(list[..n]);
      forall i | 0 <= i < n ensures list[..n][i] != list[n] {
        assert Differ(list, i, n);
      }
      assert Elements(list) == Elements(list[..n]) + {list[n]};
    }
  }

  predicate IsPage(p: int, n: int) { 1 <= p < n }

  ghost function Pages(n: int): set<int> {
    set p | 1 <= p < n && IsPage(p, n)
  }

  lemma {:induction false} PagesSize(n: int)
    requires n >= 1
    ensures |Pages(n)| == n - 1
  {
    if n > 1 {
      PagesSize(n - 1);
      assert Pages(n) == Pages(n - 1) + {n - 1};
    }
  }

  lemma {:induction false} FreePages(blocks: seq<Block>, free: seq<int>)
    requires WellFormed(blocks, free)
    ensures forall p | p in free :: 1 < p < |blocks|
  {
    forall p | p in free ensures 1 < p < |blocks| {
      var i :| 0 <= i < |free| && free[i] == p;
      assert Linked(blocks, free, i);
    }
  }

  /** No page is lost or counted twice: header, allocated and free pages make up the file. */
  lemma {:induction false} Conservation(blocks: seq<Block>, free: seq<int>)
    requires WellFormed(blocks, free)
    ensures NumPages(blocks[0]) == 1 + |Allocated(blocks, free)| + |free|
    ensures Allocated(blocks, free) !! Elements(free)
    ensures |blocks| > 1 ==> FirstPage(blocks[0]) in Allocated(blocks, free)
  {
    ElementsSize(free);
    PagesSize(|blocks|);
    FreePages(blocks, free);
    assert Pages(|blocks|) == Allocated(blocks, free) + Elements(free);
  }

  /** The page File::allocatePage hands out: the head of the free list, or one past the end. */
  function NewPage(blocks: seq<Block>): int
    requires blocks != []
  {
    if NextFree(blocks[0]) != -1 then NextFree(blocks[0]) else NumPages(blocks[0])
  }

  /** The file after File::allocatePage. */
  function Allocate(blocks: seq<Block>): seq<Block>
    requires 1 <= |blocks| < MAX_PAGES && NumPages(blocks[0]) == |blocks|
    requires NextFree(blocks[0]) == -1 || 0 <= NextFree(blocks[0]) < |blocks|
  {
    if NextFree(blocks[0]) != -1 then
      blocks[0 := SetInt(blocks[0], 0, NextFree(blocks[NewPage(blocks)]))]
    else
      (blocks + [ZeroBlock])[0 := Extended(blocks[0], |blocks|)]
  }

  /** The header of a file of n pages after a page was added at its end. */
  function Extended(header: Block, n: nat): Block
    requires n < MAX_PAGES
  {
    if FirstPage(header) == -1 then SetInt(SetInt(header, 8, n + 1), 4, n) else SetInt(header, 8, n + 1)
  }

  lemma {:induction false} ExtendedGet(header: Block, n: nat)
    requires n < MAX_PAGES
    ensures NextFree(Extended(header, n)) == NextFree(header)
    ensures FirstPage(Extended(header, n)) == if FirstPage(header) == -1 then n else FirstPage(header)
    ensures NumPages(Extended(header, n)) == n + 1
  {
    var h := SetInt(header, 8, n + 1);
    SetIntGet(header, 8, n + 1, 0);
    SetIntGet(header, 8, n + 1, 4);
    SetIntGet(header, 8, n + 1, 8);
    SetIntGet(h, 4, n, 0);
    SetIntGet(h, 4, n, 4);
    SetIntGet(h, 4, n, 8);
  }

  function Rest(list: seq<int>): seq<int> {
    if list == [] then [] else list[1..]
  }

  lemma {:induction false} HeadOnce(list: seq<int>)
    requires Distinct(list) && list != []
    ensures forall q :: q in list[1..] <==> q in list && q != list[0]
  {
    forall q | q in list[1..] ensures q != list[0] {
      var i :| 0 <= i < |list| - 1 && list[1..][i] == q;
      assert Differ(list, 0, i + 1);
    }
    assert list == [list[0]] + list[1..];
  }

  lemma {:induction false} AllocateFree(blocks: seq<Block>, free: seq<int>)
    requires WellFormed(blocks, free) && |blocks| < MAX_PAGES && free != []
    ensures NewPage(blocks) == free[0] && 1 <= free[0] < |blocks|
    ensures WellFormed(Allocate(blocks), free[1..])
  {
    assert Linked(blocks, free, 0);
    var p, after, free' := free[0], Allocate(blocks), free[1..];
    SetIntGet(blocks[0], 0, NextFree(blocks[p]), 0);
    SetIntGet(blocks[0], 0, NextFree(blocks[p]), 4);
    SetIntGet(blocks[0], 0, NextFree(blocks[p]), 8);
    forall i {:trigger Linked(after, free', i)} | 0 <= i < |free'| ensures Linked(after, free', i) {
      assert Linked(blocks, free, i + 1);
    }
    forall i, j {:trigger Differ(free', i, j)} | 0 <= i < j < |free'| ensures Differ(free', i, j) {
      assert Differ(free, i + 1, j + 1);
    }
  }

  lemma {:induction false} AllocateNew(blocks: seq<Block>)
    requires WellFormed(blocks, []) && |blocks| < MAX_PAGES
    ensures NewPage(blocks) == |blocks|
    ensures WellFormed(Allocate(blocks), [])
  {
    ExtendedGet(blocks[0], |blocks|);
  }

  /** The page handed out was free or new; the free list loses its head; nothing else changes. */
  lemma {:induction false} AllocateExact(blocks: seq<Block>, free: seq<int>)
    requires WellFormed(blocks, free) && |blocks| < MAX_PAGES
    ensures NextFree(blocks[0]) == -1 || 0 <= NextFree(blocks[0]) < |blocks|
    ensures WellFormed(Allocate(blocks), Rest(free))
    ensures NewPage(blocks) == if free == [] then |blocks| else free[0]
    ensures !IsAllocated(blocks, free, NewPage(blocks))
    ensures forall q {:trigger IsAllocated(Allocate(blocks), Rest(free), q)} ::
      IsAllocated(Allocate(blocks), Rest(free), q) <==> q == NewPage(blocks) || IsAllocated(blocks, free, q)
    ensures forall q {:trigger Allocate(blocks)[q]} | 1 <= q < |blocks| :: Allocate(blocks)[q] == blocks[q]
  {
    if free != [] {
      AllocateFree(blocks, free);
      HeadOnce(free);
    } else {
      AllocateNew(blocks);
    }
  }

  /** File::disposePage on a page number it accepts. */
  function Dispose(blocks: seq<Block>, p: int): seq<Block>
    requires 1 <= p < |blocks| && Int32(p)
  {
    blocks[p := SetInt(ZeroBlock, 0, NextFree(blocks[0]))][0 := SetInt(blocks[0], 0, p)]
  }

  lemma {:induction false} DisposeGet(blocks: seq<Block>, p: int)
    requires 1 <= p < |blocks| && Int32(p)
    ensures var after := Dispose(blocks, p);
      && NextFree(after[0]) == p && NextFree(after[p]) == NextFree(blocks[0])
      && FirstPage(after[0]) == FirstPage(blocks[0]) && NumPages(after[0]) == NumPages(blocks[0])
  {
    SetIntGet(ZeroBlock, 0, NextFree(blocks[0]), 0);
    SetIntGet(blocks[0], 0, p, 0);
    SetIntGet(blocks[0], 0, p, 4);
    SetIntGet(blocks[0], 0, p, 8);
  }

  /** Disposing of an allocated page puts it at the head of the free list. */
  lemma {:induction false} DisposeExact(blocks: seq<Block>, free: seq<int>, p: int)
    requires WellFormed(blocks, free) && IsAllocated(blocks, free, p) && p != 1 && Int32(p)
    ensures WellFormed(Dispose(blocks, p), [p] + free)
    ensures forall q {:trigger IsAllocated(Dispose(blocks, p), [p] + free, q)} ::
      IsAllocated(Dispose(blocks, p), [p] + free, q) <==> q != p && IsAllocated(blocks, free, q)
    ensures forall q {:trigger Dispose(blocks, p)[q]} | 1 <= q < |blocks| && q != p ::
      Dispose(blocks, p)[q] == blocks[q]
  {
    var after, free' := Dispose(blocks, p), [p] + free;
    DisposeGet(blocks, p);
    forall i {:trigger Linked(after, free', i)} | 0 <= i < |free'| ensures Linked(after, free', i) {
      if i > 0 {
        assert Linked(blocks, free, i - 1);
      }
    }
    forall i, j {:trigger Differ(free', i, j)} | 0 <= i < j < |free'| ensures Differ(free', i, j) {
      if i > 0 {
        assert Differ(free, i - 1, j - 1);
      }
    }
  }

  /** Last in, first out: a page disposed of and then allocated comes straight back. */
  lemma {:induction false} AllocateAfterDispose(blocks: seq<Block>, free: seq<int>, p: int)
    requires WellFormed(blocks, free) && IsAllocated(blocks, free, p) && p != 1 && |blocks| < MAX_PAGES
    ensures WellFormed(Dispose(blocks, p), [p] + free)
    ensures NewPage(Dispose(blocks, p)) == p
    ensures NextFree(Dispose(blocks, p)[0]) == p && NumPages(Dispose(blocks, p)[0]) == |blocks|
    ensures WellFormed(Allocate(Dispose(blocks, p)), free)
  {
    DisposeExact(blocks, free, p);
    AllocateExact(Dispose(blocks, p), [p] + free);
    assert ([p] + free)[1..] == free;
  }

  lemma {:induction false} WalkRepeats(blocks: seq<Block>, free: seq<int>, p: int, again: seq<int>, i: nat)
    requires 1 <= p < |blocks| && Int32(p) && IsFreeList(blocks, NextFree(blocks[0]), free)
    requires IsFreeList(Dispose(blocks, p), p, again)
    requires i < |free| && p !in free[..i]
    ensures i + 1 < |again| && again[i + 1] == free[i] && Differ(again, 0, i + 1)
  {
    DisposeGet(blocks, p);
    assert Linked(blocks, free, i);
    if i == 0 {
      assert Linked(Dispose(blocks, p), again, 0);
    } else {
      WalkRepeats(blocks, free, p, again, i - 1);
      assert free[i - 1] == free[..i][i - 1];
      assert Linked(blocks, free, i - 1) && Linked(Dispose(blocks, p), again, i);
    }
  }

  lemma {:induction false} FirstOccurrence(list: seq<int>, p: int, k: nat) returns (i: nat)
    requires k < |list| && p in list[k..] && p !in list[..k]
    ensures i < |list| && list[i] == p && p !in list[..i]
    decreases |list| - k
  {
    if list[k] == p {
      i := k;
    } else {
      assert list[k..] == [list[k]] + list[k + 1..] && list[..k + 1] == list[..k] + [list[k]];
      i := FirstOccurrence(list, p, k + 1);
    }
  }

  /** disposePage does not notice that a page is free already: then following the links
      never ends.  So after disposing of p the file has a free list only if p was not free. */
  lemma {:induction false} DisposeTwice(blocks: seq<Block>, free: seq<int>, p: int, again: seq<int>)
    requires WellFormed(blocks, free) && 1 <= p < |blocks| && Int32(p)
    requires IsFreeList(Dispose(blocks, p), NextFree(Dispose(blocks, p)[0]), again)
    ensures p !in free
  {
    if p in free {
      DisposeGet(blocks, p);
      var i := FirstOccurrence(free, p, 0);
      WalkRepeats(blocks, free, p, again, i);
    }
  }

  /** Writing an allocated page keeps the file well formed. */
  lemma {:induction false} WriteKeeps(blocks: seq<Block>, free: seq<int>, p: int, b: Block)
    requires WellFormed(blocks, free) && IsAllocated(blocks, free, p)
    ensures WellFormed(blocks[p := b], free)
  {
    var after := blocks[p := b];
    forall i {:trigger Linked(after, free, i)} | 0 <= i < |free| ensures Linked(after, free, i) {
      assert Linked(blocks, free, i);
    }
  }

  /** The file stays well formed exactly if the page was allocated. */
  lemma {:induction false} DisposedIf(blocks: seq<Block>, free: seq<int>, p: int)
    requires WellFormed(blocks, free) && 1 < p < |blocks| && Int32(p)
    ensures WellFormed(Dispose(blocks, p), [p] + free) <==> IsAllocated(blocks, free, p)
  {
    if p !in free {
      DisposeExact(blocks, free, p);
    } else {
      var i :| 0 <= i < |free| && free[i] == p;
      assert !Differ([p] + free, 0, i + 1);
    }
  }

  class File {
    const addr: int               // the address the hash function sees
    var blocks: seq<Block>        // the Unix file, page by page
    ghost var free: seq<int>      // the free list, head first

    ghost predicate Valid()
      reads this
    {
      WellFormed(blocks, free)
    }

    ghost predicate Has(p: int)
      reads this
    {
      IsAllocated(blocks, free, p)
    }

    /** File::create and open: a file of one header page. */
    constructor (addr: int)
      ensures Valid() && blocks == [blocks[0]] && free == []
    {
      this.addr := addr;
      HeaderGet(ZeroBlock, -1, -1, 1);
      blocks := [Header(ZeroBlock, -1, -1, 1)];
      free := [];
    }

    method IntRead(pageNo: int) returns (status: Status, b: Block)
      requires 0 <= pageNo
      ensures if pageNo < |blocks| then status == OK && b == blocks[pageNo] else status == UNIXERR
    {
      if pageNo < |blocks| {
        return OK, blocks[pageNo];
      }
      return UNIXERR, ZeroBlock;
    }

    method IntWrite(pageNo: int, b: Block)
      requires 0 <= pageNo <= |blocks|
      modifies this`blocks
      ensures blocks == if pageNo < |old(blocks)| then old(blocks)[pageNo := b] else old(blocks) + [b]
    {
      blocks := if pageNo < |blocks| then blocks[pageNo := b] else blocks + [b];
    }

    method AllocatePage() returns (pageNo: int)
      requires Valid() && |blocks| < MAX_PAGES
      modifies this
      ensures Valid()
      ensures NextFree(old(blocks)[0]) == -1 || 0 <= NextFree(old(blocks)[0]) < |old(blocks)|
      ensures blocks == Allocate(old(blocks)) && pageNo == NewPage(old(blocks)) && free == Rest(old(free))
    {
      AllocateExact(blocks, free);
      ExtendedGet(blocks[0], |blocks|);
      SetIntGet(blocks[0], 8, |blocks| + 1, 4);
      var _, header := IntRead(0);
      if NextFree(header) != -1 {
        pageNo := NextFree(header);
        var _, firstFree := IntRead(pageNo);
        header := SetInt(header, 0, NextFree(firstFree));
      } else {
        pageNo := NumPages(header);
        IntWrite(pageNo, ZeroBlock);
        header := SetInt(header, 8, NumPages(header) + 1);
        if FirstPage(header) == -1 {
          header := SetInt(header, 4, pageNo);
        }
      }
      IntWrite(0, header);
      free := Rest(free);
    }

    /** Valid afterwards exactly when the page was not free already. */
    method DisposePage(pageNo: int) returns (status: Status)
      requires Valid() && |blocks| <= MAX_PAGES
      modifies this
      ensures if pageNo <= 1 || pageNo >= |old(blocks)|
        then status == BADPAGENO && blocks == old(blocks) && free == old(free)
        else status == OK && blocks == Dispose(old(blocks), pageNo) && free == [pageNo] + old(free)
      ensures Valid() <==> status == BADPAGENO || old(Has(pageNo))
    {
      if pageNo < 1 {
        return BADPAGENO;
      }
      var _, header := IntRead(0);
      if FirstPage(header) == pageNo || pageNo >= NumPages(header) {
        return BADPAGENO;
      }
      DisposedIf(blocks, free, pageNo);
      var away := SetInt(ZeroBlock, 0, NextFree(header));
      header := SetInt(header, 0, pageNo);
      IntWrite(pageNo, away);
      IntWrite(0, header);
      free := [pageNo] + free;
      return OK;
    }

    method ReadPage(pageNo: int) returns (status: Status, b: Block)
      ensures if pageNo < 1 then status == BADPAGENO
        else if pageNo >= |blocks| then status == UNIXERR
        else status == OK && b == blocks[pageNo]
    {
      if pageNo < 1 {
        return BADPAGENO, ZeroBlock;
      }
      status, b := IntRead(pageNo);
    }

    method WritePage(pageNo: int, b: Block) returns (status: Status)
      requires pageNo <= |blocks|
      modifies this`blocks
      ensures if pageNo < 1 then status == BADPAGENO && blocks == old(blocks)
        else status == OK
             && blocks == if pageNo < |old(blocks)| then old(blocks)[pageNo := b] else old(blocks) + [b]
    {
      if pageNo < 1 {
        return BADPAGENO;
      }
      IntWrite(pageNo, b);
      return OK;
    }
  }
}
