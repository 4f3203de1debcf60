/**
  The chained hash table of the buffer pool (bufHash.C): buckets linked through `next`,
  relinked in place.  Its meaning is the map `entries` from pages to frames.
 */
module BufferHash {
  import opened Bytes
  import opened Errors
  import opened Files

  datatype PageId = PageId(file: File, pageNo: int)

  /** The remainder of C++, which takes the sign of the dividend. */
  function Rem(a: int, b: int): int
    requires b > 0
  {
    if a >= 0 then a % b else -((-a) % b)
  }

  /** hash() of a page in a table of n buckets: the sum wraps at 32 bits and may be negative. */
  function Hash(id: PageId, n: int): int
    requires n > 0
  {
    Rem(Rem(Wrap32(Wrap32(id.file.addr) + id.pageNo), n) + n, n)
  }

  lemma {:induction false} HashInRange(id: PageId, n: int)
    requires n > 0
    ensures 0 <= Hash(id, n) < n
  {
    var r := Rem(Wrap32(Wrap32(id.file.addr) + id.pageNo), n);
    assert -n < r < n;
  }

  class HashBucket {
    const id: PageId
    const frameNo: int
    var next: HashBucket?

    constructor (id: PageId, frameNo: int, next: HashBucket?)
      ensures this.id == id && this.frameNo == frameNo && this.next == next
    {
      this.id, this.frameNo, this.next := id, frameNo, next;
    }
  }

  /** Element j of a chain, or null beyond its end. */
  ghost function NodeAt(c: seq<HashBucket>, j: nat): HashBucket? {
    if j < |c| then c[j] else null
  }

  ghost predicate Finds(c: seq<HashBucket>, id: PageId) {
    exists j :: 0 <= j < |c| && c[j].id == id
  }

  predicate Unlike(c: seq<HashBucket>, i: nat, j: nat)
    requires i < |c| && j < |c|
  {
    c[i].id != c[j].id
  }

  /** No two buckets of a chain hold the same page. */
  ghost predicate Keyed(c: seq<HashBucket>) {
    forall i, j {:trigger Unlike(c, i, j)} | 0 <= i < j < |c| :: Unlike(c, i, j)
  }

  lemma {:induction false} KeyedPush(n: HashBucket, c: seq<HashBucket>)
    requires Keyed(c) && !Finds(c, n.id)
    ensures Keyed([n] + c)
    ensures forall id :: Finds([n] + c, id) <==> id == n.id || Finds(c, id)
  {
    var d := [n] + c;
    forall i, j {:trigger Unlike(d, i, j)} | 0 <= i < j < |d| ensures Unlike(d, i, j) {
      if i > 0 {
        assert Unlike(c, i - 1, j - 1);
      }
    }
    forall id ensures Finds(d, id) <==> id == n.id || Finds(c, id) {
      assert d[0] == n;
      if Finds(c, id) {
        var j :| 0 <= j < |c| && c[j].id == id;
        assert d[j + 1].id == id;
      }
    }
  }

  ghost function Without(c: seq<HashBucket>, j: nat): seq<HashBucket>
    requires j < |c|
  {
    c[..j] + c[j + 1..]
  }

  lemma {:induction false} WithoutAt(c: seq<HashBucket>, j: nat, k: nat)
    requires j < |c| && k < |c| - 1
    ensures |Without(c, j)| == |c| - 1
    ensures Without(c, j)[k] == c[if k < j then k else k + 1]
    ensures NodeAt(Without(c, j), k + 1) == NodeAt(c, if k + 1 < j then k + 1 else k + 2)
  {}

  lemma {:induction false} WithoutHead(c: seq<HashBucket>, j: nat)
    requires j < |c|
    ensures |Without(c, j)| == |c| - 1 && NodeAt(Without(c, j), 0) == NodeAt(c, if j == 0 then 1 else 0)
  {}

  lemma {:induction false} KeyedRemove(c: seq<HashBucket>, j: nat)
    requires Keyed(c) && j < |c|
    ensures Keyed(Without(c, j))
    ensures forall id :: Finds(Without(c, j), id) <==> id != c[j].id && Finds(c, id)
  {
    var d := Without(c, j);
    forall a, b {:trigger Unlike(d, a, b)} | 0 <= a < b < |d| ensures Unlike(d, a, b) {
      WithoutAt(c, j, a);
      WithoutAt(c, j, b);
      assert Unlike(c, if a < j then a else a + 1, if b < j then b else b + 1);
    }
    forall id ensures Finds(d, id) <==> id != c[j].id && Finds(c, id) {
      if Finds(d, id) {
        var k :| 0 <= k < |d| && d[k].id == id;
        if k < j {
          assert Unlike(c, k, j);
        } else {
          assert Unlike(c, j, k + 1);
        }
      }
      if id != c[j].id && Finds(c, id) {
        var k :| 0 <= k < |c| && c[k].id == id;
        assert d[if k < j then k else k - 1].id == id;
      }
    }
  }

  /** A snapshot of the table: the heads, every bucket's link, and what they are meant to hold. */
  datatype Shape = Shape(
    heads: seq<HashBucket?>, links: map<HashBucket, HashBucket?>,
    chains: seq<seq<HashBucket>>, home: map<PageId, int>, entries: map<PageId, int>)
  {
    /** Bucket j of chain i belongs there and leads to the next one. */
    ghost predicate NodeOk(i: int, j: int)
      requires 0 <= i < |chains| && 0 <= j < |chains[i]|
    {
      var n := chains[i][j];
      && n in links && links[n] == NodeAt(chains[i], j + 1)
      && n.id in home && home[n.id] == i
      && n.id in entries && entries[n.id] == n.frameNo
    }

    ghost predicate ChainOk(i: int)
      requires 0 <= i < |chains| == |heads|
    {
      && heads[i] == NodeAt(chains[i], 0)
      && Keyed(chains[i])
      && forall j {:trigger NodeOk(i, j)} | 0 <= j < |chains[i]| :: NodeOk(i, j)
    }

    /** An entry is found on the chain its hash value selects. */
    ghost predicate HomeOk(id: PageId)
      requires id in home && |chains| > 0
    {
      0 <= home[id] < |chains| && home[id] == Hash(id, |chains|) && Finds(chains[home[id]], id)
    }

    ghost predicate Ok() {
      && 0 < |chains| == |heads|
      && (forall i {:trigger ChainOk(i)} | 0 <= i < |chains| :: ChainOk(i))
      && entries.Keys == home.Keys
      && forall id {:trigger HomeOk(id)} | id in home :: HomeOk(id)
    }

    /** With a bucket n for id put at the head of chain index. */
    ghost function Link(index: int, n: HashBucket): Shape
      requires 0 <= index < |chains| == |heads|
    {
      Shape(heads[index := n], links[n := heads[index]], chains[index := [n] + chains[index]],
            home[n.id := index], entries[n.id := n.frameNo])
    }

    /** With bucket j of chain index taken out: its predecessor, or the head, skips it. */
    ghost function Unlink(index: int, j: nat): Shape
      requires 0 <= index < |chains| == |heads| && j < |chains[index]| && chains[index][j] in links
    {
      var n := chains[index][j];
      Shape(if j == 0 then heads[index := links[n]] else heads,
            if j == 0 then links else links[chains[index][j - 1] := links[n]],
            chains[index := Without(chains[index], j)], home - {n.id}, entries - {n.id})
    }
  }

  lemma {:induction false} LinkChain(s: Shape, index: int, n: HashBucket, i: int)
    requires s.Ok() && 0 <= index < |s.chains| && n !in s.links && n.id !in s.entries
    requires !Finds(s.chains[index], n.id) && 0 <= i < |s.chains|
    ensures s.Link(index, n).ChainOk(i)
  {
    var t, c := s.Link(index, n), s.chains[i];
    assert s.ChainOk(i) && s.ChainOk(index);
    KeyedPush(n, s.chains[index]);
    forall j {:trigger t.NodeOk(i, j)} | 0 <= j < |t.chains[i]| ensures t.NodeOk(i, j) {
      if i != index {
        assert s.NodeOk(i, j);
      } else if j > 0 {
        assert s.NodeOk(i, j - 1);
      } else if c != [] {
        assert s.NodeOk(i, 0);
      }
    }
  }

  lemma {:induction false} LinkOk(s: Shape, index: int, n: HashBucket)
    requires s.Ok() && 0 <= index < |s.chains| && n !in s.links && n.id !in s.entries
    requires !Finds(s.chains[index], n.id) && index == Hash(n.id, |s.chains|)
    ensures s.Link(index, n).Ok()
  {
    var t := s.Link(index, n);
    assert s.ChainOk(index);
    KeyedPush(n, s.chains[index]);
    forall i {:trigger t.ChainOk(i)} | 0 <= i < |t.chains| ensures t.ChainOk(i) {
      LinkChain(s, index, n, i);
    }
    forall d {:trigger t.HomeOk(d)} | d in t.home ensures t.HomeOk(d) {
      assert d in s.home ==> s.HomeOk(d);
    }
  }

  lemma {:induction false} UnlinkNode(s: Shape, index: int, j: nat, k: nat)
    requires s.Ok() && 0 <= index < |s.chains| && j < |s.chains[index]| && s.chains[index][j] in s.links
    requires k < |s.chains[index]| - 1
    ensures s.Unlink(index, j).NodeOk(index, k)
  {
    var c, k0 := s.chains[index], if k < j then k else k + 1;
    WithoutAt(c, j, k);
    assert s.ChainOk(index) && s.NodeOk(index, k0) && s.NodeOk(index, j);
    assert if k < j then Unlike(c, k, j) else Unlike(c, j, k + 1);
    if j > 0 {
      assert if k0 < j - 1 then Unlike(c, k0, j - 1) else k0 == j - 1 || Unlike(c, j - 1, k0);
    }
  }

  lemma {:induction false} UnlinkChain(s: Shape, index: int, j: nat, i: int)
    requires s.Ok() && 0 <= index < |s.chains| && j < |s.chains[index]| && s.chains[index][j] in s.links
    requires 0 <= i < |s.chains|
    ensures s.Unlink(index, j).ChainOk(i)
  {
    var t := s.Unlink(index, j);
    assert s.ChainOk(i) && s.ChainOk(index) && s.NodeOk(index, j);
    if i == index {
      KeyedRemove(s.chains[index], j);
      WithoutHead(s.chains[index], j);
      forall k {:trigger t.NodeOk(i, k)} | 0 <= k < |t.chains[i]| ensures t.NodeOk(i, k) {
        UnlinkNode(s, index, j, k);
      }
    } else {
      assert j > 0 ==> s.NodeOk(index, j - 1);
      forall k {:trigger t.NodeOk(i, k)} | 0 <= k < |t.chains[i]| ensures t.NodeOk(i, k) {
        assert s.NodeOk(i, k);
      }
    }
  }

  lemma {:induction false} UnlinkOk(s: Shape, index: int, j: nat)
    requires s.Ok() && 0 <= index < |s.chains| && j < |s.chains[index]| && s.chains[index][j] in s.links
    ensures s.Unlink(index, j).Ok()
  {
    var t := s.Unlink(index, j);
    assert s.ChainOk(index) && s.NodeOk(index, j);
    KeyedRemove(s.chains[index], j);
    forall i {:trigger t.ChainOk(i)} | 0 <= i < |t.chains| ensures t.ChainOk(i) {
      UnlinkChain(s, index, j, i);
    }
    forall d {:trigger t.HomeOk(d)} | d in t.home ensures t.HomeOk(d) {
      assert s.HomeOk(d);
    }
  }

  class BufHashTbl {
    const HTSIZE: int
    const ht: array<HashBucket?>
    ghost var entries: map<PageId, int>
    ghost var nodes: set<HashBucket>
    ghost var shape: Shape

    ghost predicate Has(s: Shape)
      reads this, ht, nodes
    {
      && s.Ok() && s.heads == ht[..] && ht.Length == HTSIZE
      && s.entries == entries && s.links.Keys == nodes
      && forall n {:trigger n.next} | n in nodes :: n.next == s.links[n]
    }

    ghost predicate Valid()
      reads this, ht, nodes
    {
      forall s {:trigger Has(s)} | s == shape :: Has(s)
    }

    constructor (htSize: int)
      requires htSize > 0
      ensures Valid() && entries == map[] && fresh(ht) && nodes == {}
    {
      HTSIZE := htSize;
      ht := new HashBucket?[htSize](_ => null);
      entries, nodes := map[], {};
      new;
      shape := Shape(ht[..], map[], seq(htSize, _ => []), map[], map[]);
    }

    /** The buckets it did not have before are new objects. */
    twostate predicate Grown()
      reads `nodes
    {
      forall n {:trigger n in nodes} | n in nodes && n !in old(nodes) :: fresh(n)
    }

    /** Walks the chain of id to the bucket holding it; prev is the bucket before it. */
    method Find(id: PageId) returns (index: int, prev: HashBucket?, buc: HashBucket?, ghost j: nat)
      requires Valid()
      ensures Has(shape) && index == Hash(id, HTSIZE) && 0 <= index < HTSIZE && j <= |shape.chains[index]|
      ensures buc == NodeAt(shape.chains[index], j) && (buc != null <==> id in entries)
      ensures buc != null ==> buc.id == id && entries[id] == buc.frameNo && (buc == ht[index] <==> j == 0)
      ensures buc != null ==> buc in nodes && (j > 0 ==> prev == shape.chains[index][j - 1] && prev in nodes)
      ensures buc == null ==> !Finds(shape.chains[index], id)
    {
      assert Has(shape);
      HashInRange(id, HTSIZE);
      index := Hash(id, HTSIZE);
      buc, prev, j := ht[index], ht[index], 0;
      assert shape.ChainOk(index) && (id in shape.home ==> shape.HomeOk(id));
      ghost var c := shape.chains[index];
      while buc != null && buc.id != id
        invariant j <= |c| && buc == NodeAt(c, j)
        invariant forall k | 0 <= k < j :: c[k].id != id
        invariant j > 0 ==> prev == c[j - 1] && prev in nodes
        decreases |c| - j
      {
        assert shape.NodeOk(index, j);
        prev := buc;
        buc := buc.next;
        j := j + 1;
      }
      if buc != null {
        assert shape.NodeOk(index, j);
        assert c[0].id == ht[index].id;
      }
    }

    method Lookup(id: PageId) returns (status: Status, frameNo: int)
      requires Valid()
      ensures status == (if id in entries then OK else HASHNOTFOUND)
      ensures status == OK ==> frameNo == entries[id]
    {
      var index, prev, buc, j := Find(id);
      if buc != null {
        return OK, buc.frameNo;
      }
      return HASHNOTFOUND, 0;
    }

    method Insert(id: PageId, frameNo: int) returns (status: Status)
      requires Valid()
      modifies this, ht, nodes
      ensures Valid() && Grown()
      ensures status == (if id in old(entries) then HASHTBLERROR else OK)
      ensures entries == if id in old(entries) then old(entries) else old(entries)[id := frameNo]
    {
      var index, prev, buc, j := Find(id);
      if buc != null {
        return HASHTBLERROR;
      }
      var n := new HashBucket(id, frameNo, ht[index]);
      LinkOk(shape, index, n);
      ht[index] := n;
      nodes := nodes + {n};
      shape := shape.Link(index, n);
      entries := entries[id := frameNo];
      return OK;
    }

    method Remove(id: PageId) returns (status: Status)
      requires Valid()
      modifies this, ht, nodes
      ensures Valid() && nodes == old(nodes)
      ensures status == (if id in old(entries) then OK else HASHTBLERROR)
      ensures entries == old(entries) - {id}
    {
      var index, prev, buc, j := Find(id);
      if buc == null {
        return HASHTBLERROR;
      }
      UnlinkOk(shape, index, j);
      if buc == ht[index] {
        ht[index] := buc.next;
      } else {
        prev.next := buc.next;
      }
      shape := shape.Unlink(index, j);
      entries := entries - {id};
      return OK;
    }
  }
}
