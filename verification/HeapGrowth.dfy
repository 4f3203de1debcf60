/**
  How inserting changes a heap file as a value.
 */
module HeapGrowth {
  import opened Bytes
  import opened Sequences
  import opened SlottedPage
  import opened HeapSpec

  // ---- Inserting a record ----

  function Last(ps: seq<PageState>): PageState
    requires ps != []
  {
    ps[|ps| - 1]
  }

  function AddTo(p: PageState, rec: seq<byte>): PageState {
    p.(area := Add(p.area, rec))
  }

  /** The record goes on the last page. */
  function AddLast(ps: seq<PageState>, rec: seq<byte>): seq<PageState>
    requires ps != []
  {
    ps[|ps| - 1 := AddTo(Last(ps), rec)]
  }

  /** A fresh page n is linked behind the last one. */
  function AddPage(ps: seq<PageState>, n: int): seq<PageState>
    requires ps != []
  {
    ps[|ps| - 1 := Last(ps).(nextPage := n)] + [InitPage(n)]
  }

  predicate FitsLast(ps: seq<PageState>, rec: seq<byte>)
    requires ps != []
  {
    Fits(Last(ps).area, rec)
  }

  /** The largest record a page can take: its slot is charged too. */
  const MAX_RECORD := DATA_SIZE - SLOT_SIZE

  /** The chain after insertRecord, n being the page allocated if the last one is full. */
  function InsertInto(ps: seq<PageState>, rec: seq<byte>, n: int): seq<PageState>
    requires ps != []
  {
    if FitsLast(ps, rec) then AddLast(ps, rec)
    else if |rec| <= MAX_RECORD then AddLast(AddPage(ps, n), rec)
    else AddPage(ps, n)
  }

  /** Where the record goes. */
  function NewEntry(ps: seq<PageState>, rec: seq<byte>, n: int): Entry
    requires ps != []
  {
    Entry(if FitsLast(ps, rec) then RID(Last(ps).pageNo, FreeSlot(Last(ps).area.slots)) else RID(n, 0), rec)
  }

  lemma {:induction false} AddLastChain(ps: seq<PageState>, rec: seq<byte>)
    requires IsChain(ps) && FitsLast(ps, rec)
    ensures IsChain(AddLast(ps, rec))
  {
    var qs := AddLast(ps, rec);
    assert ChainAt(ps, |ps| - 1);
    AddValid(Last(ps).area, rec);
    forall m {:trigger ChainAt(qs, m)} | 0 <= m < |qs| ensures ChainAt(qs, m) {
      assert ChainAt(ps, m);
    }
    forall m, j {:trigger OtherPage(qs, m, j)} | 0 <= m < j < |qs| ensures OtherPage(qs, m, j) {
      assert OtherPage(ps, m, j);
    }
  }

  /** Page numbers from n on are not in use. */
  predicate NewTo(ps: seq<PageState>, n: int) {
    n >= 1 && forall i | 0 <= i < |ps| :: ps[i].pageNo < n
  }

  lemma {:induction false} AddPageChain(ps: seq<PageState>, n: int)
    requires IsChain(ps) && NewTo(ps, n)
    ensures IsChain(AddPage(ps, n))
  {
    var qs := AddPage(ps, n);
    EmptyAreaValid();
    forall m {:trigger ChainAt(qs, m)} | 0 <= m < |qs| ensures ChainAt(qs, m) {
      assert m < |ps| ==> ChainAt(ps, m);
    }
    forall m, j {:trigger OtherPage(qs, m, j)} | 0 <= m < j < |qs| ensures OtherPage(qs, m, j) {
      assert j < |ps| ==> OtherPage(ps, m, j);
    }
  }

  lemma {:induction false} AddPageEntries(p: PageState, rec: seq<byte>, lo: int, hi: int)
    requires p.Valid() && Fits(p.area, rec) && AddTo(p, rec).Valid()
    requires FreeSlot(p.area.slots) < lo || hi <= FreeSlot(p.area.slots)
    ensures PageEntries(AddTo(p, rec), lo, hi) == PageEntries(p, lo, hi)
  {
    var q := AddTo(p, rec);
    forall k | lo <= k < hi
      ensures q.area.Live(k) == p.area.Live(k) && (p.area.Live(k) ==> EntryAt(q, k) == EntryAt(p, k))
    {
      AddSlot(p.area, rec, k);
      if p.area.Live(k) {
        AddExtent(p.area, rec, k);
      }
    }
    PageSame(q, p, lo, hi);
  }

  lemma {:induction false} AddLastFrom(ps: seq<PageState>, rec: seq<byte>)
    requires IsChain(ps) && FitsLast(ps, rec) && AllValid(ps) && AllValid(AddLast(ps, rec))
    ensures var i, s := |ps| - 1, FreeSlot(Last(ps).area.slots);
      From(AddLast(ps, rec), i, s + 1) == From(ps, i, s)
  {
    var i, p := |ps| - 1, Last(ps);
    var q, s := AddLast(ps, rec)[i], FreeSlot(p.area.slots);
    assert p.Valid() && q.Valid();
    var n, m := SlotCount(p), SlotCount(q);
    AddPageEntries(p, rec, s + 1, m);
    PageSplit(p, s, s + 1, if s < n then n else s + 1);
    PageBeyond(p, s, s + 1);
  }

  lemma {:induction false} AddLastBefore(ps: seq<PageState>, rec: seq<byte>)
    requires IsChain(ps) && FitsLast(ps, rec) && AllValid(ps) && AllValid(AddLast(ps, rec))
    ensures var i, s := |ps| - 1, FreeSlot(Last(ps).area.slots);
      Before(AddLast(ps, rec), i, s) == Before(ps, i, s)
  {
    var i, s := |ps| - 1, FreeSlot(Last(ps).area.slots);
    assert ps[i].Valid() && AddLast(ps, rec)[i].Valid();
    FileSame(AddLast(ps, rec), ps, 0, i);
    AddPageEntries(Last(ps), rec, 0, s);
  }

  /** The new record takes the lowest free slot of the last page; the others are listed as before around it. */
  lemma {:induction false} AddLastListing(ps: seq<PageState>, rec: seq<byte>)
    requires IsChain(ps) && FitsLast(ps, rec)
    ensures AllValid(ps) && AllValid(AddLast(ps, rec))
    ensures var qs, i, s := AddLast(ps, rec), |ps| - 1, FreeSlot(Last(ps).area.slots);
      && Listing(ps) == Before(ps, i, s) + From(ps, i, s)
      && Listing(qs) == Before(ps, i, s) + [Entry(RID(Last(ps).pageNo, s), rec)] + From(ps, i, s)
      && From(qs, i, s + 1) == From(ps, i, s)
  {
    ChainValid(ps);
    AddLastChain(ps, rec);
    var i, s := |ps| - 1, FreeSlot(Last(ps).area.slots);
    ChainValid(AddLast(ps, rec));
    ListingSplit(ps, i, s);
    AddLastBefore(ps, rec);
    AddLastFrom(ps, rec);
    assert ps[i].Valid() && AddLast(ps, rec)[i].Valid();
    AddExtent(Last(ps).area, rec, s);
    ListingAt(AddLast(ps, rec), i, s);
  }

  lemma {:induction false} AddPageListing(ps: seq<PageState>, n: int)
    requires IsChain(ps) && NewTo(ps, n)
    ensures AllValid(ps) && AllValid(AddPage(ps, n)) && Listing(AddPage(ps, n)) == Listing(ps)
  {
    ChainValid(ps);
    AddPageChain(ps, n);
    var qs := AddPage(ps, n);
    ChainValid(qs);
    FileSame(qs, ps, 0, |ps|);
    FileSplit(qs, 0, |ps|, |qs|);
  }

  // ---- Inserting as the listing sees it ----

  /** What will be listed behind the next record inserted: older records in higher slots of the last page. */
  ghost function Behind(ps: seq<PageState>): seq<Entry>
    requires AllValid(ps) && ps != []
  {
    From(ps, |ps| - 1, FreeSlot(Last(ps).area.slots))
  }

  function Front(a: seq<Entry>, b: seq<Entry>): seq<Entry>
    requires |b| <= |a|
  {
    a[..|a| - |b|]
  }

  predicate EndsWith(a: seq<Entry>, b: seq<Entry>) {
    |b| <= |a| && a == Front(a, b) + b
  }

  lemma {:induction false} BehindListing(ps: seq<PageState>)
    requires AllValid(ps) && ps != []
    ensures EndsWith(Listing(ps), Behind(ps))
  {
    ListingSplit(ps, |ps| - 1, FreeSlot(Last(ps).area.slots));
  }

  lemma {:induction false} AddLastBehind(ps: seq<PageState>, rec: seq<byte>)
    requires IsChain(ps) && FitsLast(ps, rec)
    ensures AllValid(ps) && AllValid(AddLast(ps, rec)) && EndsWith(Behind(ps), Behind(AddLast(ps, rec)))
  {
    AddLastListing(ps, rec);
    var qs, i, s := AddLast(ps, rec), |ps| - 1, FreeSlot(Last(ps).area.slots);
    assert qs[i].Valid() && !qs[i].area.slots[s].Free();
    assert s < FreeSlot(qs[i].area.slots);
    FromEnds(qs, i, s + 1, FreeSlot(qs[i].area.slots));
  }

  lemma {:induction false} FromEnds(ps: seq<PageState>, i: nat, k: int, t: int)
    requires AllValid(ps) && i < |ps| && k <= t
    ensures EndsWith(From(ps, i, k), From(ps, i, t))
  {
    var p, n := ps[i], SlotCount(ps[i]);
    var ahead := FileEntries(ps, i + 1, |ps|);
    if t <= n {
      PageSplit(p, k, t, n);
      assert From(ps, i, k) == PageEntries(p, k, t) + From(ps, i, t);
    } else {
      assert From(ps, i, t) == ahead && From(ps, i, k) == PageEntries(p, k, n) + ahead;
    }
  }

  /** insertRecord adds its record and nothing else: every other record keeps its RID, its
      bytes and its place among the others. */
  lemma {:induction false} InsertExact(ps: seq<PageState>, rec: seq<byte>, n: int) returns (b: seq<Entry>)
    requires IsChain(ps) && NewTo(ps, n) && (FitsLast(ps, rec) || |rec| <= MAX_RECORD)
    ensures var qs := InsertInto(ps, rec, n);
      && IsChain(qs) && AllValid(ps) && AllValid(qs) && EndsWith(Listing(ps), b)
      && Listing(qs) == Front(Listing(ps), b) + [NewEntry(ps, rec, n)] + b
      && EndsWith(Behind(ps), b) && EndsWith(b, Behind(qs))
  {
    ChainValid(ps);
    if FitsLast(ps, rec) {
      AddLastChain(ps, rec);
      AddLastListing(ps, rec);
      AddLastBehind(ps, rec);
      return Behind(ps);
    }
    var fresh' := AddPage(ps, n);
    AddPageChain(ps, n);
    AddPageListing(ps, n);
    AddLastChain(fresh', rec);
    AddLastListing(fresh', rec);
    AddLastBehind(fresh', rec);
    EmptyBehind(fresh');
    return [];
  }

  lemma {:induction false} EmptyBehind(ps: seq<PageState>)
    requires AllValid(ps) && ps != [] && Last(ps).area == EmptyArea
    ensures Behind(ps) == [] && FreeSlot(Last(ps).area.slots) == 0
    ensures Before(ps, |ps| - 1, 0) == Listing(ps)
  {
    ListingSplit(ps, |ps| - 1, 0);
  }

  /** A record of 1001 to 1004 bytes passes the length check, does not fit an empty page either,
      and leaves the file with an empty page more. */
  lemma {:induction false} InsertTooLong(ps: seq<PageState>, rec: seq<byte>, n: int)
    requires IsChain(ps) && NewTo(ps, n) && !FitsLast(ps, rec) && |rec| > MAX_RECORD
    ensures var qs := InsertInto(ps, rec, n);
      && IsChain(qs) && AllValid(ps) && AllValid(qs) && Listing(qs) == Listing(ps) && !FitsLast(qs, rec)
  {
    AddPageChain(ps, n);
    AddPageListing(ps, n);
  }

  // ---- The order of insertion ----

  /** The records of a kind P. */
  function Select(P: seq<byte> -> bool, es: seq<Entry>): seq<Entry> {
    Pick(OfKind(P), es)
  }

  function OfKind(P: seq<byte> -> bool): Entry -> bool {
    (e: Entry) => P(e.bytes)
  }

  lemma {:induction false} SelectInsert(P: seq<byte> -> bool, a: seq<Entry>, b: seq<Entry>, c: seq<Entry>,
      d: seq<Entry>, behind: seq<Entry>, e: Entry)
    requires Select(P, c + b) == [] && b == d + behind
    ensures Select(P, behind) == []
    ensures Select(P, a + [e] + b) == Select(P, a + b) + if P(e.bytes) then [e] else []
  {
    PickPlus(OfKind(P), c, b);
    PickPlus(OfKind(P), d, behind);
    PickPlus(OfKind(P), a + [e], b);
    PickPlus(OfKind(P), a, [e]);
    PickPlus(OfKind(P), a, b);
  }

  /** As long as none of the records of a kind lies behind the insertion point, whatever holes
      there are, a new one is listed after all others of its kind, and that stays so. */
  lemma {:induction false} InsertSelected(P: seq<byte> -> bool, ps: seq<PageState>, rec: seq<byte>, n: int)
    requires IsChain(ps) && NewTo(ps, n) && |rec| <= MAX_RECORD
    requires AllValid(ps) && Select(P, Behind(ps)) == []
    ensures var qs := InsertInto(ps, rec, n);
      && IsChain(qs) && AllValid(qs) && Select(P, Behind(qs)) == []
      && Select(P, Listing(qs)) == Select(P, Listing(ps)) + if P(rec) then [NewEntry(ps, rec, n)] else []
  {
    var b := InsertExact(ps, rec, n);
    var qs := InsertInto(ps, rec, n);
    SelectInsert(P, Front(Listing(ps), b), b, Front(Behind(ps), b), Front(b, Behind(qs)), Behind(qs),
                 NewEntry(ps, rec, n));
  }

  // ---- Inserting a list of records ----

  /** The number the next page of the file will have, after a record was inserted. */
  function NextNumber(ps: seq<PageState>, rec: seq<byte>, n: int): int
    requires ps != []
  {
    if |rec| > DATA_SIZE || FitsLast(ps, rec) then n else n + 1
  }

  /** The chain after inserting some records, and the number of the next page. */
  function InsertAll(ps: seq<PageState>, n: int, recs: seq<seq<byte>>): (r: (seq<PageState>, int))
    requires ps != []
    ensures r.0 != []
  {
    if recs == [] then (ps, n)
    else
      var before, rec := InsertAll(ps, n, recs[..|recs| - 1]), recs[|recs| - 1];
      (InsertInto(before.0, rec, before.1), NextNumber(before.0, rec, before.1))
  }

  lemma {:induction false} InsertAllOne(ps: seq<PageState>, n: int, recs: seq<seq<byte>>, rec: seq<byte>)
    requires ps != []
    ensures var before := InsertAll(ps, n, recs);
      InsertAll(ps, n, recs + [rec]) == (InsertInto(before.0, rec, before.1), NextNumber(before.0, rec, before.1))
  {
    assert (recs + [rec])[..|recs|] == recs;
  }

  predicate Short(recs: seq<seq<byte>>) {
    forall r | r in recs :: |r| <= MAX_RECORD
  }

  function BytesOf(e: Entry): seq<byte> { e.bytes }

  lemma {:induction false} InsertIntoChain(ps: seq<PageState>, n: int, rec: seq<byte>)
    requires IsChain(ps) && NewTo(ps, n) && |rec| <= MAX_RECORD
    ensures IsChain(InsertInto(ps, rec, n)) && NewTo(InsertInto(ps, rec, n), NextNumber(ps, rec, n))
  {
    if FitsLast(ps, rec) {
      AddLastChain(ps, rec);
    } else {
      AddPageChain(ps, n);
      AddLastChain(AddPage(ps, n), rec);
      NewToNext(ps, n, rec);
    }
  }

  lemma {:induction false} NewToNext(ps: seq<PageState>, n: int, rec: seq<byte>)
    requires ps != [] && NewTo(ps, n)
    ensures NewTo(AddLast(AddPage(ps, n), rec), n + 1)
  {}

  lemma {:induction false} InsertAllChain(ps: seq<PageState>, n: int, recs: seq<seq<byte>>)
    requires IsChain(ps) && NewTo(ps, n) && Short(recs)
    ensures var r := InsertAll(ps, n, recs); IsChain(r.0) && NewTo(r.0, r.1) && AllValid(ps) && AllValid(r.0)
  {
    ChainValid(ps);
    if recs != [] {
      var front, rec := recs[..|recs| - 1], recs[|recs| - 1];
      InsertAllChain(ps, n, front);
      InsertIntoChain(InsertAll(ps, n, front).0, InsertAll(ps, n, front).1, rec);
      ChainValid(InsertAll(ps, n, recs).0);
    }
  }

  /** `recs` were inserted into ps, which made it qs: of a kind P, they are listed after all others, in
      that order, and nothing of that kind lies behind the insertion point. */
  ghost predicate InOrder(P: seq<byte> -> bool, ps: seq<PageState>, recs: seq<seq<byte>>, qs: seq<PageState>) {
    && AllValid(ps) && AllValid(qs) && qs != [] && Select(P, Behind(qs)) == []
    && Map(BytesOf, Select(P, Listing(qs))) == Map(BytesOf, Select(P, Listing(ps))) + Pick(P, recs)
  }

  lemma {:induction false} InOrderStart(P: seq<byte> -> bool, ps: seq<PageState>)
    requires AllValid(ps) && ps != [] && Select(P, Behind(ps)) == []
    ensures InOrder(P, ps, [], ps)
  {}

  lemma {:induction false} InOrderOne(
      P: seq<byte> -> bool, ps: seq<PageState>, recs: seq<seq<byte>>, qs: seq<PageState>, n: int, rec: seq<byte>)
    requires InOrder(P, ps, recs, qs) && IsChain(qs) && NewTo(qs, n) && |rec| <= MAX_RECORD
    ensures InOrder(P, ps, recs + [rec], InsertInto(qs, rec, n))
  {
    InsertSelected(P, qs, rec, n);
    var one := if P(rec) then [NewEntry(qs, rec, n)] else [];
    MapPlus(BytesOf, Select(P, Listing(qs)), one);
    PickPlus(P, recs, [rec]);
    Regroup(Map(BytesOf, Select(P, Listing(ps))), Pick(P, recs), Map(BytesOf, one));
  }

  lemma {:induction false} InOrderNext(P: seq<byte> -> bool, ps: seq<PageState>, n: int, recs: seq<seq<byte>>,
      rec: seq<byte>)
    requires IsChain(ps) && NewTo(ps, n) && Short(recs) && |rec| <= MAX_RECORD
    requires InOrder(P, ps, recs, InsertAll(ps, n, recs).0)
    ensures InOrder(P, ps, recs + [rec], InsertAll(ps, n, recs + [rec]).0)
  {
    InsertAllChain(ps, n, recs);
    InsertAllOne(ps, n, recs, rec);
    InOrderOne(P, ps, recs, InsertAll(ps, n, recs).0, InsertAll(ps, n, recs).1, rec);
  }

  /** Whatever holes the file has: the records of a kind come out in the order in which they were
      inserted, after those there were, if none of these lay behind the insertion point. */
  lemma {:induction false} InsertAllInOrder(P: seq<byte> -> bool, ps: seq<PageState>, n: int, recs: seq<seq<byte>>)
    requires IsChain(ps) && NewTo(ps, n) && Short(recs) && InOrder(P, ps, [], ps)
    ensures InOrder(P, ps, recs, InsertAll(ps, n, recs).0)
  {
    if recs != [] {
      var front, rec := recs[..|recs| - 1], recs[|recs| - 1];
      assert recs == front + [rec];
      InsertAllInOrder(P, ps, n, front);
      InOrderNext(P, ps, n, front, rec);
    }
  }

  function Any(b: seq<byte>): bool { true }

  lemma {:induction false} AnyRecord(es: seq<Entry>)
    ensures Select(Any, es) == es
  {
    forall e | e in es ensures OfKind(Any)(e) {
      assert Any(e.bytes);
    }
    PickAll(OfKind(Any), es);
  }

  lemma {:induction false} InOrderAny(ps: seq<PageState>, recs: seq<seq<byte>>, qs: seq<PageState>)
    requires InOrder(Any, ps, recs, qs)
    ensures AllValid(ps) && AllValid(qs) && Map(BytesOf, Listing(qs)) == Map(BytesOf, Listing(ps)) + recs
  {
    AnyRecord(Listing(ps));
    AnyRecord(Listing(qs));
    PickAll(Any, recs);
  }

  /** In a file whose last page has no holes the records are listed in the order of their insertion. */
  lemma {:induction false} InsertAllAppends(ps: seq<PageState>, n: int, recs: seq<seq<byte>>)
    requires IsChain(ps) && NewTo(ps, n) && Short(recs) && AllValid(ps) && Behind(ps) == []
    ensures var qs := InsertAll(ps, n, recs).0;
      AllValid(qs) && Map(BytesOf, Listing(qs)) == Map(BytesOf, Listing(ps)) + recs
  {
    InOrderStart(Any, ps);
    InsertAllInOrder(Any, ps, n, recs);
    InOrderAny(ps, recs, InsertAll(ps, n, recs).0);
  }

  /** qs has the records of ps, with their RIDs and bytes, and es. */
  ghost predicate Gained(ps: seq<PageState>, qs: seq<PageState>, es: seq<Entry>) {
    AllValid(ps) && AllValid(qs) && multiset(Listing(qs)) == multiset(Listing(ps)) + multiset(es)
  }

  lemma {:induction false} GainedNext(ps: seq<PageState>, n: int, recs: seq<seq<byte>>, rec: seq<byte>,
      es: seq<Entry>) returns (e: Entry)
    requires IsChain(ps) && NewTo(ps, n) && Short(recs) && |rec| <= MAX_RECORD
    requires Gained(ps, InsertAll(ps, n, recs).0, es)
    ensures Gained(ps, InsertAll(ps, n, recs + [rec]).0, es + [e]) && e.bytes == rec
  {
    InsertAllChain(ps, n, recs);
    InsertAllOne(ps, n, recs, rec);
    var before := InsertAll(ps, n, recs);
    e := InsertOneKeeps(before.0, before.1, rec);
    GainedOne(ps, before.0, es, InsertInto(before.0, rec, before.1), e);
  }

  /** Inserting leaves every record that was there with its RID and bytes and adds the new ones. */
  lemma {:induction false} InsertAllKeeps(ps: seq<PageState>, n: int, recs: seq<seq<byte>>) returns (es: seq<Entry>)
    requires IsChain(ps) && NewTo(ps, n) && Short(recs) && Gained(ps, ps, [])
    ensures Gained(ps, InsertAll(ps, n, recs).0, es) && Map(BytesOf, es) == recs
  {
    es := [];
    if recs != [] {
      var front, rec := recs[..|recs| - 1], recs[|recs| - 1];
      assert recs == front + [rec];
      es := InsertAllKeeps(ps, n, front);
      var e := GainedNext(ps, n, front, rec, es);
      MapPlus(BytesOf, es, [e]);
      es := es + [e];
    }
  }

  lemma {:induction false} GainedOne(ps: seq<PageState>, qs: seq<PageState>, es: seq<Entry>, qs': seq<PageState>,
      e: Entry)
    requires Gained(ps, qs, es) && Gained(qs, qs', [e])
    ensures Gained(ps, qs', es + [e])
  {}

  lemma {:induction false} InsertOneKeeps(ps: seq<PageState>, n: int, rec: seq<byte>) returns (e: Entry)
    requires IsChain(ps) && NewTo(ps, n) && |rec| <= MAX_RECORD
    ensures Gained(ps, InsertInto(ps, rec, n), [e]) && e.bytes == rec
  {
    var b := InsertExact(ps, rec, n);
    e := NewEntry(ps, rec, n);
    InsertedOne(Listing(ps), b, e, Listing(InsertInto(ps, rec, n)));
  }

  lemma {:induction false} InsertedOne(l: seq<Entry>, b: seq<Entry>, e: Entry, k: seq<Entry>)
    requires EndsWith(l, b) && k == Front(l, b) + [e] + b
    ensures multiset(k) == multiset(l) + multiset{e}
  {
    assert multiset(k) == multiset(Front(l, b)) + multiset{e} + multiset(b);
    assert multiset(l) == multiset(Front(l, b)) + multiset(b);
  }

  /** If a kind has no records at all, none lies behind the insertion point. */
  lemma {:induction false} NoneBehind(P: seq<byte> -> bool, ps: seq<PageState>)
    requires AllValid(ps) && ps != [] && Select(P, Listing(ps)) == []
    ensures InOrder(P, ps, [], ps)
  {
    BehindListing(ps);
    PickPlus(OfKind(P), Front(Listing(ps), Behind(ps)), Behind(ps));
  }

  /** A record of another kind changes nothing for the records of a kind. */
  lemma {:induction false} InsertOther(P: seq<byte> -> bool, ps: seq<PageState>, rec: seq<byte>, n: int)
    requires IsChain(ps) && NewTo(ps, n) && |rec| <= MAX_RECORD && !P(rec)
    ensures AllValid(ps) && AllValid(InsertInto(ps, rec, n))
    ensures Select(P, Listing(InsertInto(ps, rec, n))) == Select(P, Listing(ps))
  {
    var b := InsertExact(ps, rec, n);
    PickAround(OfKind(P), Front(Listing(ps), b), NewEntry(ps, rec, n), b);
  }
}
