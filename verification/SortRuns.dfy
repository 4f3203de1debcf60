/**
  The runs of an external sort as values: what each will still give, at which mark it is, and what merging
  them gives.  RunFiles.RunFile is such a run over a heap file.
 */
module RunValues {
  import opened Filters
  import opened MergeOrder

  /** RUN, with the state of its scan: `at` records were scanned. */
  datatype Run = Run(recs: seq<Rec>, at: nat, valid: bool, rid: int, rec: Rec, scanMark: nat, mark: int) {

    predicate Ok() {
      && at <= |recs| && (rid == -1 || 0 <= rid == at - 1) && (valid && rid >= 0 ==> rec == recs[rid])
      && (!valid && rid == -1 ==> at == 0)
      && scanMark <= |recs| && (mark == -1 || 0 <= mark == scanMark - 1)
    }

    /** What next() will still take from this run. */
    function Pending(): seq<Rec>
      requires Ok()
    {
      if !valid then recs[at..] else if rid < 0 then [] else recs[rid..]
    }

    /** What it would take if a mark were set now and gone back to. */
    function Replay(): seq<Rec>
      requires Ok()
    {
      if rid < 0 then [] else recs[rid..]
    }

    /** What it will take after going to the mark. */
    function Marked(): seq<Rec>
      requires Ok()
    {
      if mark < 0 then [] else recs[mark..]
    }

    /** The run with its next record in memory. */
    function Fetched(): Run
      requires Ok()
    {
      if valid then this
      else if at < |recs| then this.(valid := true, rid := at, rec := recs[at], at := at + 1)
      else this.(valid := true, rid := -1)
    }

    /** startScans */
    static function Start(recs: seq<Rec>): (r: Run)
      ensures r.Ok() && r.Pending() == recs && !r.valid
    {
      Run(recs, 0, false, -1, [], 0, -1)
    }
  }

  lemma {:induction false} FetchedSame(r: Run)
    requires r.Ok()
    ensures var f := r.Fetched();
      f.Ok() && f.valid && f.Pending() == r.Pending() && f.Marked() == r.Marked() && f.recs == r.recs
  {}

  ghost predicate AllOk(runs: seq<Run>) {
    forall i {:trigger runs[i].Ok()} | 0 <= i < |runs| :: runs[i].Ok()
  }

  ghost function Pendings(runs: seq<Run>): (p: seq<seq<Rec>>)
    ensures |p| == |runs| && forall i | 0 <= i < |p| && runs[i].Ok() :: p[i] == runs[i].Pending()
  {
    seq(|runs|, i requires 0 <= i < |runs| => if runs[i].Ok() then runs[i].Pending() else [])
  }

  ghost function Replays(runs: seq<Run>): (p: seq<seq<Rec>>)
    ensures |p| == |runs| && forall i | 0 <= i < |p| && runs[i].Ok() :: p[i] == runs[i].Replay()
  {
    seq(|runs|, i requires 0 <= i < |runs| => if runs[i].Ok() then runs[i].Replay() else [])
  }

  ghost function Marks(runs: seq<Run>): (p: seq<seq<Rec>>)
    ensures |p| == |runs| && forall i | 0 <= i < |p| && runs[i].Ok() :: p[i] == runs[i].Marked()
  {
    seq(|runs|, i requires 0 <= i < |runs| => if runs[i].Ok() then runs[i].Marked() else [])
  }

  /** The records of a source: they have the attribute, and it can be compared with that of any other record. */
  ghost predicate Sortable(k: SortKey, source: seq<Rec>) {
    && k.Proper() && AllHave(k, source)
    && forall i, j {:trigger Apart(k, source[i], source[j])} | 0 <= i < |source| && 0 <= j < |source| && i != j ::
         Apart(k, source[i], source[j])
  }

  lemma {:induction false} InSource(k: SortKey, source: seq<Rec>, a: Rec, b: Rec)
    requires Sortable(k, source) && a in source && b in source
    ensures k.Has(a) && k.Has(b) && (a != b ==> Apart(k, a, b))
  {
    var i :| 0 <= i < |source| && source[i] == a;
    var j :| 0 <= j < |source| && source[j] == b;
    assert i != j ==> Apart(k, source[i], source[j]);
  }

  ghost predicate FromSource(k: SortKey, source: seq<Rec>, recs: seq<Rec>) {
    RunOk(k, recs) && forall i {:trigger recs[i]} | 0 <= i < |recs| :: recs[i] in source
  }

  ghost predicate AllFrom(k: SortKey, source: seq<Rec>, runs: seq<Run>) {
    forall i {:trigger FromSource(k, source, runs[i].recs)} | 0 <= i < |runs| :: FromSource(k, source, runs[i].recs)
  }

  /** Smallest looks at the runs with their records in memory. */
  lemma {:induction false} CompareHeads(k: SortKey, source: seq<Rec>, runs: seq<Run>, i: nat, j: nat)
    requires AllOk(runs) && AllFrom(k, source, runs) && Sortable(k, source) && i < |runs| && j < |runs|
    requires runs[i].valid && runs[i].rid >= 0 && runs[j].valid && runs[j].rid >= 0
    ensures Enough(k.typ, k.Of(runs[i].rec)) && Enough(k.typ, k.Of(runs[j].rec))
    ensures var p := Pendings(runs);
      && p[i] != [] && p[j] != []
      && (RecCmp(k.typ, k.Of(runs[i].rec), k.Of(runs[j].rec)) > 0 <==> !Le(k, p[i][0], p[j][0]))
  {
    assert runs[i].Ok() && runs[j].Ok();
    assert FromSource(k, source, runs[i].recs) && FromSource(k, source, runs[j].recs);
    var a, b := runs[i].recs[runs[i].rid], runs[j].recs[runs[j].rid];
    InSource(k, source, a, b);
    if a == b {
      NotAboveItself(k.typ, k.Of(a));
    } else {
      RecCmpMeaning(k.typ, k.Of(a), k.Of(b));
      LeTotal(k, a, b);
    }
  }

  lemma {:induction false} PendingsOk(k: SortKey, source: seq<Rec>, runs: seq<Run>)
    requires AllOk(runs) && AllFrom(k, source, runs)
    ensures RunsOk(k, Pendings(runs))
  {
    var p := Pendings(runs);
    forall i {:trigger RunOk(k, p[i])} | 0 <= i < |p| ensures RunOk(k, p[i]) {
      assert runs[i].Ok() && FromSource(k, source, runs[i].recs);
      SuffixOk(k, runs[i].recs, |runs[i].recs| - |p[i]|);
    }
  }

  lemma {:induction false} SuffixOk(k: SortKey, s: seq<Rec>, n: nat)
    requires RunOk(k, s) && n <= |s|
    ensures RunOk(k, s[n..])
  {
    forall i, j {:trigger Le(k, s[n..][i], s[n..][j])} | 0 <= i <= j < |s| - n ensures Le(k, s[n..][i], s[n..][j]) {
      assert Le(k, s[n + i], s[n + j]);
    }
  }

  /** No run has been asked for a record yet. */
  ghost predicate Unread(runs: seq<Run>) {
    forall i {:trigger runs[i].valid} | 0 <= i < |runs| :: !runs[i].valid && runs[i].rid == -1
  }

  /** What going back would bring: the record next() gave last, if it did, and what was to follow; but nothing
      at all if next() was never called. */
  ghost predicate Returns(k: SortKey, runs: seq<Run>, begun: bool, last: seq<Rec>) {
    if begun then MergeOut(k, Replays(runs)) == last + MergeOut(k, Pendings(runs)) else Unread(runs)
  }

  lemma {:induction false} NothingLeft(k: SortKey, runs: seq<seq<Rec>>, i: nat)
    requires i <= |runs| && forall j | 0 <= j < i :: runs[j] == []
    ensures Smallest(k, runs, i) == -1
    decreases i
  {
    if i > 0 {
      NothingLeft(k, runs, i - 1);
    }
  }

  ghost predicate Ready(
      k: SortKey, source: seq<Rec>, runs: seq<Run>, begun: bool, last: seq<Rec>, coming: seq<Rec>, atMark: seq<Rec>)
  {
    && AllOk(runs) && AllFrom(k, source, runs) && Sortable(k, source) && Returns(k, runs, begun, last)
    && coming == MergeOut(k, Pendings(runs)) && atMark == MergeOut(k, Marks(runs))
  }

  /** The state of a merge: what it will give, and what it would give after going to its mark. */
  ghost predicate Running(
      k: SortKey, source: seq<Rec>, runs: seq<Run>, begun: bool, last: seq<Rec>, coming: seq<Rec>, atMark: seq<Rec>)
  {
    forall rs {:trigger Ready(k, source, rs, begun, last, coming, atMark)} | rs == runs ::
      Ready(k, source, rs, begun, last, coming, atMark)
  }

  ghost predicate Unmoved(k: SortKey, source: seq<Rec>, before: seq<Run>, runs: seq<Run>) {
    && AllOk(before) && AllOk(runs) && AllFrom(k, source, runs)
    && Pendings(runs) == Pendings(before) && Marks(runs) == Marks(before)
  }

  /** The runs are to give what they were before. */
  ghost predicate Steady(k: SortKey, source: seq<Rec>, before: seq<Run>, runs: seq<Run>) {
    forall rs {:trigger Unmoved(k, source, before, rs)} | rs == runs :: Unmoved(k, source, before, rs)
  }

  /** The state of the loop of next() before run i. */
  ghost predicate LookedAt(k: SortKey, source: seq<Rec>, before: seq<Run>, runs: seq<Run>, i: int, smallest: int) {
    && 0 <= i <= |runs| && Steady(k, source, before, runs) && AllFetched(runs, i)
    && smallest == Smallest(k, Pendings(runs), i)
    && (smallest >= 0 ==> runs[smallest].rid >= 0)
  }

  ghost predicate Looked(k: SortKey, source: seq<Rec>, before: seq<Run>, runs: seq<Run>, i: int, smallest: int) {
    forall n {:trigger LookedAt(k, source, before, runs, n, smallest)} | n == i ::
      LookedAt(k, source, before, runs, n, smallest)
  }

  ghost predicate AllFetched(runs: seq<Run>, n: nat)
    requires n <= |runs|
  {
    forall i {:trigger runs[i].valid} | 0 <= i < n :: runs[i].valid
  }

  /** At the end of all runs going back would bring what is left: nothing. */
  lemma {:induction false} AllRead(k: SortKey, runs: seq<Run>)
    requires AllOk(runs) && AllFetched(runs, |runs|)
    ensures Replays(runs) == Pendings(runs)
  {
    forall i | 0 <= i < |runs| ensures Replays(runs)[i] == Pendings(runs)[i] {
      assert runs[i].Ok() && runs[i].valid;
    }
  }

  lemma {:induction false} TakeOk(k: SortKey, source: seq<Rec>, runs: seq<Run>, s: nat)
    requires AllOk(runs) && AllFrom(k, source, runs) && s < |runs| && runs[s].rid >= 0
    ensures var after := runs[s := runs[s].(valid := false)];
      AllOk(after) && AllFrom(k, source, after) && Marks(after) == Marks(runs)
  {
    var after := runs[s := runs[s].(valid := false)];
    forall j {:trigger after[j].Ok()} | 0 <= j < |after| ensures after[j].Ok() {
      assert runs[j].Ok();
    }
    forall j {:trigger FromSource(k, source, after[j].recs)} | 0 <= j < |after|
      ensures FromSource(k, source, after[j].recs)
    {
      assert FromSource(k, source, runs[j].recs);
    }
    forall j | 0 <= j < |after| ensures Marks(after)[j] == Marks(runs)[j] {
      assert runs[j].Ok() && after[j].Ok();
    }
  }

  /** A record taken from run s is the next of the merge; going back to it would bring it again. */
  lemma {:induction false} TakeKeeps(k: SortKey, source: seq<Rec>, runs: seq<Run>, s: nat)
    requires AllOk(runs) && AllFrom(k, source, runs) && AllFetched(runs, |runs|) && s < |runs|
    requires s == Smallest(k, Pendings(runs), |runs|)
    ensures var after := runs[s := runs[s].(valid := false)];
      && AllOk(after) && AllFrom(k, source, after) && Marks(after) == Marks(runs)
      && MergeOut(k, Pendings(runs)) == [runs[s].rec] + MergeOut(k, Pendings(after))
      && Replays(after) == Pendings(runs)
  {
    var after := runs[s := runs[s].(valid := false)];
    assert runs[s].Ok() && runs[s].valid && runs[s].Pending() != [];
    TakeOk(k, source, runs, s);
    var p := Pendings(runs);
    forall j | 0 <= j < |after| ensures Replays(after)[j] == p[j] && Pendings(after)[j] == Pop(p, s)[j] {
      assert runs[j].Ok() && runs[j].valid && after[j].Ok();
    }
    assert Pendings(after) == Pop(p, s);
  }

  // ---- Marking ----

  lemma {:induction false} MarkKeeps(k: SortKey, source: seq<Rec>, runs: seq<Run>, after: seq<Run>)
    requires AllOk(runs) && AllFrom(k, source, runs) && |after| == |runs|
    requires forall i | 0 <= i < |runs| :: after[i] == runs[i].(scanMark := runs[i].at, mark := runs[i].rid)
    ensures AllOk(after) && AllFrom(k, source, after)
    ensures Pendings(after) == Pendings(runs) && Replays(after) == Replays(runs) && Marks(after) == Replays(runs)
  {
    forall j {:trigger after[j].Ok()} | 0 <= j < |after| ensures after[j].Ok() {
      assert runs[j].Ok();
    }
    forall j {:trigger FromSource(k, source, after[j].recs)} | 0 <= j < |after|
      ensures FromSource(k, source, after[j].recs)
    {
      assert FromSource(k, source, runs[j].recs);
    }
    forall j | 0 <= j < |after|
      ensures Pendings(after)[j] == Pendings(runs)[j] && Replays(after)[j] == Replays(runs)[j]
      ensures Marks(after)[j] == Replays(runs)[j]
    {
      assert runs[j].Ok() && after[j].Ok();
    }
  }

  /** The run after resetScan, and with the record at the mark in memory. */
  function BackAt(r: Run): Run
    requires r.Ok()
  {
    r.(at := r.scanMark, rid := r.mark, rec := if r.mark >= 0 then r.recs[r.mark] else r.rec, valid := true)
  }

  lemma {:induction false} GotoKeeps(k: SortKey, source: seq<Rec>, runs: seq<Run>, after: seq<Run>)
    requires AllOk(runs) && AllFrom(k, source, runs) && |after| == |runs|
    requires forall i {:trigger after[i]} | 0 <= i < |runs| :: runs[i].Ok() && after[i] == BackAt(runs[i])
    ensures AllOk(after) && AllFrom(k, source, after)
    ensures Pendings(after) == Marks(runs) && Replays(after) == Marks(runs) && Marks(after) == Marks(runs)
  {
    forall j {:trigger after[j].Ok()} | 0 <= j < |after| ensures after[j].Ok() {
      assert runs[j].Ok() && after[j] == BackAt(runs[j]);
    }
    forall j {:trigger FromSource(k, source, after[j].recs)} | 0 <= j < |after|
      ensures FromSource(k, source, after[j].recs)
    {
      assert FromSource(k, source, runs[j].recs) && after[j] == BackAt(runs[j]);
    }
    forall j | 0 <= j < |after|
      ensures Pendings(after)[j] == Marks(runs)[j] && Replays(after)[j] == Marks(runs)[j]
      ensures Marks(after)[j] == Marks(runs)[j]
    {
      assert runs[j].Ok() && after[j].Ok() && after[j] == BackAt(runs[j]);
    }
  }

  lemma {:induction false} MarkReturns(k: SortKey, runs: seq<Run>, after: seq<Run>, begun: bool, last: seq<Rec>)
    requires AllOk(runs) && AllOk(after) && Returns(k, runs, begun, last) && |after| == |runs|
    requires Pendings(after) == Pendings(runs) && Replays(after) == Replays(runs) && Marks(after) == Replays(runs)
    requires forall i | 0 <= i < |runs| :: after[i] == runs[i].(scanMark := runs[i].at, mark := runs[i].rid)
    ensures Returns(k, after, begun, last)
    ensures MergeOut(k, Marks(after)) == if begun then last + MergeOut(k, Pendings(after)) else []
  {
    if !begun {
      UnreadReplay(k, runs);
      forall j {:trigger after[j].valid} | 0 <= j < |after| ensures !after[j].valid && after[j].rid == -1 {
        assert !runs[j].valid;
      }
    }
  }

  /** A mark set before the first call of next() brings nothing back. */
  lemma {:induction false} UnreadReplay(k: SortKey, runs: seq<Run>)
    requires AllOk(runs) && Unread(runs)
    ensures MergeOut(k, Replays(runs)) == []
  {
    forall j | 0 <= j < |runs| ensures Replays(runs)[j] == [] {
      assert runs[j].Ok() && !runs[j].valid;
    }
    NothingLeft(k, Replays(runs), |runs|);
  }

  lemma {:induction false} FetchSame(k: SortKey, source: seq<Rec>, runs: seq<Run>, i: nat)
    requires AllOk(runs) && AllFrom(k, source, runs) && i < |runs| && runs[i].Ok()
    ensures var after := runs[i := runs[i].Fetched()];
      && AllOk(after) && AllFrom(k, source, after)
      && Pendings(after) == Pendings(runs) && Marks(after) == Marks(runs)
  {
    FetchedSame(runs[i]);
    var after := runs[i := runs[i].Fetched()];
    forall j {:trigger after[j].Ok()} | 0 <= j < |after| ensures after[j].Ok() {
      assert runs[j].Ok();
    }
    forall j {:trigger FromSource(k, source, after[j].recs)} | 0 <= j < |after|
      ensures FromSource(k, source, after[j].recs)
    {
      assert FromSource(k, source, runs[j].recs);
    }
  }

  lemma {:induction false} FetchKeeps(k: SortKey, source: seq<Rec>, before: seq<Run>, runs: seq<Run>, i: nat,
      smallest: int)
    requires Looked(k, source, before, runs, i, smallest) && i < |runs|
    ensures runs[i].Ok() && Looked(k, source, before, runs[i := runs[i].Fetched()], i, smallest)
  {
    assert LookedAt(k, source, before, runs, i, smallest) && Unmoved(k, source, before, runs) && runs[i].Ok();
    FetchSame(k, source, runs, i);
    FetchedSame(runs[i]);
    var after := runs[i := runs[i].Fetched()];
    forall j {:trigger after[j].valid} | 0 <= j < i ensures after[j].valid {
      assert runs[j].valid;
    }
    assert Unmoved(k, source, before, after);
    assert LookedAt(k, source, before, after, i, smallest);
  }

  /** A run with its record in memory is at its end exactly if nothing is pending. */
  lemma {:induction false} HeadOf(runs: seq<Run>, i: nat)
    requires AllOk(runs) && i < |runs| && runs[i].valid
    ensures Pendings(runs)[i] == [] <==> runs[i].rid < 0
  {
    assert runs[i].Ok();
  }

  lemma {:induction false} LookedNext(
      k: SortKey, source: seq<Rec>, before: seq<Run>, runs: seq<Run>, i: nat, smallest: int, next: int)
    requires Looked(k, source, before, runs, i, smallest) && i < |runs| && runs[i].valid
    requires next == smallest || (next == i && runs[i].rid >= 0)
    requires next == Smallest(k, Pendings(runs), i + 1)
    ensures Looked(k, source, before, runs, i + 1, next)
  {
    assert LookedAt(k, source, before, runs, i, smallest);
    assert LookedAt(k, source, before, runs, i + 1, next);
  }

  // ---- Making the runs ----

  /** The records of all runs. */
  ghost function Bag(runs: seq<Run>): multiset<Rec> {
    if runs == [] then multiset{} else Bag(runs[..|runs| - 1]) + multiset(runs[|runs| - 1].recs)
  }

  lemma {:induction false} BagOne(runs: seq<Run>, r: Run)
    ensures Bag(runs + [r]) == Bag(runs) + multiset(r.recs)
  {
    assert (runs + [r])[..|runs|] == runs;
  }

  lemma {:induction false} BagPending(runs: seq<Run>)
    requires AllOk(runs) && Unread(runs)
    ensures AllOf(Pendings(runs)) == Bag(runs)
  {
    if runs != [] {
      var m := |runs| - 1;
      var front := runs[..m];
      assert runs[m].Ok() && !runs[m].valid;
      forall i {:trigger front[i].Ok()} | 0 <= i < m ensures front[i].Ok() {
        assert runs[i].Ok();
      }
      forall i {:trigger front[i].valid} | 0 <= i < m ensures !front[i].valid && front[i].rid == -1 {
        assert !runs[i].valid;
      }
      BagPending(front);
      assert Pendings(runs)[..m] == Pendings(front);
    }
  }

  ghost predicate FreshRuns(k: SortKey, source: seq<Rec>, runs: seq<Run>) {
    AllOk(runs) && AllFrom(k, source, runs) && Unread(runs)
  }

  /** Sorted runs of records of the source that no record was asked of. */
  ghost predicate Collected(k: SortKey, source: seq<Rec>, runs: seq<Run>) {
    forall rs {:trigger FreshRuns(k, source, rs)} | rs == runs :: FreshRuns(k, source, rs)
  }

  lemma {:induction false} RunAdded(k: SortKey, source: seq<Rec>, runs: seq<Run>, recs: seq<Rec>)
    requires Collected(k, source, runs) && FromSource(k, source, recs)
    ensures Collected(k, source, runs + [Run.Start(recs)])
  {
    assert FreshRuns(k, source, runs);
    var after := runs + [Run.Start(recs)];
    forall j {:trigger after[j].Ok()} | 0 <= j < |after| ensures after[j].Ok() {
      if j < |runs| {
        assert runs[j].Ok();
      }
    }
    forall j {:trigger FromSource(k, source, after[j].recs)} | 0 <= j < |after|
      ensures FromSource(k, source, after[j].recs)
    {
      if j < |runs| {
        assert FromSource(k, source, runs[j].recs);
      }
    }
    forall j {:trigger after[j].valid} | 0 <= j < |after| ensures !after[j].valid && after[j].rid == -1 {
      if j < |runs| {
        assert !runs[j].valid;
      }
    }
  }

  ghost predicate Sized(runs: seq<Run>, maxItems: nat) {
    forall i {:trigger runs[i].recs} | 0 <= i < |runs| :: 1 <= |runs[i].recs| <= maxItems
  }

  ghost predicate AccountedTo(source: seq<Rec>, runs: seq<Run>, n: int)
    requires 0 <= n <= |source|
  {
    Bag(runs) == multiset(source[..n])
  }

  /** The runs hold the first lo records of the source. */
  ghost predicate Accounted(source: seq<Rec>, runs: seq<Run>, lo: int)
    requires 0 <= lo <= |source|
  {
    forall n {:trigger AccountedTo(source, runs, n)} | n == lo :: AccountedTo(source, runs, n)
  }

  lemma {:induction false} AccountedNext(source: seq<Rec>, runs: seq<Run>, lo: nat, hi: nat, r: Run)
    requires lo <= hi <= |source| && Accounted(source, runs, lo) && multiset(r.recs) == multiset(source[lo..hi])
    ensures Accounted(source, runs + [r], hi)
  {
    assert AccountedTo(source, runs, lo);
    var bag, more, all := multiset(source[..lo]), multiset(source[lo..hi]), multiset(source[..hi]);
    assert all == bag + more by {
      Cut(source, lo, hi);
    }
    assert Bag(runs + [r]) == bag + more by {
      BagOne(runs, r);
    }
    assert AccountedTo(source, runs + [r], hi);
  }

  lemma {:induction false} Cut(source: seq<Rec>, lo: nat, hi: nat)
    requires lo <= hi <= |source|
    ensures multiset(source[..hi]) == multiset(source[..lo]) + multiset(source[lo..hi])
  {
    assert source[..hi] == source[..lo] + source[lo..hi];
  }

  /** The first lo records of the source are in runs. */
  ghost predicate Divided(k: SortKey, source: seq<Rec>, maxItems: nat, runs: seq<Run>, lo: nat) {
    lo <= |source| && Collected(k, source, runs) && Sized(runs, maxItems) && Accounted(source, runs, lo)
  }

  /** What dividing a source means for its runs: none is empty or larger than the buffer, each is sorted, and no scan
      of one has begun. */
  lemma {:induction false} DividedMeans(k: SortKey, source: seq<Rec>, maxItems: nat, runs: seq<Run>, i: nat)
    requires Divided(k, source, maxItems, runs, |source|) && i < |runs|
    ensures 1 <= |runs[i].recs| <= maxItems && Sorted(k, runs[i].recs) && AllHave(k, runs[i].recs)
    ensures runs[i].at == 0 && !runs[i].valid && Bag(runs) == multiset(source)
  {
    assert FreshRuns(k, source, runs) && AccountedTo(source, runs, |source|);
    assert source[..|source|] == source;
    assert runs[i].Ok() && FromSource(k, source, runs[i].recs) && !runs[i].valid;
  }

  lemma {:induction false} DividedNext(
      k: SortKey, source: seq<Rec>, maxItems: nat, runs: seq<Run>, lo: nat, r: Run)
    requires Divided(k, source, maxItems, runs, lo) && r == Run.Start(r.recs) && FromSource(k, source, r.recs)
    requires 1 <= |r.recs| <= maxItems && lo + |r.recs| <= |source|
    requires multiset(r.recs) == multiset(source[lo..lo + |r.recs|])
    ensures Divided(k, source, maxItems, runs + [r], lo + |r.recs|)
  {
    RunAdded(k, source, runs, r.recs);
    AccountedNext(source, runs, lo, lo + |r.recs|, r);
  }

  /** Merging the runs gives the source, sorted. */
  lemma {:induction false} MadeSorted(k: SortKey, source: seq<Rec>, maxItems: nat, runs: seq<Run>)
    requires Divided(k, source, maxItems, runs, |source|)
    ensures FreshRuns(k, source, runs) && Sized(runs, maxItems)
    ensures Sorted(k, MergeOut(k, Pendings(runs))) && multiset(MergeOut(k, Pendings(runs))) == multiset(source)
  {
    assert FreshRuns(k, source, runs);
    BagPending(runs);
    assert AccountedTo(source, runs, |source|);
    assert source[..|source|] == source;
    PendingsOk(k, source, runs);
    MergeSorted(k, Pendings(runs));
    MergePermutes(k, Pendings(runs));
  }

  /** What a sort starts with: all of the source is to come, sorted. */
  lemma {:induction false} StartRunning(k: SortKey, source: seq<Rec>, maxItems: nat, runs: seq<Run>)
    returns (coming: seq<Rec>, atMark: seq<Rec>)
    requires Divided(k, source, maxItems, runs, |source|) && Sortable(k, source)
    ensures Running(k, source, runs, false, [], coming, atMark) && Sized(runs, maxItems)
    ensures Sorted(k, coming) && multiset(coming) == multiset(source)
  {
    MadeSorted(k, source, maxItems, runs);
    coming, atMark := MergeOut(k, Pendings(runs)), MergeOut(k, Marks(runs));
    assert Ready(k, source, runs, false, [], coming, atMark);
  }

  ghost predicate AreMarked(runs: seq<Run>, after: seq<Run>) {
    && |after| == |runs|
    && forall i {:trigger after[i]} | 0 <= i < |runs| ::
         after[i] == runs[i].(scanMark := runs[i].at, mark := runs[i].rid)
  }

  lemma {:induction false} MarkRunning(
      k: SortKey, source: seq<Rec>, runs: seq<Run>, after: seq<Run>, begun: bool, last: seq<Rec>, coming: seq<Rec>,
      atMark: seq<Rec>)
    requires Running(k, source, runs, begun, last, coming, atMark) && AreMarked(runs, after)
    ensures Running(k, source, after, begun, last, coming, if begun then last + coming else [])
  {
    assert Ready(k, source, runs, begun, last, coming, atMark);
    MarkKeeps(k, source, runs, after);
    MarkReturns(k, runs, after, begun, last);
    assert Ready(k, source, after, begun, last, coming, if begun then last + coming else []);
  }

  ghost predicate AreBack(runs: seq<Run>, after: seq<Run>) {
    && |after| == |runs|
    && forall i {:trigger after[i]} {:trigger runs[i]} | 0 <= i < |runs| :: runs[i].Ok() && after[i] == BackAt(runs[i])
  }

  lemma {:induction false} GotoRunning(
      k: SortKey, source: seq<Rec>, runs: seq<Run>, after: seq<Run>, begun: bool, last: seq<Rec>, coming: seq<Rec>,
      atMark: seq<Rec>)
    requires Running(k, source, runs, begun, last, coming, atMark) && AreBack(runs, after)
    ensures Running(k, source, after, true, [], atMark, atMark)
  {
    assert Ready(k, source, runs, begun, last, coming, atMark);
    GotoKeeps(k, source, runs, after);
    assert Ready(k, source, after, true, [], atMark, atMark);
  }

  ghost predicate PoisedIn(k: SortKey, source: seq<Rec>, runs: seq<Run>, coming: seq<Rec>, atMark: seq<Rec>) {
    && AllOk(runs) && AllFrom(k, source, runs) && Sortable(k, source) && AllFetched(runs, |runs|)
    && coming == MergeOut(k, Pendings(runs)) && atMark == MergeOut(k, Marks(runs))
  }

  /** Every run has its record in memory. */
  ghost predicate Poised(k: SortKey, source: seq<Rec>, runs: seq<Run>, coming: seq<Rec>, atMark: seq<Rec>) {
    forall rs {:trigger PoisedIn(k, source, rs, coming, atMark)} | rs == runs :: PoisedIn(k, source, rs, coming, atMark)
  }

  lemma {:induction false} FetchedRunning(
      k: SortKey, source: seq<Rec>, runs: seq<Run>, after: seq<Run>, begun: bool, last: seq<Rec>, coming: seq<Rec>,
      atMark: seq<Rec>, smallest: int)
    requires Running(k, source, runs, begun, last, coming, atMark) && Looked(k, source, runs, after, |after|, smallest)
    ensures Poised(k, source, after, coming, atMark) && smallest == Smallest(k, Pendings(after), |after|)
  {
    assert Ready(k, source, runs, begun, last, coming, atMark);
    assert LookedAt(k, source, runs, after, |after|, smallest) && Unmoved(k, source, runs, after);
    assert PoisedIn(k, source, after, coming, atMark);
  }

  /** Nothing is left. */
  lemma {:induction false} EndRunning(k: SortKey, source: seq<Rec>, runs: seq<Run>, coming: seq<Rec>, atMark: seq<Rec>)
    requires Poised(k, source, runs, coming, atMark) && Smallest(k, Pendings(runs), |runs|) < 0
    ensures coming == [] && Running(k, source, runs, true, [], [], atMark)
  {
    assert PoisedIn(k, source, runs, coming, atMark);
    AllRead(k, runs);
    assert Ready(k, source, runs, true, [], [], atMark);
  }

  /** The smallest record is given out. */
  lemma {:induction false} TakeRunning(
      k: SortKey, source: seq<Rec>, runs: seq<Run>, coming: seq<Rec>, atMark: seq<Rec>, s: nat)
    requires Poised(k, source, runs, coming, atMark) && s == Smallest(k, Pendings(runs), |runs|)
    ensures s < |runs| && runs[s].valid && runs[s].rid >= 0 && coming != [] && coming[0] == runs[s].rec
    ensures Running(k, source, runs[s := runs[s].(valid := false)], true, [runs[s].rec], coming[1..], atMark)
  {
    assert PoisedIn(k, source, runs, coming, atMark);
    assert runs[s].Ok() && runs[s].valid;
    TakeKeeps(k, source, runs, s);
    assert Ready(k, source, runs[s := runs[s].(valid := false)], true, [runs[s].rec], coming[1..], atMark);
  }

  lemma {:induction false} StartLooking(
      k: SortKey, source: seq<Rec>, runs: seq<Run>, begun: bool, last: seq<Rec>, coming: seq<Rec>, atMark: seq<Rec>)
    requires Running(k, source, runs, begun, last, coming, atMark)
    ensures Looked(k, source, runs, runs, 0, -1) && Sortable(k, source)
  {
    assert Ready(k, source, runs, begun, last, coming, atMark);
    assert Unmoved(k, source, runs, runs);
    assert LookedAt(k, source, runs, runs, 0, -1);
  }

  /** An empty source has no runs. */
  lemma {:induction false} NoRuns(
      k: SortKey, source: seq<Rec>, runs: seq<Run>, begun: bool, last: seq<Rec>, coming: seq<Rec>, atMark: seq<Rec>)
    requires Running(k, source, runs, begun, last, coming, atMark) && runs == []
    ensures coming == [] && Running(k, source, runs, true, [], coming, atMark)
  {
    assert Ready(k, source, runs, begun, last, coming, atMark);
    assert Replays(runs) == Pendings(runs);
    assert Ready(k, source, runs, true, [], coming, atMark);
  }
}
