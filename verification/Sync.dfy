/** The watermark sync of one list endpoint: the paging loop over day slices, the run that moves the
    watermark, and what survives over every history of failing runs, rewinds and upstream edits.

    ComicVine timestamps are seconds; the code's datetimes are microseconds, cut to seconds when they
    are formatted. */
module Sync {
  import opened Upstream
  import opened Wrappers

  const SECOND := 1_000_000
  const OVERLAP := 3600
  const CHUNK := 86_400_000_000
  const FUTURE_PAD := 86_400_000_000
  const INITIAL_LOOKBACK := 259_200_000_000
  const MAX_CHUNKS := 45
  const PAGE := 100

  /** The second a datetime is formatted as. */
  function Sec(t: int): int { t / SECOND }

  /** The end of the n-th slice of a window. */
  function SliceEnd(start: int, n: nat): int { start + n * 86_400_000_000 }

  /** An upstream record in one version: every edit changes its date. */
  datatype Row = Row(id: nat, date: int, body: int)

  /** What ComicVine holds, in the order it lists it: by date, ties in some fixed order. */
  ghost predicate Catalogue(up: seq<Row>) {
    && (forall i, j :: 0 <= i < j < |up| ==> up[i].date <= up[j].date)
    && (forall i, j :: 0 <= i < j < |up| ==> up[i].id != up[j].id)
  }

  /** The rows whose date lies in [lo, hi]. */
  function Slice(up: seq<Row>, lo: int, hi: int): (r: seq<Row>)
    ensures |r| <= |up|
  {
    if up == [] then []
    else if lo <= up[0].date <= hi then [up[0]] + Slice(up[1..], lo, hi)
    else Slice(up[1..], lo, hi)
  }

  /** A page of the rows dated in [lo, hi]. */
  function Ask(up: seq<Row>, lo: int, hi: int, offset: nat, fate: Fate): Reply<Row> {
    PageAt(Slice(up, lo, hi), offset, PAGE, fate)
  }

  datatype Stop = Finished | RunLimit | Refused | UpstreamError

  /** Upserting rows one by one: the last one with an ID wins. */
  function Apply(store: map<nat, Row>, rows: seq<Row>): map<nat, Row>
    decreases |rows|
  {
    if rows == [] then store else Apply(store[rows[0].id := rows[0]], rows[1..])
  }

  function MaxDate(rows: seq<Row>): Option<int> {
    if rows == [] then None
    else
      var last := rows[|rows| - 1].date;
      match MaxDate(rows[..|rows| - 1])
      case None => Some(last)
      case Some(d) => Some(Max(d, last))
  }

  /** The stored rows and the watermark of one endpoint. */
  class Database {
    var store: map<nat, Row>
    var mark: Option<int>

    constructor (rows: map<nat, Row>)
      ensures store == rows && mark == None
    { store, mark := rows, None; }
  }

  ghost predicate Only(rows: seq<Row>, up: seq<Row>, lo: int, hi: int) {
    forall r :: r in rows ==> r in up && lo <= r.date <= hi
  }

  ghost predicate AllOf(rows: seq<Row>, up: seq<Row>, lo: int, hi: int) {
    forall r :: r in up && lo <= r.date <= hi ==> r in rows
  }

  // ---- what a run promises -------------------------------------------------

  /** Everything up in [lo, hi] that is older than the newest row handed over was handed over too;
      all of it was if the run is complete. */
  ghost predicate WindowRun(up: seq<Row>, start: int, end: int, handed: seq<Row>, latest: Option<int>, complete: bool) {
    && Only(handed, up, Sec(start), Sec(end))
    && latest == MaxDate(handed)
    && (latest.Some? ==> AllOf(handed, up, Sec(start), latest.value - 1))
    && (complete && start < end ==> AllOf(handed, up, Sec(start), Sec(end)))
  }

  /** The last second a run can ask about: the end of the window or of its last slice. */
  function Reach(start: int, end: int, maxChunks: Option<nat>): int {
    if maxChunks.None? || end <= SliceEnd(start, maxChunks.value) then Sec(end)
    else Sec(SliceEnd(start, maxChunks.value))
  }

  /** A run no request of which fails hands over exactly the rows up to its reach. */
  ghost predicate CleanRun(up: seq<Row>, start: int, end: int, maxChunks: Option<nat>, handed: seq<Row>) {
    && Only(handed, up, Sec(start), Reach(start, end, maxChunks))
    && AllOf(handed, up, Sec(start), Reach(start, end, maxChunks))
  }

  // ---- lemmas about slices and folds ---------------------------------------

  lemma {:induction false} SliceMembers(up: seq<Row>, lo: int, hi: int, r: Row)
    ensures r in Slice(up, lo, hi) <==> r in up && lo <= r.date <= hi
  {
    if up != [] { SliceMembers(up[1..], lo, hi, r); }
  }

  lemma {:induction false} SliceSorted(up: seq<Row>, lo: int, hi: int)
    requires forall i, j :: 0 <= i < j < |up| ==> up[i].date <= up[j].date
    ensures var s := Slice(up, lo, hi); forall i, j :: 0 <= i < j < |s| ==> s[i].date <= s[j].date
  {
    if up != [] {
      SliceSorted(up[1..], lo, hi);
      var s := Slice(up[1..], lo, hi);
      forall i | 0 <= i < |s| ensures up[0].date <= s[i].date {
        SliceMembers(up[1..], lo, hi, s[i]);
        var k :| 0 <= k < |up[1..]| && up[1..][k] == s[i];
        assert up[k + 1] == s[i];
      }
    }
  }

  lemma {:induction false} ApplyConcat(store: map<nat, Row>, a: seq<Row>, b: seq<Row>)
    ensures Apply(store, a + b) == Apply(Apply(store, a), b)
    decreases |a|
  {
    if a == [] {
      assert a + b == b;
    } else {
      assert (a + b)[0] == a[0] && (a + b)[1..] == a[1..] + b;
      ApplyConcat(store[a[0].id := a[0]], a[1..], b);
    }
  }

  ghost predicate NoneNamed(rows: seq<Row>, from: nat, id: nat) {
    forall j :: from <= j < |rows| ==> rows[j].id != id
  }

  /** What storing `rows` does under one ID: the last row of that ID is stored, and without one nothing
      changes. */
  ghost predicate LastWins(store: map<nat, Row>, after: map<nat, Row>, rows: seq<Row>, id: nat) {
    || (NoneNamed(rows, 0, id) && (id in after <==> id in store) && (id in after ==> after[id] == store[id]))
    || (exists k :: 0 <= k < |rows| && rows[k].id == id && NoneNamed(rows, k + 1, id)
                    && id in after && after[id] == rows[k])
  }

  lemma {:induction false} ApplyLastWins(store: map<nat, Row>, rows: seq<Row>, id: nat)
    ensures LastWins(store, Apply(store, rows), rows, id)
  {
    if rows != [] {
      var init, last := rows[..|rows| - 1], rows[|rows| - 1];
      ApplyLastWins(store, init, id);
      assert rows == init + [last];
      ApplyConcat(store, init, [last]);
      assert Apply(store, rows) == Apply(store, init)[last.id := last] by { assert [last][1..] == []; }
      if last.id == id { assert rows[|rows| - 1].id == id && NoneNamed(rows, |rows|, id); }
      else if !NoneNamed(init, 0, id) {
        var k :| 0 <= k < |init| && init[k].id == id && NoneNamed(init, k + 1, id)
                 && Apply(store, init)[id] == init[k];
        assert rows[k] == init[k] && NoneNamed(rows, k + 1, id);
      }
    }
  }

  lemma {:induction false} MaxDateIsMax(rows: seq<Row>)
    ensures rows == [] <==> MaxDate(rows).None?
    ensures rows != [] ==>
      && (forall r :: r in rows ==> r.date <= MaxDate(rows).value)
      && (exists r :: r in rows && r.date == MaxDate(rows).value)
  {
    if rows != [] {
      var init, last := rows[..|rows| - 1], rows[|rows| - 1];
      MaxDateIsMax(init);
      assert last in rows;
      forall r | r in rows ensures r in init || r == last {}
      if init != [] {
        var m :| m in init && m.date == MaxDate(init).value;
        assert m in rows;
      }
    }
  }

  lemma {:induction false} MaxDateConcat(a: seq<Row>, b: seq<Row>)
    ensures MaxDate(a + b) ==
      if a == [] then MaxDate(b)
      else if b == [] then MaxDate(a)
      else Some(Max(MaxDate(a).value, MaxDate(b).value))
    decreases |b|
  {
    MaxDateIsMax(a);
    MaxDateIsMax(b);
    if b == [] {
      assert a + b == a;
    } else {
      var c := b[..|b| - 1];
      assert (a + b)[..|a + b| - 1] == a + c;
      MaxDateConcat(a, c);
      MaxDateIsMax(c);
    }
  }

  /** The rows of a sorted list that are older than one of its first `k` are among those `k`. */
  lemma OlderAreBefore(s: seq<Row>, k: nat, top: Row, r: Row)
    requires forall i, j :: 0 <= i < j < |s| ==> s[i].date <= s[j].date
    requires k <= |s| && top in s[..k] && r in s && r.date < top.date
    ensures r in s[..k]
  {
    var j :| 0 <= j < k && s[j] == top;
    var i :| 0 <= i < |s| && s[i] == r;
    assert s[..k][i] == r;
  }

  /** A run that stopped inside a slice: the rows before `latest` are in the slices already read or in
      the part of this slice that was read, because slices are sorted. */
  lemma PartialRun(up: seq<Row>, start: int, cs: int, ce: int, end: int, before: seq<Row>, k: nat)
    requires Catalogue(up) && start <= cs <= ce <= end
    requires k <= |Slice(up, Sec(cs), Sec(ce))|
    requires Only(before, up, Sec(start), Sec(cs))
    requires cs == start || AllOf(before, up, Sec(start), Sec(cs))
    ensures var handed := before + Slice(up, Sec(cs), Sec(ce))[..k];
            WindowRun(up, start, end, handed, MaxDate(handed), false)
  {
    var s := Slice(up, Sec(cs), Sec(ce));
    var handed := before + s[..k];
    MaxDateIsMax(handed);
    forall r | r in handed ensures r in up && Sec(start) <= r.date <= Sec(end) {
      SliceMembers(up, Sec(cs), Sec(ce), r);
    }
    if handed != [] {
      var top :| top in handed && top.date == MaxDate(handed).value;
      forall r | r in up && Sec(start) <= r.date <= top.date - 1 ensures r in handed {
        if r !in before {
          SliceMembers(up, Sec(cs), Sec(ce), top);
          SliceMembers(up, Sec(cs), Sec(ce), r);
          SliceSorted(up, Sec(cs), Sec(ce));
          OlderAreBefore(s, k, top, r);
        }
      }
    }
  }

  lemma SliceDone(up: seq<Row>, start: int, cs: int, ce: int, before: seq<Row>)
    requires start <= cs <= ce
    requires Only(before, up, Sec(start), Sec(cs))
    requires cs == start || AllOf(before, up, Sec(start), Sec(cs))
    ensures var handed := before + Slice(up, Sec(cs), Sec(ce));
            Only(handed, up, Sec(start), Sec(ce)) && AllOf(handed, up, Sec(start), Sec(ce))
  {
    var handed := before + Slice(up, Sec(cs), Sec(ce));
    forall r ensures r in handed <==> r in up && Sec(start) <= r.date <= Sec(ce) {
      SliceMembers(up, Sec(cs), Sec(ce), r);
    }
  }

  function Newer(a: Option<int>, b: Option<int>): Option<int> {
    if a.None? || (b.Some? && b.value > a.value) then b else a
  }

  lemma NewerIsMaxDate(a: seq<Row>, b: seq<Row>)
    requires b != []
    ensures MaxDate(a + b) == Newer(MaxDate(a), MaxDate(b))
  {
    MaxDateIsMax(a);
    MaxDateIsMax(b);
    MaxDateConcat(a, b);
  }

  // ---- the code ------------------------------------------------------------

  /** Stores one page, row by row. */
  method StorePage(db: Database, rows: seq<Row>)
    modifies db`store
    ensures db.store == Apply(old(db.store), rows)
    ensures forall id :: LastWins(old(db.store), db.store, rows, id)
  {
    var i := 0;
    while i < |rows|
      invariant 0 <= i <= |rows|
      invariant Apply(db.store, rows[i..]) == Apply(old(db.store), rows)
    {
      db.store := db.store[rows[i].id := rows[i]];
      assert rows[i..][1..] == rows[i + 1..];
      i := i + 1;
    }
    forall id ensures LastWins(old(db.store), db.store, rows, id) { ApplyLastWins(old(db.store), rows, id); }
  }

  lemma PrefixGrows(slice: seq<Row>, read: seq<Row>, page: seq<Row>)
    requires read <= slice && page <= slice[|read|..]
    ensures read + page <= slice
  {}

  lemma PrefixIsAll(slice: seq<Row>, read: seq<Row>)
    requires read <= slice && |read| >= |slice|
    ensures read == slice
  {}

  /** The rows a page holds, and when it is the last one. */
  lemma PageIs(up: seq<Row>, lo: int, hi: int, offset: nat, fate: Fate)
    requires fate.Answer? && offset <= |Slice(up, lo, hi)|
    ensures var data, slice := Ask(up, lo, hi, offset, fate), Slice(up, lo, hi);
            && (data.NotFound? ==> slice == [])
            && (data.Page? ==>
                  var k := offset + |data.results|;
                  && data.total == |slice| && k == Min(offset + PAGE, |slice|)
                  && data.results == slice[offset..k])
  {}

  /** After `n` requests: all were answered, or the last one was refused or failed and `stop` says which. */
  ghost predicate StoppedBy(fate: nat -> Fate, n: nat, stop: Stop) {
    match stop
    case Finished | RunLimit => Answered(fate, n)
    case Refused => n > 0 && Answered(fate, n - 1) && fate(n - 1).Refuse?
    case UpstreamError => n > 0 && Answered(fate, n - 1) && fate(n - 1).Fail?
  }

  /** One request, and the storing of its page; `handed` lists the rows stored before. */
  method AskAndStore(db: Database, up: seq<Row>, lo: int, hi: int, offset: nat, f: Fate,
                     upserted0: nat, latest0: Option<int>, ghost handed: seq<Row>)
    returns (data: Reply<Row>, upserted: nat, latest: Option<int>, ghost page: seq<Row>)
    requires latest0 == MaxDate(handed) && offset <= |Slice(up, lo, hi)|
    modifies db`store
    ensures db.store == Apply(old(db.store), page) && upserted == upserted0 + |page|
    ensures latest == MaxDate(handed + page)
    ensures f.Refuse? <==> data.RateLimited?
    ensures f.Fail? <==> data.Error?
    ensures data.NotFound? ==> Slice(up, lo, hi) == []
    ensures data.Page? ==> data.total == |Slice(up, lo, hi)| && page == data.results
    ensures page <= Slice(up, lo, hi)[offset..] && |page| <= 100
    ensures |page| == 100 || offset + |page| == |Slice(up, lo, hi)| || !data.Page?
    ensures !data.Page? ==> page == []
  {
    upserted, latest, page := upserted0, latest0, [];
    assert handed + page == handed;
    data := Ask(up, lo, hi, offset, f);
    if f.Answer? { PageIs(up, lo, hi, offset, f); }
    if data.Page? && data.results != [] {
      page := data.results;
      NewerIsMaxDate(handed, page);
      StorePage(db, data.results);
      upserted := upserted + |data.results|;
      latest := Newer(latest, MaxDate(data.results));
    }
  }

  /** Pages hold 100 rows: a slice of `size` rows takes as many as it fills, and one if it is empty. A page
      that failed leaves the rows of the pages before it. */
  predicate PagesAsked(pages: nat, size: nat, read: nat, stop: Stop) {
    && 100 * (pages - 1) < Max(1, size)
    && (if stop == Finished then size <= 100 * pages else read == 100 * (pages - 1))
  }

  /** The inner loop: pages through one slice until it is read or a request fails. `upserted` and
      `latest` are carried on from the slices before; `read` is the prefix of the slice that was stored. */
  method SyncSlice(db: Database, up: seq<Row>, lo: int, hi: int, fate: nat -> Fate, request: nat,
                   upserted0: nat, latest0: Option<int>, ghost before: seq<Row>)
    returns (n: nat, upserted: nat, latest: Option<int>, stop: Stop, ghost read: seq<Row>)
    requires latest0 == MaxDate(before) && Answered(fate, request)
    modifies db`store
    ensures read <= Slice(up, lo, hi)
    ensures db.store == Apply(old(db.store), read) && upserted == upserted0 + |read|
    ensures latest == MaxDate(before + read)
    ensures stop == Finished ==> read == Slice(up, lo, hi)
    ensures stop != RunLimit && StoppedBy(fate, n, stop)
    ensures request < n && PagesAsked(n - request, |Slice(up, lo, hi)|, |read|, stop)
  {
    n, upserted, latest, read := request, upserted0, latest0, [];
    ghost var slice := Slice(up, lo, hi);
    assert before + read == before;
    var offset := 0;
    ghost var pages: nat := 0;
    while true
      invariant offset == |read| && read <= slice
      invariant latest == MaxDate(before + read)
      invariant upserted == upserted0 + |read|
      invariant db.store == Apply(old(db.store), read)
      invariant Answered(fate, n)
      invariant n == request + pages && offset == 100 * pages && (pages == 0 || offset < |slice|)
      decreases |slice| - offset
    {
      var data;
      ghost var page;
      data, upserted, latest, page := AskAndStore(db, up, lo, hi, offset, fate(n), upserted, latest, before + read);
      ApplyConcat(old(db.store), read, page);
      SeqAssoc(before, read, page);
      PrefixGrows(slice, read, page);
      read := read + page;
      n, pages := n + 1, pages + 1;
      if data.NotFound? {
        stop := Finished;
        break;
      }
      if !data.Page? {
        stop := if data.RateLimited? then Refused else UpstreamError;
        break;
      }
      offset := offset + PAGE;
      if offset >= data.total || data.results == [] {
        PrefixIsAll(slice, read);
        stop := Finished;
        break;
      }
    }
  }

  /** After `chunks` slices, exactly the rows up to the start of the next slice were handed over. */
  ghost predicate Walked(up: seq<Row>, start: int, end: int, chunks: nat, chunkStart: int, handed: seq<Row>) {
    && chunkStart == Min(SliceEnd(start, chunks), Max(start, end))
    && (chunks == 0 ==> handed == [])
    && (end <= start ==> chunks == 0)
    && (chunks > 0 ==> AllOf(handed, up, Sec(start), Sec(chunkStart)))
    && Only(handed, up, Sec(start), Sec(chunkStart))
  }

  lemma WalkedNext(up: seq<Row>, start: int, end: int, chunks: nat, cs: int, ce: int, handed: seq<Row>)
    requires Walked(up, start, end, chunks, cs, handed) && cs < end && ce == Min(cs + CHUNK, end)
    ensures Walked(up, start, end, chunks + 1, ce, handed + Slice(up, Sec(cs), Sec(ce)))
  {
    SliceDone(up, start, cs, ce, handed);
  }

  lemma WalkedPart(up: seq<Row>, start: int, end: int, chunks: nat, cs: int, ce: int, handed: seq<Row>, read: seq<Row>)
    requires Catalogue(up) && Walked(up, start, end, chunks, cs, handed)
    requires cs < end && cs <= ce <= end && read <= Slice(up, Sec(cs), Sec(ce))
    ensures WindowRun(up, start, end, handed + read, MaxDate(handed + read), false)
  {
    assert read == Slice(up, Sec(cs), Sec(ce))[..|read|];
    PartialRun(up, start, cs, ce, end, handed, |read|);
  }

  lemma WalkedToLimit(up: seq<Row>, start: int, end: int, chunks: nat, cs: int, handed: seq<Row>)
    requires Catalogue(up) && Walked(up, start, end, chunks, cs, handed) && cs < end
    ensures WindowRun(up, start, end, handed, MaxDate(handed), false)
    ensures SliceEnd(start, chunks) < end
    ensures chunks > 0 ==> CleanRun(up, start, end, Some(chunks), handed)
  {
    WalkedPart(up, start, end, chunks, cs, cs, handed, []);
    assert handed + [] == handed;
  }

  lemma WalkedToEnd(up: seq<Row>, start: int, end: int, maxChunks: Option<nat>, chunks: nat, cs: int, handed: seq<Row>)
    requires Walked(up, start, end, chunks, cs, handed) && end <= cs
    requires maxChunks.Some? ==> chunks <= maxChunks.value
    ensures maxChunks.Some? ==> end <= SliceEnd(start, maxChunks.value)
    ensures WindowRun(up, start, end, handed, MaxDate(handed), true)
    ensures start < end ==> CleanRun(up, start, end, maxChunks, handed)
  {
    MaxDateIsMax(handed);
    if start < end {
      assert chunks > 0 && cs == end <= SliceEnd(start, chunks);
    }
  }

  /** Walks [start, end) in day slices, pages through each, stops at the first failed request or at
      the slice limit. `fate(n)` decides the n-th request; `handed` lists the rows stored. */
  method SyncWindow(db: Database, up: seq<Row>, start: int, end: int, maxChunks: Option<nat>, fate: nat -> Fate)
    returns (upserted: nat, latest: Option<int>, complete: bool, stop: Stop,
             ghost handed: seq<Row>, ghost requests: nat)
    requires Catalogue(up)
    modifies db`store
    ensures db.store == Apply(old(db.store), handed) && upserted == |handed|
    ensures WindowRun(up, start, end, handed, latest, complete)
    ensures complete <==> stop == Finished
    ensures StoppedBy(fate, requests, stop)
    ensures stop == RunLimit ==> maxChunks.Some? && SliceEnd(start, maxChunks.value) < end
    ensures stop == Finished && maxChunks.Some? ==> end <= SliceEnd(start, maxChunks.value)
    ensures end <= start ==> handed == []
    ensures (stop == Finished || stop == RunLimit) && start < end && maxChunks != Some(0) ==>
      CleanRun(up, start, end, maxChunks, handed)
  {
    upserted, latest, handed, requests := 0, None, [], 0;
    var chunkStart, chunks, n := start, 0, 0;
    while chunkStart < end
      invariant Walked(up, start, end, chunks, chunkStart, handed)
      invariant maxChunks.Some? ==> chunks <= maxChunks.value
      invariant latest == MaxDate(handed) && upserted == |handed|
      invariant db.store == Apply(old(db.store), handed)
      invariant Answered(fate, n)
      decreases end - chunkStart
    {
      if maxChunks.Some? && chunks >= maxChunks.value {
        WalkedToLimit(up, start, end, chunks, chunkStart, handed);
        return upserted, latest, false, RunLimit, handed, n;
      }
      var chunkEnd := Min(chunkStart + CHUNK, end);
      ghost var read;
      n, upserted, latest, stop, read :=
        SyncSlice(db, up, Sec(chunkStart), Sec(chunkEnd), fate, n, upserted, latest, handed);
      ApplyConcat(old(db.store), handed, read);
      if stop != Finished {
        WalkedPart(up, start, end, chunks, chunkStart, chunkEnd, handed, read);
        return upserted, latest, false, stop, handed + read, n;
      }
      WalkedNext(up, start, end, chunks, chunkStart, chunkEnd, handed);
      handed := handed + read;
      chunks := chunks + 1;
      chunkStart := chunkEnd;
    }
    complete, stop, requests := true, Finished, n;
    WalkedToEnd(up, start, end, maxChunks, chunks, chunkStart, handed);
  }

  // ---- one run and the watermark -------------------------------------------

  function StartOf(mark: Option<int>, now: int): int {
    if mark.Some? then (mark.value - OVERLAP) * SECOND else now - INITIAL_LOOKBACK
  }

  /** The seconds a run reads when no request fails: from an hour before the watermark, or 72 hours before
      now without one, to a day after now, but at most 45 days. */
  ghost predicate InReach(mark: Option<int>, now: int, date: int) {
    && date * 1_000_000 <= now + 86_400_000_000
    && (mark.None? ==> now - 259_200_000_000 < (date + 1) * 1_000_000)
    && (mark.Some? ==>
          && (mark.value - 3600) * 1_000_000 < now + 86_400_000_000
          && mark.value - 3600 <= date <= mark.value - 3600 + 45 * 86_400)
  }

  /** Some row of the list is newer than the watermark. */
  ghost predicate HasNewer(rows: seq<Row>, mark: Option<int>) {
    exists r :: r in rows && (mark.None? || mark.value < r.date)
  }

  ghost predicate IsNewest(rows: seq<Row>, date: int) {
    && (exists r :: r in rows && r.date == date)
    && (forall r :: r in rows ==> r.date <= date)
  }

  lemma CleanRunReads(up: seq<Row>, mark: Option<int>, now: int, handed: seq<Row>, r: Row)
    requires StartOf(mark, now) < now + FUTURE_PAD
    requires CleanRun(up, StartOf(mark, now), now + FUTURE_PAD, Some(MAX_CHUNKS), handed)
    ensures r in handed <==> r in up && InReach(mark, now, r.date)
  {
    var start := StartOf(mark, now);
    if mark.Some? { assert SliceEnd(start, MAX_CHUNKS) == (mark.value - 3600 + 45 * 86_400) * SECOND; }
  }

  /** A run that fails nowhere reads what is in reach, and is complete unless that leaves a rest. */
  lemma AnsweredRun(up: seq<Row>, mark: Option<int>, now: int, handed: seq<Row>, stop: Stop)
    requires var (start, end) := (StartOf(mark, now), now + FUTURE_PAD);
             && (stop == Finished || stop == RunLimit)
             && (stop == RunLimit <==> SliceEnd(start, MAX_CHUNKS) < end)
             && (end <= start ==> handed == [])
             && (start < end ==> CleanRun(up, start, end, Some(MAX_CHUNKS), handed))
    ensures forall r :: r in handed <==> r in up && InReach(mark, now, r.date)
    ensures stop == Finished <==> mark.None? || now <= (mark.value - 3600 + 44 * 86_400) * 1_000_000
  {
    if StartOf(mark, now) < now + FUTURE_PAD {
      forall r ensures r in handed <==> r in up && InReach(mark, now, r.date) {
        CleanRunReads(up, mark, now, handed, r);
      }
    }
  }

  /** The watermark after a run no request of which failed: the newest date upstream within reach, if that
      is newer than the watermark before. */
  ghost predicate NewestInReach(up: seq<Row>, mark: Option<int>, now: int, after: Option<int>) {
    if exists r :: r in up && InReach(mark, now, r.date) && (mark.None? || mark.value < r.date)
    then && after.Some?
         && (exists r :: r in up && InReach(mark, now, r.date) && r.date == after.value)
         && (forall r :: r in up && InReach(mark, now, r.date) ==> r.date <= after.value)
    else after == mark
  }

  lemma HandedIsReach(up: seq<Row>, mark: Option<int>, now: int, handed: seq<Row>)
    requires forall r :: r in handed <==> r in up && InReach(mark, now, r.date)
    ensures NewestInReach(up, mark, now, Moved(mark, MaxDate(handed)))
  {
    MovedIsNewest(mark, handed);
    if HasNewer(handed, mark) {
      var r :| r in handed && (mark.None? || mark.value < r.date);
      assert r in up;
    }
  }

  lemma MovedIsNewest(mark: Option<int>, rows: seq<Row>)
    ensures var after := Moved(mark, MaxDate(rows));
            if HasNewer(rows, mark) then after.Some? && IsNewest(rows, after.value) else after == mark
  {
    MaxDateIsMax(rows);
  }

  function Moved(mark: Option<int>, latest: Option<int>): Option<int> {
    if latest.Some? && (mark.None? || latest.value > mark.value) then latest else mark
  }

  function Rewound(mark: Option<int>, target: int): int {
    if mark.Some? then Min(mark.value, target) else target
  }

  /** The scheduled run. When no request fails, the watermark moves exactly if some upstream row newer
      than it lies within reach of the run. */
  method SyncIncremental(db: Database, up: seq<Row>, now: int, fate: nat -> Fate)
    returns (upserted: nat, mark: Option<int>, complete: bool, stop: Stop,
             ghost handed: seq<Row>, ghost latest: Option<int>, ghost requests: nat)
    requires Catalogue(up)
    modifies db
    ensures db.store == Apply(old(db.store), handed) && upserted == |handed|
    ensures WindowRun(up, StartOf(old(db.mark), now), now + FUTURE_PAD, handed, latest, complete)
    ensures mark == db.mark == Moved(old(db.mark), latest)
    ensures if HasNewer(handed, old(db.mark)) then mark.Some? && IsNewest(handed, mark.value) else mark == old(db.mark)
    ensures complete <==> stop == Finished
    ensures StoppedBy(fate, requests, stop)
    ensures Answered(fate, requests) ==>
      && (forall r :: r in handed <==> r in up && InReach(old(db.mark), now, r.date))
      && (complete <==> old(db.mark).None? || now <= (old(db.mark).value - 3600 + 44 * 86_400) * 1_000_000)
      && NewestInReach(up, old(db.mark), now, mark)
    ensures Answered(fate, requests) && StartOf(old(db.mark), now) < now + FUTURE_PAD ==>
      (db.mark != old(db.mark) <==> HasNewRow(up, old(db.mark), now))
  {
    var start, end := StartOf(db.mark, now), now + FUTURE_PAD;
    var newest;
    upserted, newest, complete, stop, handed, requests := SyncWindow(db, up, start, end, Some(MAX_CHUNKS), fate);
    latest := newest;
    MovedIsNewest(db.mark, handed);
    if stop == Finished || stop == RunLimit {
      AnsweredRun(up, db.mark, now, handed, stop);
      HandedIsReach(up, db.mark, now, handed);
      if start < end { CleanRunMovesExactly(up, db.mark, now, handed); }
    }
    if newest.Some? && (db.mark.None? || newest.value > db.mark.value) {
      db.mark := newest;
    }
    mark := db.mark;
  }

  /** Some row newer than the watermark lies in the slices a run may read. */
  ghost predicate HasNewRow(up: seq<Row>, mark: Option<int>, now: int) {
    var start := StartOf(mark, now);
    exists r :: r in up && Sec(start) <= r.date <= Reach(start, now + FUTURE_PAD, Some(MAX_CHUNKS))
      && (mark.Some? ==> mark.value < r.date)
  }

  lemma CleanRunMovesExactly(up: seq<Row>, mark: Option<int>, now: int, handed: seq<Row>)
    requires CleanRun(up, StartOf(mark, now), now + FUTURE_PAD, Some(MAX_CHUNKS), handed)
    ensures Moved(mark, MaxDate(handed)) != mark <==> HasNewRow(up, mark, now)
  {
    MaxDateIsMax(handed);
    if handed != [] {
      var top :| top in handed && top.date == MaxDate(handed).value;
    }
  }

  /** A hole of 46 days in what ComicVine edited stops the sync for good: every run that fails nowhere
      ends with the watermark it began with, whenever it runs. */
  lemma HoleStopsSync(m: int, now: int, handed: seq<Row>)
    requires var up := [Row(1, m, 0), Row(2, m + 46 * 86400, 0)];
             CleanRun(up, StartOf(Some(m), now), now + FUTURE_PAD, Some(MAX_CHUNKS), handed)
    ensures Moved(Some(m), MaxDate(handed)) == Some(m)
  {
    var up := [Row(1, m, 0), Row(2, m + 46 * 86400, 0)];
    CleanRunMovesExactly(up, Some(m), now, handed);
    var start := StartOf(Some(m), now);
    assert Reach(start, now + FUTURE_PAD, Some(MAX_CHUNKS)) <= Sec(SliceEnd(start, MAX_CHUNKS));
    assert SliceEnd(start, MAX_CHUNKS) == (m - OVERLAP + MAX_CHUNKS * 86400) * SECOND;
  }

  /** The rewind job: back to `target`, never forward. */
  method RewindSync(db: Database, target: int) returns (previous: Option<int>)
    modifies db`mark
    ensures previous == old(db.mark) && db.mark == Some(Rewound(previous, target))
    ensures db.mark.Some? && db.mark.value <= target
    ensures previous.Some? ==> db.mark.value <= previous.value
    ensures db.mark.value == target || db.mark == previous
  {
    previous := db.mark;
    db.mark := Some(if previous.Some? then Min(previous.value, target) else target);
  }
}
