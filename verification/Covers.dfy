/** The cover hash backfill: bounded runs over the newest issues without hashes, one issue's covers all
    stored or none. */
module Covers {
  import opened Wrappers

  /** What ComicVine's image CDN answers for a URL. `Unusable` is a URL outside the CDN, or an image that
      is too large or cannot be read. */
  datatype Answer = Image(phash: string, ahash: string) | HttpError(code: nat) | NetworkError | Unusable

  datatype Cover = Cover(url: string, answer: Answer) {
    /** The placeholder is never downloaded. */
    predicate Placeholder() { EndsWith(url, "/6373148-blank.png") }

    /** An answer after which the run asks for nothing more. */
    predicate Stops() {
      !Placeholder() && (answer.NetworkError? || (answer.HttpError? && (answer.code == 429 || answer.code >= 500)))
    }
  }

  predicate EndsWith(s: string, suffix: string) {
    |suffix| <= |s| && s[|s| - |suffix|..] == suffix
  }

  lemma EndsWithExactly(s: string, suffix: string)
    ensures EndsWith(s, suffix) <==> exists start :: s == start + suffix
  {
    if EndsWith(s, suffix) { assert s == s[..|s| - |suffix|] + suffix; }
  }

  datatype Candidate = Candidate(id: nat, covers: seq<Cover>)

  /** A row of comic_covers; an image that cannot be hashed is stored without hashes. */
  datatype Row = Row(id: nat, hashes: Option<(string, string)>, url: string)

  function RowOf(id: nat, c: Cover): Row {
    Row(id, if !c.Placeholder() && c.answer.Image? then Some((c.answer.phash, c.answer.ahash)) else None, c.url)
  }

  /** What stops a run: no connection, too many requests, or a server error. An image that is gone, outside
      the CDN or unreadable does not, and the placeholder never does. */
  lemma WhatStops(url: string, code: nat, phash: string, ahash: string)
    ensures !EndsWith(url, "/6373148-blank.png") ==>
      && Cover(url, NetworkError).Stops() && Cover(url, HttpError(429)).Stops()
      && (code != 429 ==> (Cover(url, HttpError(code)).Stops() <==> 500 <= code))
    ensures !Cover(url, Unusable).Stops() && !Cover(url, Image(phash, ahash)).Stops()
    ensures forall answer :: EndsWith(url, "/6373148-blank.png") ==> !Cover(url, answer).Stops()
  {}

  /** The row says what came of the cover: its two hashes, each in its column, exactly if an image was
      downloaded. Of a cover that could not be asked for there is no row. */
  ghost predicate MadeFrom(row: Row, c: Candidate, k: nat) {
    && k < |c.covers| && row.id == c.id && row.url == c.covers[k].url
    && var (answer, blank) := (c.covers[k].answer, EndsWith(row.url, "/6373148-blank.png"));
    && (answer.Image? && !blank ==> row.hashes == Some((answer.phash, answer.ahash)))
    && (!answer.Image? || blank ==> row.hashes == None)
    && (blank || (answer != NetworkError && answer != HttpError(429)))
    && (blank || (answer.HttpError? ==> answer.code < 500))
  }

  function RowsOf(id: nat, covers: seq<Cover>): seq<Row> {
    seq(|covers|, k requires 0 <= k < |covers| => RowOf(id, covers[k]))
  }

  function AllRows(cs: seq<Candidate>): seq<Row> {
    if cs == [] then [] else AllRows(cs[..|cs| - 1]) + RowsOf(cs[|cs| - 1].id, cs[|cs| - 1].covers)
  }

  function HashedIn(rows: seq<Row>): (n: nat)
    ensures n <= |rows|
  {
    if rows == [] then 0 else HashedIn(rows[..|rows| - 1]) + if rows[|rows| - 1].hashes.Some? then 1 else 0
  }

  lemma {:induction false} HashedInCounts(rows: seq<Row>)
    ensures HashedIn(rows) == |set i | 0 <= i < |rows| && rows[i].hashes.Some?|
  {
    if rows != [] {
      var init, last := rows[..|rows| - 1], rows[|rows| - 1];
      HashedInCounts(init);
      assert (set i | 0 <= i < |rows| && rows[i].hashes.Some?)
          == (set i | 0 <= i < |init| && init[i].hashes.Some?) + if last.hashes.Some? then {|rows| - 1} else {};
    }
  }

  lemma {:induction false} HashedInConcat(a: seq<Row>, b: seq<Row>)
    ensures HashedIn(a + b) == HashedIn(a) + HashedIn(b)
  {
    if b == [] {
      assert a + b == a;
    } else {
      assert (a + b)[..|a + b| - 1] == a + b[..|b| - 1];
      HashedInConcat(a, b[..|b| - 1]);
    }
  }

  /** The first cover that stops the run, or the number of covers. */
  function FirstStop(covers: seq<Cover>): (k: nat)
    ensures k <= |covers| && (k < |covers| ==> covers[k].Stops())
    ensures forall i :: 0 <= i < k ==> !covers[i].Stops()
  {
    if covers == [] then 0
    else
      var k := FirstStop(covers[..|covers| - 1]);
      if k < |covers| - 1 || covers[k].Stops() then k else |covers|
  }

  /** The covers of candidate `n` would take the run over the limit. Its first issue never does. */
  predicate Over(cs: seq<Candidate>, limit: nat, n: nat)
    requires n < |cs|
  {
    var done := |AllRows(cs[..n])|;
    done != 0 && done + |cs[n].covers| > limit
  }

  predicate Stopped(cs: seq<Candidate>, limit: nat, n: nat) {
    n < |cs| && !Over(cs, limit, n) && FirstStop(cs[n].covers) < |cs[n].covers|
  }

  /** A run ends before candidate `n`: it is out of candidates, would exceed the limit or was stopped. */
  predicate EndsAt(cs: seq<Candidate>, limit: nat, n: nat) {
    n >= |cs| || Over(cs, limit, n) || Stopped(cs, limit, n)
  }

  /** How many candidates a run finishes. */
  function Finished(cs: seq<Candidate>, limit: nat, from: nat := 0): (n: nat)
    requires from <= |cs|
    ensures from <= n <= |cs| && EndsAt(cs, limit, n)
    ensures forall i :: from <= i < n ==> !EndsAt(cs, limit, i)
    decreases |cs| - from
  {
    if EndsAt(cs, limit, from) then from else Finished(cs, limit, from + 1)
  }

  ghost predicate MadeFromOneOf(row: Row, cs: seq<Candidate>) {
    exists j, k :: 0 <= j < |cs| && MadeFrom(row, cs[j], k)
  }

  lemma StillMadeFrom(row: Row, cs: seq<Candidate>)
    requires cs != [] && MadeFromOneOf(row, cs[..|cs| - 1])
    ensures MadeFromOneOf(row, cs)
  {
    var j, k :| 0 <= j < |cs| - 1 && MadeFrom(row, cs[..|cs| - 1][j], k);
    assert MadeFrom(row, cs[j], k);
  }

  lemma {:induction false} RowsAreMade(cs: seq<Candidate>, row: Row)
    requires forall j :: 0 <= j < |cs| ==> FirstStop(cs[j].covers) == |cs[j].covers|
    requires row in AllRows(cs)
    ensures MadeFromOneOf(row, cs)
  {
    var init, last := cs[..|cs| - 1], cs[|cs| - 1];
    if row in AllRows(init) {
      RowsAreMade(init, row);
      StillMadeFrom(row, cs);
    } else {
      var k :| 0 <= k < |last.covers| && row == RowsOf(last.id, last.covers)[k];
      assert MadeFrom(row, cs[|cs| - 1], k);
    }
  }

  /** Every row a run stores comes from a cover of an issue it finished. */
  lemma StoredAreMade(cs: seq<Candidate>, limit: nat)
    ensures var done := cs[..Finished(cs, limit)]; forall row :: row in AllRows(done) ==> MadeFromOneOf(row, done)
  {
    var done := cs[..Finished(cs, limit)];
    forall j | 0 <= j < |done| ensures FirstStop(done[j].covers) == |done[j].covers| {
      assert !EndsAt(cs, limit, j);
    }
    forall row | row in AllRows(done) ensures MadeFromOneOf(row, done) { RowsAreMade(done, row); }
  }

  lemma FinishedNext(cs: seq<Candidate>, limit: nat, n: nat)
    requires n < |cs| && !Over(cs, limit, n) && FirstStop(cs[n].covers) == |cs[n].covers|
    ensures Finished(cs, limit, n) == Finished(cs, limit, n + 1)
    ensures AllRows(cs[..n + 1]) == AllRows(cs[..n]) + RowsOf(cs[n].id, cs[n].covers[..FirstStop(cs[n].covers)])
  {
    SizeOfNext(cs, n);
    assert cs[n].covers[..|cs[n].covers|] == cs[n].covers;
  }

  /** The rows a run makes, with those of an issue it was stopped in, which it does not store. */
  function Attempted(cs: seq<Candidate>, limit: nat): seq<Row> {
    var n := Finished(cs, limit);
    AllRows(cs[..n]) + if Stopped(cs, limit, n) then RowsOf(cs[n].id, cs[n].covers[..FirstStop(cs[n].covers)]) else []
  }

  /** As the candidates are made: every one has its main cover. */
  predicate HaveCovers(cs: seq<Candidate>) { forall i :: 0 <= i < |cs| ==> cs[i].covers != [] }

  lemma SizeOfNext(cs: seq<Candidate>, n: nat)
    requires n < |cs|
    ensures AllRows(cs[..n + 1]) == AllRows(cs[..n]) + RowsOf(cs[n].id, cs[n].covers)
  {
    assert cs[..n + 1][..n] == cs[..n];
  }

  /** A run makes no more rows than the limit, or than its first issue has covers. */
  lemma AttemptedIsBounded(cs: seq<Candidate>, limit: nat)
    requires cs != [] && HaveCovers(cs)
    ensures |Attempted(cs, limit)| <= Max(limit, |cs[0].covers|)
  {
    var n := Finished(cs, limit);
    assert cs[..0] == [];
    if n > 0 {
      SizeOfNext(cs, n - 1);
      assert !EndsAt(cs, limit, n - 1);
      if n > 1 { SizeOfNext(cs, n - 2); }
    }
  }

  /** A run gets anything done exactly if the newest candidate does not stop it: while that image keeps
      failing on the server, no older issue is hashed. */
  lemma NewestBlocksTheRest(cs: seq<Candidate>, limit: nat)
    requires cs != []
    ensures Finished(cs, limit) > 0 <==> forall i :: 0 <= i < |cs[0].covers| ==> !cs[0].covers[i].Stops()
    ensures Finished(cs, limit) == 0 ==> AllRows(cs[..Finished(cs, limit)]) == []
  {
    assert cs[..0] == [];
    assert !Over(cs, limit, 0);
    assert EndsAt(cs, limit, 0) <==> Stopped(cs, limit, 0);
  }

  /** What a run counts is what it stores exactly if it is not stopped, or stopped by the first cover of an
      issue. */
  lemma CountsAreRowsExactly(cs: seq<Candidate>, limit: nat)
    ensures var n := Finished(cs, limit);
            |Attempted(cs, limit)| == |AllRows(cs[..n])| <==> !Stopped(cs, limit, n) || FirstStop(cs[n].covers) == 0
  {
    var n := Finished(cs, limit);
    if Stopped(cs, limit, n) {
      assert |RowsOf(cs[n].id, cs[n].covers[..FirstStop(cs[n].covers)])| == FirstStop(cs[n].covers);
    }
  }

  /** Issue 9's second image answers 500: whatever the limit, the run counts its first image as hashed and
      stores nothing. */
  lemma HashIsCountedAndDropped(limit: nat)
    ensures var cs := [Candidate(9, [Cover("https://a/1.jpg", Image("1", "2")),
                                     Cover("https://a/2.jpg", HttpError(500))])];
            && Stopped(cs, limit, 0) && AllRows(cs[..Finished(cs, limit)]) == []
            && HashedIn(Attempted(cs, limit)) == 1
  {
    var a, b := Cover("https://a/1.jpg", Image("1", "2")), Cover("https://a/2.jpg", HttpError(500));
    var cs := [Candidate(9, [a, b])];
    assert cs[0].covers[1] == b && b.Stops() && !a.Stops();
    assert FirstStop([a, b]) == 1;
    NewestBlocksTheRest(cs, limit);
    var row := RowOf(9, a);
    assert !a.Placeholder() && row.hashes.Some?;
    assert RowsOf(9, [a, b][..1]) == [row];
    assert [] + [row] == [row] && [row][..0] == [];
    assert cs[..0] == [];
  }

  /** Issue 9's image always answers 500: no run with any limit hashes the older issue 8. */
  lemma OneImageHoldsUpTheRest(limit: nat)
    ensures var cs := [Candidate(9, [Cover("https://a/9.jpg", HttpError(500))]),
                       Candidate(8, [Cover("https://a/8.jpg", Image("1", "2"))])];
            var twice := [Run(cs, limit), Run(cs, limit)];
            Finished(cs, limit) == 0 && Legal(twice) && History(twice) == []
  {
    var cover := Cover("https://a/9.jpg", HttpError(500));
    var cs := [Candidate(9, [cover]), Candidate(8, [Cover("https://a/8.jpg", Image("1", "2"))])];
    NewestBlocksTheRest(cs, limit);
    assert cs[0].covers[0] == cover && cover.Stops();
    var run := Run(cs, limit);
    assert [run, run][..1] == [run] && [run][..0] == [];
    assert Selected([], cs);
    assert History([run]) == [];
  }

  // ---- many runs -----------------------------------------------------------

  function RowsFor(rows: seq<Row>, id: nat): seq<Row> {
    if rows == [] then []
    else RowsFor(rows[..|rows| - 1], id) + if rows[|rows| - 1].id == id then [rows[|rows| - 1]] else []
  }

  lemma {:induction false} RowsForConcat(a: seq<Row>, b: seq<Row>, id: nat)
    ensures RowsFor(a + b, id) == RowsFor(a, id) + RowsFor(b, id)
  {
    if b == [] {
      assert a + b == a;
    } else {
      assert (a + b)[..|a + b| - 1] == a + b[..|b| - 1];
      RowsForConcat(a, b[..|b| - 1], id);
    }
  }

  lemma {:induction false} RowsForOne(rows: seq<Row>, owner: nat, id: nat)
    requires forall i :: 0 <= i < |rows| ==> rows[i].id == owner
    ensures RowsFor(rows, id) == if id == owner then rows else []
  {
    if rows != [] {
      RowsForOne(rows[..|rows| - 1], owner, id);
      assert rows == rows[..|rows| - 1] + [rows[|rows| - 1]];
    }
  }

  /** The candidate with an ID. */
  function Find(cs: seq<Candidate>, id: nat): Option<Candidate> {
    if cs == [] then None
    else if cs[|cs| - 1].id == id then Some(cs[|cs| - 1]) else Find(cs[..|cs| - 1], id)
  }

  predicate Distinct(cs: seq<Candidate>) {
    forall i, j :: 0 <= i < j < |cs| ==> cs[i].id != cs[j].id
  }

  lemma {:induction false} FindIsAny(cs: seq<Candidate>, id: nat)
    ensures Find(cs, id).None? <==> forall i :: 0 <= i < |cs| ==> cs[i].id != id
    ensures Find(cs, id).Some? ==> Find(cs, id).value in cs && Find(cs, id).value.id == id
  {
    if cs != [] { FindIsAny(cs[..|cs| - 1], id); }
  }

  lemma {:induction false} RowsForCandidates(cs: seq<Candidate>, id: nat)
    requires Distinct(cs)
    ensures RowsFor(AllRows(cs), id) == match Find(cs, id) case None => [] case Some(c) => RowsOf(id, c.covers)
  {
    if cs != [] {
      var front, last := cs[..|cs| - 1], cs[|cs| - 1];
      RowsForCandidates(front, id);
      RowsForConcat(AllRows(front), RowsOf(last.id, last.covers), id);
      RowsForOne(RowsOf(last.id, last.covers), last.id, id);
      if last.id == id {
        FindIsAny(front, id);
        assert RowsFor(AllRows(front), id) == [];
      }
    }
  }

  /** A run of the backfill, or a deletion of the covers of whole issues. */
  datatype Change = Run(cs: seq<Candidate>, limit: nat) | Drop(ids: set<nat>)

  function WithoutIds(rows: seq<Row>, ids: set<nat>): seq<Row> {
    if rows == [] then []
    else WithoutIds(rows[..|rows| - 1], ids) + if rows[|rows| - 1].id in ids then [] else [rows[|rows| - 1]]
  }

  lemma {:induction false} RowsForWithout(rows: seq<Row>, ids: set<nat>, id: nat)
    ensures RowsFor(WithoutIds(rows, ids), id) == if id in ids then [] else RowsFor(rows, id)
  {
    if rows != [] {
      var last := rows[|rows| - 1];
      RowsForWithout(rows[..|rows| - 1], ids, id);
      RowsForConcat(WithoutIds(rows[..|rows| - 1], ids), if last.id in ids then [] else [last], id);
      RowsForOne([last], last.id, id);
      RowsForOne([], last.id, id);
    }
  }

  function Changed(rows: seq<Row>, c: Change): seq<Row> {
    match c
    case Run(cs, limit) => rows + AllRows(cs[..Finished(cs, limit)])
    case Drop(ids) => WithoutIds(rows, ids)
  }

  function History(changes: seq<Change>): seq<Row> {
    if changes == [] then [] else Changed(History(changes[..|changes| - 1]), changes[|changes| - 1])
  }

  /** The candidates of a run: distinct issues with an image that have no row. */
  ghost predicate Selected(rows: seq<Row>, cs: seq<Candidate>) {
    Distinct(cs) && forall i :: 0 <= i < |cs| ==> cs[i].covers != [] && RowsFor(rows, cs[i].id) == []
  }

  ghost predicate Legal(changes: seq<Change>) {
    changes == [] ||
    var (before, c) := (changes[..|changes| - 1], changes[|changes| - 1]);
    Legal(before) && (c.Run? ==> Selected(History(before), c.cs))
  }

  /** As what an issue was hashed since its covers were last deleted: by the run that finished it. */
  function HashedAs(changes: seq<Change>, id: nat): Option<Candidate> {
    if changes == [] then None
    else
      var before := HashedAs(changes[..|changes| - 1], id);
      match changes[|changes| - 1]
      case Run(cs, limit) => if before.Some? then before else Find(cs[..Finished(cs, limit)], id)
      case Drop(ids) => if id in ids then None else before
  }

  /** Over every sequence of runs and deletions, whatever images fail: an issue has no rows at all, or
      exactly one row for each of its covers, all made by one run. No issue is hashed twice. */
  lemma {:induction false} WholeIssuesOnce(changes: seq<Change>, id: nat)
    requires Legal(changes)
    ensures RowsFor(History(changes), id) ==
      match HashedAs(changes, id) case None => [] case Some(c) => RowsOf(id, c.covers)
    ensures HashedAs(changes, id).Some? ==> HashedAs(changes, id).value.covers != []
  {
    if changes != [] {
      var before, c := changes[..|changes| - 1], changes[|changes| - 1];
      WholeIssuesOnce(before, id);
      match c
      case Drop(ids) => RowsForWithout(History(before), ids, id);
      case Run(cs, limit) =>
        var finished := cs[..Finished(cs, limit)];
        RowsForConcat(History(before), AllRows(finished), id);
        RowsForCandidates(finished, id);
        FindIsAny(finished, id);
    }
  }

  // ---- what a run leaves behind --------------------------------------------

  /** New rows go behind the old ones, and each comes from a cover of one of the first `n` candidates. */
  ghost predicate StoresOnly(before: seq<Row>, after: seq<Row>, cs: seq<Candidate>, n: nat) {
    n <= |cs| && before <= after && forall row :: row in after[|before|..] ==> MadeFromOneOf(row, cs[..n])
  }

  /** The counts are those of the new rows. */
  ghost predicate CountsStored(before: seq<Row>, after: seq<Row>, hashed: nat, failed: nat) {
    && before <= after
    && var made := after[|before|..];
    hashed == |set i | 0 <= i < |made| && made[i].hashes.Some?| && hashed + failed == |made|
  }

  /** A run ends early only when it has made rows and the next candidate would exceed the limit. */
  ghost predicate NoRoom(before: seq<Row>, after: seq<Row>, cs: seq<Candidate>, limit: nat, n: nat) {
    n < |cs| ==> |before| < |after| && |after| - |before| + |cs[n].covers| > limit
  }

  lemma RunStores(before: seq<Row>, cs: seq<Candidate>, limit: nat)
    ensures var n, after := Finished(cs, limit), Changed(before, Run(cs, limit));
            && StoresOnly(before, after, cs, n)
            && (!Stopped(cs, limit, n) ==>
                  var made := Attempted(cs, limit);
                  && CountsStored(before, after, HashedIn(made), |made| - HashedIn(made))
                  && NoRoom(before, after, cs, limit, n))
  {
    var n := Finished(cs, limit);
    var made := AllRows(cs[..n]);
    StoredAreMade(cs, limit);
    HashedInCounts(made);
    assert (before + made)[|before|..] == made && made + [] == made;
  }

  // ---- the code ------------------------------------------------------------

  datatype Stop = Completed | CdnError | NothingToDo

  datatype Report = Report(hashed: nat, failed: nat, issues: nat, stop: Stop)

  class Database {
    var rows: seq<Row>

    constructor ()
      ensures rows == []
    { rows := []; }

    /** The covers of one issue, up to the first that stops the run. */
    static method HashIssue(c: Candidate) returns (batch: seq<Row>, hashed: nat, failed: nat, stopped: bool)
      ensures stopped <==> FirstStop(c.covers) < |c.covers|
      ensures batch == RowsOf(c.id, c.covers[..FirstStop(c.covers)])
      ensures hashed == HashedIn(batch) && hashed + failed == |batch|
    {
      batch, hashed, failed := [], 0, 0;
      var k := 0;
      while k < |c.covers|
        invariant 0 <= k <= |c.covers| && batch == RowsOf(c.id, c.covers[..k])
        invariant forall i :: 0 <= i < k ==> !c.covers[i].Stops()
        invariant hashed == HashedIn(batch) && hashed + failed == |batch|
      {
        var cover := c.covers[k];
        if cover.Stops() {
          assert FirstStop(c.covers) == k;
          return batch, hashed, failed, true;
        }
        HashedInConcat(batch, [RowOf(c.id, cover)]);
        assert [RowOf(c.id, cover)][..0] == [];
        batch := batch + [RowOf(c.id, cover)];
        if !cover.Placeholder() && cover.answer.Image? { hashed := hashed + 1; } else { failed := failed + 1; }
        k := k + 1;
      }
      stopped := false;
    }

    /** `rows` grows by the full rows of a prefix of the candidates, in every case. After a CDN error the
        counts include the covers of the unfinished issue, whose rows are dropped. */
    method HashCovers(cs: seq<Candidate>, limit: nat) returns (r: Report)
      modifies this
      ensures rows == Changed(old(rows), Run(cs, limit)) && r.issues == Finished(cs, limit)
      ensures r.hashed == HashedIn(Attempted(cs, limit)) && r.hashed + r.failed == |Attempted(cs, limit)|
      ensures r.stop == if cs == [] then NothingToDo else if Stopped(cs, limit, r.issues) then CdnError else Completed
      ensures StoresOnly(old(rows), rows, cs, r.issues)
      ensures r.stop == Completed ==>
        CountsStored(old(rows), rows, r.hashed, r.failed) && NoRoom(old(rows), rows, cs, limit, r.issues)
      ensures cs != [] && HaveCovers(cs) ==> r.hashed + r.failed <= Max(limit, |cs[0].covers|)
    {
      var hashed: nat, failed: nat, issues: nat := 0, 0, 0;
      var stop := if cs == [] then NothingToDo else Completed;
      ghost var made: seq<Row> := [];
      assert cs[..0] == [];
      while issues < |cs|
        invariant issues <= |cs| && Finished(cs, limit) == Finished(cs, limit, issues)
        invariant made == AllRows(cs[..issues]) && rows == old(rows) + made
        invariant hashed == HashedIn(made) && hashed + failed == |made|
        invariant stop == if cs == [] then NothingToDo else Completed
      {
        var c := cs[issues];
        if hashed + failed != 0 && hashed + failed + |c.covers| > limit { break; }
        var batch, h, f, stopped := HashIssue(c);
        HashedInConcat(made, batch);
        hashed, failed := hashed + h, failed + f;
        if stopped {
          stop := CdnError;
          break;
        }
        FinishedNext(cs, limit, issues);
        SeqAssoc(old(rows), made, batch);
        rows, made := rows + batch, made + batch;
        issues := issues + 1;
      }
      assert made + [] == made;
      r := Report(hashed, failed, issues, stop);
      RunStores(old(rows), cs, limit);
      if cs != [] && HaveCovers(cs) { AttemptedIsBounded(cs, limit); }
    }

    /** The URLs of an issue's covers: the main cover, then the variants that are not listed yet. */
    static method CoverUrls(main: string, variants: seq<Option<string>>) returns (urls: seq<string>)
      ensures urls != [] && urls[0] == main
      ensures forall i, j :: 0 <= i < j < |urls| ==> urls[i] != urls[j]
      ensures forall u :: u in urls <==> u == main || (u != "" && Some(u) in variants)
    {
      urls := [main];
      var i := 0;
      while i < |variants|
        invariant 0 <= i <= |variants| && urls != [] && urls[0] == main
        invariant forall i, j :: 0 <= i < j < |urls| ==> urls[i] != urls[j]
        invariant forall u :: u in urls <==> u == main || (u != "" && Some(u) in variants[..i])
      {
        if variants[i].Some? && variants[i].value != "" && variants[i].value !in urls {
          urls := urls + [variants[i].value];
        }
        i := i + 1;
      }
    }
  }
}
