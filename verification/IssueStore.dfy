/** The cached issue rows: list and detail responses merged into one row, and what
    `detail_fetched_at` says about it. */
module IssueStore {
  import opened Wrappers

  /** An issue as ComicVine sends it. `id` 0 is a missing ID; `year` is the year of its release date if
      that has one; `credits` are the detail-only fields present, "" standing for an empty one. */
  datatype Response = Response(id: nat, volume: Option<nat>, year: Option<int>, updated: Option<string>,
                               fields: map<string, string>, credits: map<string, string>)
  {
    predicate IsDetail() { credits != map[] }

    function Columns(): ListColumns { ListColumns(volume, updated, fields) }
  }

  datatype ListColumns = ListColumns(volume: Option<nat>, updated: Option<string>, fields: map<string, string>)

  /** `detail` holds the detail columns that are not NULL. */
  datatype Row = Row(columns: ListColumns, detail: map<string, string>, fetchedAt: Option<int>, missing: bool)

  function NonEmpty(credits: map<string, string>): map<string, string> {
    map f | f in credits && credits[f] != "" :: credits[f]
  }

  /** What is written to the table: an accepted response, a mark or a deletion. */
  datatype Write = Put(data: Response, now: int) | MarkMissing(id: nat) | Delete(id: nat)

  function Apply(rows: map<nat, Row>, w: Write): map<nat, Row> {
    match w
    case Delete(id) => rows - {id}
    case MarkMissing(id) => if id in rows then rows[id := rows[id].(missing := true)] else rows
    case Put(data, now) =>
      if data.IsDetail() then rows[data.id := Row(data.Columns(), NonEmpty(data.credits), Some(now), false)]
      else if data.id in rows then
        var row := rows[data.id];
        rows[data.id := Row(data.Columns(), row.detail,
                            if row.columns.updated == data.updated then row.fetchedAt else None, false)]
      else rows[data.id := Row(data.Columns(), map[], None, false)]
  }

  function Replay(log: seq<Write>): map<nat, Row> {
    if log == [] then map[] else Apply(Replay(log[..|log| - 1]), log[|log| - 1])
  }

  // ---- the history of one issue --------------------------------------------

  predicate Concerns(w: Write, id: nat) {
    match w case Put(data, _) => data.id == id case MarkMissing(_) => false case Delete(d) => d == id
  }

  /** The last write of an accepted response for `id`, with no deletion after it. */
  ghost predicate ResponseAt(log: seq<Write>, k: int, id: nat) {
    && 0 <= k < |log| && log[k].Put? && log[k].data.id == id
    && (forall j :: k < j < |log| ==> log[j] != Delete(id))
    && (forall j :: k < j < |log| && log[j].Put? ==> log[j].data.id != id)
  }

  /** The last write of a response with credits for `id`, with no deletion after it. */
  ghost predicate DetailAt(log: seq<Write>, k: int, id: nat) {
    && 0 <= k < |log| && log[k].Put? && log[k].data.id == id && log[k].data.credits != map[]
    && (forall j :: k < j < |log| ==> log[j] != Delete(id))
    && (forall j :: k < j < |log| && log[j].Put? && log[j].data.id == id ==> log[j].data.credits == map[])
  }

  /** Every response for `id` after place `k` carries the date of the one at `k`. */
  ghost predicate DateKept(log: seq<Write>, k: int, id: nat)
    requires 0 <= k < |log| && log[k].Put?
  {
    forall j :: k < j < |log| && log[j].Put? && log[j].data.id == id ==> log[j].data.updated == log[k].data.updated
  }

  /** Marked as lost after the last response. */
  ghost predicate MarkedAt(log: seq<Write>, k: int, id: nat) {
    && 0 <= k < |log| && log[k] == MarkMissing(id)
    && (forall j :: k < j < |log| ==> log[j] != Delete(id))
    && (forall j :: k < j < |log| && log[j].Put? ==> log[j].data.id != id)
  }

  /** The row a response leaves in its list columns. */
  predicate Lists(row: Row, data: Response) {
    row.columns.volume == data.volume && row.columns.updated == data.updated && row.columns.fields == data.fields
  }

  /** The detail columns are the credits of the response that are not empty. */
  ghost predicate Details(row: Row, data: Response) {
    && (forall f :: f in row.detail <==> f in data.credits && data.credits[f] != "")
    && (forall f :: f in row.detail ==> row.detail[f] == data.credits[f])
  }

  /** The list columns of a row are those of the last response since the last deletion. */
  lemma {:induction false} RowHasResponse(log: seq<Write>, id: nat)
    ensures id in Replay(log) ==> exists k :: ResponseAt(log, k, id) && Lists(Replay(log)[id], log[k].data)
    ensures id !in Replay(log) ==> forall k :: !ResponseAt(log, k, id)
  {
    if log != [] {
      var init, w := log[..|log| - 1], log[|log| - 1];
      RowHasResponse(init, id);
      if Concerns(w, id) {
        if w.Put? { assert ResponseAt(log, |log| - 1, id); }
        forall k | ResponseAt(log, k, id) ensures k == |log| - 1 && w.Put? { assert log[|log| - 1] == w; }
      } else {
        forall k ensures ResponseAt(log, k, id) <==> ResponseAt(init, k, id) { Shorter(log, k, id); }
      }
    }
  }

  lemma Shorter(log: seq<Write>, k: int, id: nat)
    requires log != [] && !Concerns(log[|log| - 1], id)
    ensures var init := log[..|log| - 1];
            && (ResponseAt(log, k, id) <==> ResponseAt(init, k, id))
            && (DetailAt(log, k, id) <==> DetailAt(init, k, id))
            && (DetailAt(init, k, id) ==> (DateKept(log, k, id) <==> DateKept(init, k, id)))
  {
    var init, last := log[..|log| - 1], log[|log| - 1];
    assert last != Delete(id) && (last.Put? ==> last.data.id != id);
    assert forall j :: 0 <= j < |init| ==> init[j] == log[j];
    if DetailAt(init, k, id) && DateKept(init, k, id) {
      forall j | k < j < |log| && log[j].Put? && log[j].data.id == id
        ensures log[j].data.updated == log[k].data.updated
      {
        assert log[j] == init[j];
      }
    }
    if 0 <= k < |init| && init[k].Put? && DateKept(log, k, id) {
      forall j | k < j < |init| && init[j].Put? && init[j].data.id == id
        ensures init[j].data.updated == init[k].data.updated
      {
        assert init[j] == log[j];
      }
    }
  }

  /** What a row says about the details: nothing if no response with credits came since the last deletion;
      otherwise the credits of the last such response, stamped with its time exactly if every response
      since then carries its date. */
  ghost predicate TellsDetail(row: Row, log: seq<Write>, id: nat) {
    || (row.detail == map[] && row.fetchedAt.None? && forall k :: !DetailAt(log, k, id))
    || (exists k :: DetailIs(row, log, k, id))
  }

  ghost predicate DetailIs(row: Row, log: seq<Write>, k: int, id: nat) {
    && DetailAt(log, k, id) && Details(row, log[k].data)
    && row.fetchedAt == if DateKept(log, k, id) then Some(log[k].now) else None
  }

  lemma {:induction false} RowHasDetail(log: seq<Write>, id: nat)
    ensures id in Replay(log) ==> TellsDetail(Replay(log)[id], log, id)
    ensures id !in Replay(log) ==> forall k :: !DetailAt(log, k, id)
  {
    if log != [] {
      var init, w := log[..|log| - 1], log[|log| - 1];
      RowHasDetail(init, id);
      if w == Delete(id) {
        forall k ensures !DetailAt(log, k, id) { assert log[|log| - 1] == w; }
      } else if !Concerns(w, id) {
        if id in Replay(init) {
          NotConcerned(log, id);
        } else {
          forall k ensures !DetailAt(log, k, id) { Shorter(log, k, id); }
        }
      } else if w.data.credits != map[] {
        assert DetailIs(Replay(log)[id], log, |log| - 1, id);
      } else {
        ListResponse(log, id);
      }
    }
  }

  lemma NotConcerned(log: seq<Write>, id: nat)
    requires log != [] && !Concerns(log[|log| - 1], id)
    requires id in Replay(log[..|log| - 1]) && TellsDetail(Replay(log[..|log| - 1])[id], log[..|log| - 1], id)
    ensures id in Replay(log) && TellsDetail(Replay(log)[id], log, id)
  {
    var init := log[..|log| - 1];
    var row := Replay(init)[id];
    assert Replay(log)[id].detail == row.detail && Replay(log)[id].fetchedAt == row.fetchedAt;
    if k :| DetailIs(row, init, k, id) {
      Shorter(log, k, id);
      assert DetailIs(Replay(log)[id], log, k, id);
    } else {
      forall k ensures !DetailAt(log, k, id) { Shorter(log, k, id); }
    }
  }

  /** A list response keeps the details, and their stamp only while the date stays the same. */
  lemma ListResponse(log: seq<Write>, id: nat)
    requires log != [] && log[|log| - 1].Put?
    requires log[|log| - 1].data.id == id && log[|log| - 1].data.credits == map[]
    requires var init := log[..|log| - 1];
             if id in Replay(init) then TellsDetail(Replay(init)[id], init, id) else forall k :: !DetailAt(init, k, id)
    ensures id in Replay(log) && TellsDetail(Replay(log)[id], log, id)
  {
    var init, w := log[..|log| - 1], log[|log| - 1];
    if k :| id in Replay(init) && DetailIs(Replay(init)[id], init, k, id) {
      ListKeepsDetailAt(log, k, id);
      StampedWithItsDate(init, k, id);
      assert DetailIs(Replay(log)[id], log, k, id);
    } else {
      forall k ensures !DetailAt(log, k, id) { ListKeepsDetailAt(log, k, id); }
    }
  }

  lemma ListKeepsDetailAt(log: seq<Write>, k: int, id: nat)
    requires log != [] && log[|log| - 1].Put?
    requires log[|log| - 1].data.id == id && log[|log| - 1].data.credits == map[]
    ensures var init := log[..|log| - 1];
            && (DetailAt(log, k, id) <==> DetailAt(init, k, id))
            && (DetailAt(init, k, id) ==>
                  (DateKept(log, k, id) <==>
                   DateKept(init, k, id) && log[|log| - 1].data.updated == init[k].data.updated))
  {
    var init := log[..|log| - 1];
    assert forall j :: 0 <= j < |init| ==> init[j] == log[j];
    if 0 <= k < |init| && init[k].Put? && DateKept(log, k, id) {
      forall j | k < j < |init| && init[j].Put? && init[j].data.id == id
        ensures init[j].data.updated == init[k].data.updated
      {
        assert init[j] == log[j];
      }
      assert log[|log| - 1].data.updated == log[k].data.updated;
    }
  }

  /** A stamped row carries the date of its last detail response. */
  lemma StampedWithItsDate(log: seq<Write>, k: int, id: nat)
    requires DetailAt(log, k, id)
    ensures id in Replay(log)
    ensures DateKept(log, k, id) ==> Replay(log)[id].columns.updated == log[k].data.updated
  {
    RowHasResponse(log, id);
    LaterResponse(log, k, id);
    var r :| ResponseAt(log, r, id);
    assert k <= r;
    assert forall q :: ResponseAt(log, q, id) ==> q == r by {
      forall q | ResponseAt(log, q, id) ensures q == r {}
    }
  }

  lemma {:induction false} LaterResponse(log: seq<Write>, k: int, id: nat)
    requires 0 <= k < |log| && log[k].Put? && log[k].data.id == id
    requires forall j :: k < j < |log| ==> log[j] != Delete(id)
    ensures exists r :: k <= r && ResponseAt(log, r, id)
    decreases |log| - k
  {
    if forall j :: k < j < |log| && log[j].Put? ==> log[j].data.id != id {
      assert ResponseAt(log, k, id);
    } else {
      var j :| k < j < |log| && log[j].Put? && log[j].data.id == id;
      LaterResponse(log, j, id);
    }
  }

  /** A row is marked as lost exactly if that was the last thing known about the issue. */
  lemma {:induction false} RowHasMark(log: seq<Write>, id: nat)
    ensures id in Replay(log) ==> (Replay(log)[id].missing <==> exists k :: MarkedAt(log, k, id))
  {
    if log != [] && id in Replay(log) {
      var init, w := log[..|log| - 1], log[|log| - 1];
      RowHasMark(init, id);
      if w == MarkMissing(id) {
        assert MarkedAt(log, |log| - 1, id);
      } else if Concerns(w, id) {
        forall k ensures !MarkedAt(log, k, id) { assert log[|log| - 1] == w; }
      } else {
        assert forall j :: 0 <= j < |init| ==> init[j] == log[j];
        forall k ensures MarkedAt(log, k, id) <==> MarkedAt(init, k, id) { MarkShorter(log, k, id); }
      }
    }
  }

  lemma MarkShorter(log: seq<Write>, k: int, id: nat)
    requires log != [] && log[|log| - 1] != MarkMissing(id) && !Concerns(log[|log| - 1], id)
    ensures MarkedAt(log, k, id) <==> MarkedAt(log[..|log| - 1], k, id)
  {
    var init := log[..|log| - 1];
    assert forall j :: 0 <= j < |init| ==> init[j] == log[j];
  }

  /** Over every history: a row holds the list columns of the last response and the credits of the last
      detail response, and it is stamped exactly if ComicVine has not reported another
      `date_last_updated` since then. */
  lemma RowTellsHistory(log: seq<Write>, id: nat)
    ensures id in Replay(log) <==> exists k :: ResponseAt(log, k, id)
    ensures id in Replay(log) ==>
      var row := Replay(log)[id];
      && (exists k :: ResponseAt(log, k, id) && Lists(row, log[k].data))
      && TellsDetail(row, log, id)
      && (row.missing <==> exists k :: MarkedAt(log, k, id))
  {
    RowHasResponse(log, id);
    RowHasDetail(log, id);
    RowHasMark(log, id);
  }

  /** Details are wanted exactly without a detail response since which the date has stayed the same. */
  lemma StampTells(log: seq<Write>, id: nat)
    requires id in Replay(log)
    ensures Replay(log)[id].fetchedAt.Some? <==> exists k :: DetailAt(log, k, id) && DateKept(log, k, id)
  {
    RowTellsHistory(log, id);
    forall j, k | DetailAt(log, j, id) && DetailAt(log, k, id) ensures j == k {}
  }

  lemma ReplayAppend(log: seq<Write>, w: Write)
    ensures Replay(log + [w]) == Apply(Replay(log), w)
  {
    assert (log + [w])[..|log|] == log;
  }

  /** What the table takes: a response with an ID, not before the cutoff year, not of a blocked volume. */
  predicate Accepted(data: Response, cutoffYear: int, blockedVolumes: set<nat>) {
    && data.id != 0
    && !(cutoffYear != 0 && data.year.Some? && data.year.value < cutoffYear)
    && !(data.volume.Some? && data.volume.value in blockedVolumes)
  }

  /** The writes a list page makes when only issues outside `existing` are inserted. */
  function Puts(issues: seq<Response>, existing: set<nat>, cutoffYear: int, blockedVolumes: set<nat>, now: int)
    : seq<Write>
  {
    if issues == [] then []
    else
      var d := issues[|issues| - 1];
      Puts(issues[..|issues| - 1], existing, cutoffYear, blockedVolumes, now)
      + if d.id !in existing && Accepted(d, cutoffYear, blockedVolumes) then [Put(d, now)] else []
  }

  lemma PutsOfNext(issues: seq<Response>, i: nat, existing: set<nat>, cutoffYear: int, blockedVolumes: set<nat>,
                   now: int)
    requires i < |issues|
    ensures var d := issues[i];
            Puts(issues[..i + 1], existing, cutoffYear, blockedVolumes, now) ==
              Puts(issues[..i], existing, cutoffYear, blockedVolumes, now)
              + if d.id !in existing && Accepted(d, cutoffYear, blockedVolumes) then [Put(d, now)] else []
  {
    assert issues[..i + 1][..i] == issues[..i];
  }

  /** The rows after the writes of a list page. */
  function AfterPage(log: seq<Write>, issues: seq<Response>, cutoffYear: int, blockedVolumes: set<nat>, now: int)
    : map<nat, Row>
  {
    Replay(log + Puts(issues, Replay(log).Keys, cutoffYear, blockedVolumes, now))
  }

  lemma AfterPageNext(log: seq<Write>, issues: seq<Response>, cutoffYear: int, blockedVolumes: set<nat>, now: int)
    ensures AfterPage(log, [], cutoffYear, blockedVolumes, now) == Replay(log)
    ensures issues != [] ==>
      var d := issues[|issues| - 1];
      var before := AfterPage(log, issues[..|issues| - 1], cutoffYear, blockedVolumes, now);
      AfterPage(log, issues, cutoffYear, blockedVolumes, now) ==
        if d.id !in Replay(log) && Accepted(d, cutoffYear, blockedVolumes) then Apply(before, Put(d, now)) else before
  {
    assert log + [] == log;
    if issues != [] {
      PutsNext(log, Puts(issues[..|issues| - 1], Replay(log).Keys, cutoffYear, blockedVolumes, now),
               Put(issues[|issues| - 1], now));
    }
  }

  /** A list page leaves the rows there were alone. */
  lemma {:induction false} PageLeavesAlone(log: seq<Write>, issues: seq<Response>, cutoffYear: int,
                                           blockedVolumes: set<nat>, now: int, id: nat)
    requires id in Replay(log)
    ensures var rows := AfterPage(log, issues, cutoffYear, blockedVolumes, now);
            id in rows && rows[id] == Replay(log)[id]
  {
    AfterPageNext(log, issues, cutoffYear, blockedVolumes, now);
    if issues != [] { PageLeavesAlone(log, issues[..|issues| - 1], cutoffYear, blockedVolumes, now, id); }
  }

  /** Every accepted issue of a list page is stored afterwards. */
  lemma {:induction false} PageIsStored(log: seq<Write>, issues: seq<Response>, cutoffYear: int,
                                        blockedVolumes: set<nat>, now: int, k: nat)
    requires k < |issues| && Accepted(issues[k], cutoffYear, blockedVolumes)
    ensures issues[k].id in AfterPage(log, issues, cutoffYear, blockedVolumes, now)
  {
    AfterPageNext(log, issues, cutoffYear, blockedVolumes, now);
    if k < |issues| - 1 {
      PageIsStored(log, issues[..|issues| - 1], cutoffYear, blockedVolumes, now, k);
    } else if issues[k].id in Replay(log) {
      PageLeavesAlone(log, issues, cutoffYear, blockedVolumes, now, issues[k].id);
    }
  }

  lemma PageOnlyAdds(log: seq<Write>, issues: seq<Response>, cutoffYear: int, blockedVolumes: set<nat>, now: int)
    ensures var rows := AfterPage(log, issues, cutoffYear, blockedVolumes, now);
            && (forall id :: id in Replay(log) ==> id in rows && rows[id] == Replay(log)[id])
            && (forall d :: d in issues && Accepted(d, cutoffYear, blockedVolumes) ==> d.id in rows)
  {
    var rows := AfterPage(log, issues, cutoffYear, blockedVolumes, now);
    forall id | id in Replay(log) ensures id in rows && rows[id] == Replay(log)[id] {
      PageLeavesAlone(log, issues, cutoffYear, blockedVolumes, now, id);
    }
    forall d | d in issues && Accepted(d, cutoffYear, blockedVolumes) ensures d.id in rows {
      var k :| 0 <= k < |issues| && issues[k] == d;
      PageIsStored(log, issues, cutoffYear, blockedVolumes, now, k);
    }
  }

  lemma PutsNext(log: seq<Write>, puts: seq<Write>, w: Write)
    ensures Replay(log + (puts + [w])) == Apply(Replay(log + puts), w)
    ensures log + (puts + []) == log + puts
  {
    SeqAssoc(log, puts, [w]);
    ReplayAppend(log + puts, w);
  }

  /** The issues of a list page that were not stored when it arrived, refused ones included. */
  function NewOnes(issues: seq<Response>, existing: set<nat>): nat {
    if issues == [] then 0
    else
      var d := issues[|issues| - 1];
      NewOnes(issues[..|issues| - 1], existing) + if d.id != 0 && d.id !in existing then 1 else 0
  }

  lemma {:induction false} NewOnesCounted(issues: seq<Response>, existing: set<nat>)
    ensures NewOnes(issues, existing)
         == |set i | 0 <= i < |issues| && issues[i].id != 0 && issues[i].id !in existing|
  {
    if issues != [] {
      var init, d := issues[..|issues| - 1], issues[|issues| - 1];
      NewOnesCounted(init, existing);
      assert (set i | 0 <= i < |issues| && issues[i].id != 0 && issues[i].id !in existing)
          == (set i | 0 <= i < |init| && init[i].id != 0 && init[i].id !in existing)
             + if d.id != 0 && d.id !in existing then {|issues| - 1} else {};
    }
  }

  /** The row comes from the k-th issue of the page, the last one with its ID that is accepted. */
  ghost predicate ComesFrom(row: Row, issues: seq<Response>, k: int, cutoffYear: int, blockedVolumes: set<nat>, id: nat)
  {
    && 0 <= k < |issues| && issues[k].id == id && Accepted(issues[k], cutoffYear, blockedVolumes)
    && Lists(row, issues[k])
    && (forall j :: k < j < |issues| && issues[j].id == id ==> !Accepted(issues[j], cutoffYear, blockedVolumes))
  }

  ghost predicate FromPage(row: Row, issues: seq<Response>, cutoffYear: int, blockedVolumes: set<nat>, id: nat) {
    exists k :: ComesFrom(row, issues, k, cutoffYear, blockedVolumes, id)
  }

  lemma StillComesFrom(row: Row, issues: seq<Response>, cutoffYear: int, blockedVolumes: set<nat>, id: nat)
    requires issues != [] && FromPage(row, issues[..|issues| - 1], cutoffYear, blockedVolumes, id)
    requires var d := issues[|issues| - 1]; d.id == id ==> !Accepted(d, cutoffYear, blockedVolumes)
    ensures FromPage(row, issues, cutoffYear, blockedVolumes, id)
  {
    var init := issues[..|issues| - 1];
    var k :| ComesFrom(row, init, k, cutoffYear, blockedVolumes, id);
    assert forall j :: 0 <= j < |init| ==> init[j] == issues[j];
    assert ComesFrom(row, issues, k, cutoffYear, blockedVolumes, id);
  }

  lemma {:induction false} PageAddsOnly(log: seq<Write>, issues: seq<Response>, cutoffYear: int,
                                        blockedVolumes: set<nat>, now: int, id: nat)
    requires id !in Replay(log)
    ensures var rows := AfterPage(log, issues, cutoffYear, blockedVolumes, now);
            id in rows ==> FromPage(rows[id], issues, cutoffYear, blockedVolumes, id)
  {
    AfterPageNext(log, issues, cutoffYear, blockedVolumes, now);
    if issues != [] {
      var init, d := issues[..|issues| - 1], issues[|issues| - 1];
      var rows := AfterPage(log, issues, cutoffYear, blockedVolumes, now);
      PageAddsOnly(log, init, cutoffYear, blockedVolumes, now, id);
      if d.id == id && Accepted(d, cutoffYear, blockedVolumes) {
        assert ComesFrom(rows[id], issues, |issues| - 1, cutoffYear, blockedVolumes, id);
      } else if id in AfterPage(log, init, cutoffYear, blockedVolumes, now) {
        StillComesFrom(rows[id], issues, cutoffYear, blockedVolumes, id);
      }
    }
  }

  // ---- the table -----------------------------------------------------------

  /** `rows` is `before` with one response merged in: the list columns are replaced; credits replace the
      details and stamp them; without credits stored details stay, and their stamp while the date does. */
  ghost predicate Merged(rows: map<nat, Row>, before: map<nat, Row>, data: Response, now: int) {
    && data.id in rows && Lists(rows[data.id], data) && !rows[data.id].missing
    && SameBut(rows, before, data.id)
    && (data.credits != map[] ==> Details(rows[data.id], data) && rows[data.id].fetchedAt == Some(now))
    && (data.credits == map[] && data.id !in before ==>
          rows[data.id].detail == map[] && rows[data.id].fetchedAt == None)
    && (data.credits == map[] && data.id in before ==>
          && rows[data.id].detail == before[data.id].detail
          && rows[data.id].fetchedAt ==
               if before[data.id].columns.updated == data.updated then before[data.id].fetchedAt else None)
  }

  ghost predicate SameBut(rows: map<nat, Row>, before: map<nat, Row>, id: nat) {
    forall i :: i != id ==> (i in rows <==> i in before) && (i in rows ==> rows[i] == before[i])
  }

  class IssueTable {
    var rows: map<nat, Row>
    var blockedVolumes: set<nat>
    const cutoffYear: int
    ghost var log: seq<Write>

    ghost predicate Valid()
      reads this
    { rows == Replay(log) }

    predicate Accepts(data: Response)
      reads this
    { Accepted(data, cutoffYear, blockedVolumes) }

    constructor (cutoff: int, blocked: set<nat>)
      ensures Valid() && log == [] && cutoffYear == cutoff && blockedVolumes == blocked
    { rows, log, cutoffYear, blockedVolumes := map[], [], cutoff, blocked; }

    method UpsertIssue(data: Response, now: int)
      requires Valid()
      modifies this`rows, this`log
      ensures Valid() && log == if Accepts(data) then old(log) + [Put(data, now)] else old(log)
      ensures if data.id == 0 || (cutoffYear != 0 && data.year.Some? && data.year.value < cutoffYear)
                 || (data.volume.Some? && data.volume.value in blockedVolumes)
              then rows == old(rows) else Merged(rows, old(rows), data, now)
    {
      if data.id == 0 { return; }
      if cutoffYear != 0 && data.year.Some? && data.year.value < cutoffYear { return; }
      if data.volume.Some? && data.volume.value in blockedVolumes { return; }
      if data.IsDetail() {
        rows := rows[data.id := Row(data.Columns(), NonEmpty(data.credits), Some(now), false)];
      } else if data.id in rows {
        var row := rows[data.id];
        var stamp := if row.columns.updated == data.updated then row.fetchedAt else None;
        rows := rows[data.id := Row(data.Columns(), row.detail, stamp, false)];
      } else {
        rows := rows[data.id := Row(data.Columns(), map[], None, false)];
      }
      ReplayAppend(log, Put(data, now));
      log := log + [Put(data, now)];
    }

    /** Inserts the issues of a list page that were not stored when the page arrived. */
    method InsertNewIssues(issues: seq<Response>, now: int) returns (inserted: nat)
      requires Valid()
      modifies this`rows, this`log
      ensures Valid() && log == old(log) + Puts(issues, old(rows.Keys), cutoffYear, blockedVolumes, now)
      ensures forall id :: id in old(rows) ==> id in rows && rows[id] == old(rows)[id]
      ensures forall d :: d in issues && Accepts(d) ==> d.id in rows
      ensures forall id :: id in rows && id !in old(rows) ==> FromPage(rows[id], issues, cutoffYear, blockedVolumes, id)
      ensures inserted == |set i | 0 <= i < |issues| && issues[i].id != 0 && issues[i].id !in old(rows)|
    {
      var existing := rows.Keys;
      var i := 0;
      ghost var puts: seq<Write>, blocked := [], blockedVolumes;
      assert issues[..0] == [];
      while i < |issues|
        invariant 0 <= i <= |issues| && Valid()
        invariant puts == Puts(issues[..i], existing, cutoffYear, blocked, now) && log == old(log) + puts
        invariant blockedVolumes == blocked
      {
        var d := issues[i];
        PutsOfNext(issues, i, existing, cutoffYear, blocked, now);
        if d.id != 0 && d.id !in existing {
          UpsertIssue(d, now);
          SeqAssoc(old(log), puts, [Put(d, now)]);
          if Accepts(d) { puts := puts + [Put(d, now)]; }
        }
        i := i + 1;
      }
      assert issues[..i] == issues;
      inserted := NewOnes(issues, existing);
      NewOnesCounted(issues, existing);
      PageOnlyAdds(old(log), issues, cutoffYear, blockedVolumes, now);
      forall id | id in rows && id !in existing ensures FromPage(rows[id], issues, cutoffYear, blockedVolumes, id) {
        PageAddsOnly(old(log), issues, cutoffYear, blockedVolumes, now, id);
      }
    }

    /** ComicVine has lost the issue. */
    method MarkBackfillMissing(id: nat)
      requires Valid()
      modifies this`rows, this`log
      ensures Valid() && log == old(log) + [MarkMissing(id)]
      ensures rows.Keys == old(rows).Keys && SameBut(rows, old(rows), id)
      ensures id in rows ==> rows[id].missing && rows[id].(missing := old(rows)[id].missing) == old(rows)[id]
    {
      if id in rows { rows := rows[id := rows[id].(missing := true)]; }
      ReplayAppend(log, MarkMissing(id));
      log := log + [MarkMissing(id)];
    }

    method Remove(id: nat)
      requires Valid()
      modifies this`rows, this`log
      ensures Valid() && log == old(log) + [Delete(id)]
      ensures id !in rows && SameBut(rows, old(rows), id)
    {
      ReplayAppend(log, Delete(id));
      rows, log := rows - {id}, log + [Delete(id)];
    }

    /** The issue has never had its details fetched, or ComicVine has changed it since. */
    method IssueNeedsDetail(id: nat) returns (needs: bool)
      requires Valid()
      ensures needs <==> id in rows && rows[id].fetchedAt == None
      ensures needs <==>
        (exists k :: ResponseAt(log, k, id)) && !exists k :: DetailAt(log, k, id) && DateKept(log, k, id)
    {
      RowTellsHistory(log, id);
      if id in rows { StampTells(log, id); }
      needs := id in rows && rows[id].fetchedAt.None?;
    }
  }
}
