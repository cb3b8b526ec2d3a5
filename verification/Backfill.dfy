/** The per-ID backfill of issue details: a budgeted loop over a batch of the backlog. */
module Backfill {
  import opened Wrappers
  import opened IssueStore

  /** `NoResults` is a failed request or an answer without an issue in it. */
  datatype Reply = Found(data: Response) | NotFound | NoResults | RateLimited

  /** Why the budget check forbids a request. */
  datatype Gate = ClientQueue | Budget

  datatype Stop = NothingToDo | Paused(why: Gate) | Refused

  datatype Result = Result(updated: nat, missing: nat, failed: nat, stop: Option<Stop>)

  /** The issues whose details are still to be fetched. */
  function Backlog(rows: map<nat, Row>): set<nat> {
    set id | id in rows && rows[id].fetchedAt.None? && !rows[id].missing
  }

  /** What one reply writes. */
  function Turn(id: nat, reply: Reply, cutoffYear: int, blockedVolumes: set<nat>, now: int): seq<Write> {
    match reply
    case NotFound => [MarkMissing(id)]
    case Found(data) => if Accepted(data, cutoffYear, blockedVolumes) then [Put(data, now)] else []
    case _ => []
  }

  function Turns(ids: seq<nat>, replies: seq<Reply>, cutoffYear: int, blockedVolumes: set<nat>, now: int, n: nat)
    : seq<Write>
    requires n <= |ids| == |replies|
  {
    if n == 0 then []
    else
      Turns(ids, replies, cutoffYear, blockedVolumes, now, n - 1)
      + Turn(ids[n - 1], replies[n - 1], cutoffYear, blockedVolumes, now)
  }

  /** The IDs that `n` replies take off the backlog. */
  function Settled(ids: seq<nat>, replies: seq<Reply>, cutoffYear: int, blockedVolumes: set<nat>, n: nat): set<nat>
    requires n <= |ids| == |replies|
  {
    if n == 0 then {}
    else
      Settled(ids, replies, cutoffYear, blockedVolumes, n - 1)
      + Taken(ids[n - 1], replies[n - 1], cutoffYear, blockedVolumes)
  }

  function Taken(id: nat, reply: Reply, cutoffYear: int, blockedVolumes: set<nat>): set<nat> {
    if reply.NotFound? || (reply.Found? && Accepted(reply.data, cutoffYear, blockedVolumes)) then {id} else {}
  }

  /** A detail request is answered with the details of the issue asked for. */
  ghost predicate Honest(ids: seq<nat>, replies: seq<Reply>)
    requires |ids| == |replies|
  {
    forall k :: 0 <= k < |ids| && replies[k].Found? ==> replies[k].data.id == ids[k] && replies[k].data.IsDetail()
  }

  lemma TurnShrinksBacklog(log: seq<Write>, id: nat, reply: Reply, cutoffYear: int, blockedVolumes: set<nat>, now: int)
    requires id in Replay(log) && (reply.Found? ==> reply.data.id == id && reply.data.IsDetail())
    ensures var before, after := Replay(log), Replay(log + Turn(id, reply, cutoffYear, blockedVolumes, now));
            && after.Keys == before.Keys
            && Backlog(after) == Backlog(before) - Taken(id, reply, cutoffYear, blockedVolumes)
  {
    match reply
    case NotFound => ReplayAppend(log, MarkMissing(id));
    case Found(data) =>
      ReplayAppend(log, Put(data, now));
      assert log + [] == log;
    case _ => assert log + [] == log;
  }

  lemma LogNext(log: seq<Write>, ids: seq<nat>, replies: seq<Reply>, cutoffYear: int, blockedVolumes: set<nat>,
                now: int, n: nat)
    requires n < |ids| == |replies|
    ensures log + Turns(ids, replies, cutoffYear, blockedVolumes, now, n + 1)
         == log + Turns(ids, replies, cutoffYear, blockedVolumes, now, n)
            + Turn(ids[n], replies[n], cutoffYear, blockedVolumes, now)
  {}

  lemma TakenInTurn(backlog: set<nat>, a: set<nat>, b: set<nat>)
    ensures backlog - a - b == backlog - (a + b)
  {}

  /** A run takes off the backlog exactly the issues ComicVine has lost and those whose details the store
      accepts. Failed requests stay for the next run, and so do issues whose details the store refuses,
      say by a cutoff year raised after they were stored, although the run counts them as updated. */
  lemma {:induction false} RunShrinksBacklog(log: seq<Write>, ids: seq<nat>, replies: seq<Reply>, cutoffYear: int,
                                             blockedVolumes: set<nat>, now: int, n: nat)
    requires n <= |ids| == |replies| && Honest(ids, replies)
    requires forall k :: 0 <= k < n ==> ids[k] in Replay(log)
    ensures var before, after := Replay(log), Replay(log + Turns(ids, replies, cutoffYear, blockedVolumes, now, n));
            && after.Keys == before.Keys
            && Backlog(after) == Backlog(before) - Settled(ids, replies, cutoffYear, blockedVolumes, n)
  {
    if n == 0 {
      assert log + [] == log;
    } else {
      RunShrinksBacklog(log, ids, replies, cutoffYear, blockedVolumes, now, n - 1);
      var so := Turns(ids, replies, cutoffYear, blockedVolumes, now, n - 1);
      var turn := Turn(ids[n - 1], replies[n - 1], cutoffYear, blockedVolumes, now);
      TurnShrinksBacklog(log + so, ids[n - 1], replies[n - 1], cutoffYear, blockedVolumes, now);
      LogNext(log, ids, replies, cutoffYear, blockedVolumes, now, n - 1);
      var before := Settled(ids, replies, cutoffYear, blockedVolumes, n - 1);
      var taken := Taken(ids[n - 1], replies[n - 1], cutoffYear, blockedVolumes);
      TakenInTurn(Backlog(Replay(log)), before, taken);
    }
  }

  lemma {:induction false} SettledMembers(ids: seq<nat>, replies: seq<Reply>, cutoffYear: int,
                                          blockedVolumes: set<nat>, n: nat, id: nat)
    requires n <= |ids| == |replies|
    ensures id in Settled(ids, replies, cutoffYear, blockedVolumes, n) <==>
      exists k :: 0 <= k < n && ids[k] == id
        && (replies[k].NotFound? || (replies[k].Found? && Accepted(replies[k].data, cutoffYear, blockedVolumes)))
  {
    if n > 0 { SettledMembers(ids, replies, cutoffYear, blockedVolumes, n - 1, id); }
  }

  /** The next run finds the same backlog if and only if this one settled none of what it asked for: a
      batch of refused issues at the head of the backlog is asked for again and again. */
  lemma SameBacklogExactly(log: seq<Write>, ids: seq<nat>, replies: seq<Reply>, cutoffYear: int,
                           blockedVolumes: set<nat>, now: int, n: nat)
    requires n <= |ids| == |replies| && Honest(ids, replies)
    requires forall k :: 0 <= k < |ids| ==> ids[k] in Backlog(Replay(log))
    ensures Backlog(Replay(log + Turns(ids, replies, cutoffYear, blockedVolumes, now, n))) == Backlog(Replay(log)) <==>
      forall k :: 0 <= k < n ==>
        || replies[k].NoResults? || replies[k].RateLimited?
        || (replies[k].Found? && !Accepted(replies[k].data, cutoffYear, blockedVolumes))
  {
    RunShrinksBacklog(log, ids, replies, cutoffYear, blockedVolumes, now, n);
    var settled := Settled(ids, replies, cutoffYear, blockedVolumes, n);
    forall k | 0 <= k < n { SettledMembers(ids, replies, cutoffYear, blockedVolumes, n, ids[k]); }
    if id :| id in settled {
      SettledMembers(ids, replies, cutoffYear, blockedVolumes, n, id);
    }
    assert settled == {} ==> Backlog(Replay(log)) - settled == Backlog(Replay(log));
  }

  /** Issue 5 of 1990 was stored when there was no cutoff. With the cutoff raised to 2000 its details are
      fetched, counted as an update and refused; it is still in the backlog. */
  lemma RefusedIssueStays()
    ensures var log := [Put(Response(5, None, Some(1990), None, map[], map[]), 0)];
            var replies := [Found(Response(5, None, Some(1990), None, map[], map["person_credits" := "x"]))];
            && Honest([5], replies) && 5 in Backlog(Replay(log))
            && Turns([5], replies, 2000, {}, 1, 1) == []
            && 5 in Backlog(Replay(log + Turns([5], replies, 2000, {}, 1, 1)))
            && CountFound(replies, 1) == 1
  {
    var put := Put(Response(5, None, Some(1990), None, map[], map[]), 0);
    var data := Response(5, None, Some(1990), None, map[], map["person_credits" := "x"]);
    assert "person_credits" in data.credits;
    ReplayAppend([], put);
    assert [] + [put] == [put];
    assert [put] + [] == [put];
  }

  /** Of the first `n` replies, those with an issue and those that say it is lost. */
  function CountFound(replies: seq<Reply>, n: nat): nat
    requires n <= |replies|
  {
    if n == 0 then 0 else CountFound(replies, n - 1) + if replies[n - 1].Found? then 1 else 0
  }

  function CountLost(replies: seq<Reply>, n: nat): nat
    requires n <= |replies|
  {
    if n == 0 then 0 else CountLost(replies, n - 1) + if replies[n - 1].NotFound? then 1 else 0
  }

  lemma {:induction false} CountsAre(replies: seq<Reply>, n: nat)
    requires n <= |replies|
    ensures CountFound(replies, n) == |set k | 0 <= k < n && replies[k].Found?|
    ensures CountLost(replies, n) == |set k | 0 <= k < n && replies[k].NotFound?|
  {
    if n > 0 {
      CountsAre(replies, n - 1);
      assert (set k | 0 <= k < n && replies[k].Found?)
          == (set k | 0 <= k < n - 1 && replies[k].Found?) + if replies[n - 1].Found? then {n - 1} else {};
      assert (set k | 0 <= k < n && replies[k].NotFound?)
          == (set k | 0 <= k < n - 1 && replies[k].NotFound?) + if replies[n - 1].NotFound? then {n - 1} else {};
    }
  }

  ghost predicate Counted(r: Result, replies: seq<Reply>, n: nat)
    requires n <= |replies|
  {
    r.updated + r.missing + r.failed == n && r.updated == CountFound(replies, n) && r.missing == CountLost(replies, n)
  }

  /** Nothing stopped the first `n` requests, and none of them was refused. */
  ghost predicate Asked(gates: seq<Option<Gate>>, replies: seq<Reply>, n: nat)
    requires n <= |gates| == |replies|
  {
    forall k :: 0 <= k < n ==> gates[k].None? && !replies[k].RateLimited?
  }

  /** What becomes of one reply. */
  method StoreReply(table: IssueTable, id: nat, replies: seq<Reply>, n: nat, now: int, r: Result) returns (r': Result)
    requires n < |replies| && table.Valid() && Counted(r, replies, n) && !replies[n].RateLimited?
    modifies table`rows, table`log
    ensures table.Valid() && table.blockedVolumes == old(table.blockedVolumes)
    ensures table.log == old(table.log) + Turn(id, replies[n], table.cutoffYear, old(table.blockedVolumes), now)
    ensures Counted(r', replies, n + 1) && r'.stop == r.stop
    ensures replies[n].Found? ==>
      if table.Accepts(replies[n].data) then Merged(table.rows, old(table.rows), replies[n].data, now)
      else table.rows == old(table.rows)
    ensures replies[n].NotFound? ==>
      SameBut(table.rows, old(table.rows), id) && (id in old(table.rows) ==> id in table.rows && table.rows[id].missing)
    ensures replies[n].NoResults? ==> table.rows == old(table.rows)
  {
    match replies[n]
    case NotFound =>
      table.MarkBackfillMissing(id);
      r' := r.(missing := r.missing + 1);
    case Found(data) =>
      table.UpsertIssue(data, now);
      r' := r.(updated := r.updated + 1);
    case NoResults =>
      r' := r.(failed := r.failed + 1);
  }

  /** One run. `gates[k]` is what the budget check finds before the k-th request, `replies[k]` its reply. */
  method BackfillIds(table: IssueTable, ids: seq<nat>, gates: seq<Option<Gate>>, replies: seq<Reply>, now: int)
    returns (r: Result, n: nat)
    requires table.Valid() && |gates| == |ids| == |replies|
    modifies table`rows, table`log
    ensures table.Valid() && n <= |ids|
    ensures table.log == old(table.log) + Turns(ids, replies, table.cutoffYear, table.blockedVolumes, now, n)
    ensures Asked(gates, replies, n)
    ensures n < |ids| ==> gates[n].Some? || replies[n].RateLimited?
    ensures r.stop == if ids == [] then Some(NothingToDo) else if n == |ids| then None
                      else if gates[n].Some? then Some(Paused(gates[n].value)) else Some(Refused)
    ensures Counted(r, replies, n) && r.updated + r.missing + r.failed == n
    ensures r.updated == |set k | 0 <= k < n && replies[k].Found?|
    ensures r.missing == |set k | 0 <= k < n && replies[k].NotFound?|
  {
    n, r := 0, Result(0, 0, 0, None);
    ghost var blocked := table.blockedVolumes;
    while n < |ids|
      invariant 0 <= n <= |ids| && table.Valid() && r.stop.None? && Counted(r, replies, n)
      invariant table.log == old(table.log) + Turns(ids, replies, table.cutoffYear, blocked, now, n)
      invariant Asked(gates, replies, n) && table.blockedVolumes == blocked
    {
      if gates[n].Some? || replies[n].RateLimited? { break; }
      r := StoreReply(table, ids[n], replies, n, now, r);
      LogNext(old(table.log), ids, replies, table.cutoffYear, blocked, now, n);
      n := n + 1;
    }
    CountsAre(replies, n);
    if ids == [] {
      r := r.(stop := Some(NothingToDo));
    } else if n < |ids| {
      r := r.(stop := if gates[n].Some? then Some(Paused(gates[n].value)) else Some(Refused));
    }
  }
}
