/** The queue of fetches that could not be made, and the worker that drains it. */
module Pending {
  import opened Wrappers

  const MAX_ATTEMPTS := 5

  datatype Kind = IssueKind | VolumeKind | PublisherKind | VolumeIssuesKind | IssuesFilterKind | SearchKind

  datatype Id = Id(kind: Kind, key: string)

  datatype Item = Item(id: Id, attempts: nat)

  /** What a fetch came back with; for a volume's issue list, `Error` is a refresh that was skipped. */
  datatype Reply = Data(hasResults: bool) | NotFound | RateLimited | Error

  datatype Outcome = Done | Refused | Failed

  function OutcomeOf(kind: Kind, reply: Reply): Outcome {
    match reply
    case RateLimited => Refused
    case NotFound => Done
    case Data(hasResults) =>
      if hasResults || kind.VolumeIssuesKind? || kind.IssuesFilterKind? || kind.SearchKind? then Done else Failed
    case Error => if kind.VolumeIssuesKind? then Done else Failed
  }

  /** Fetches that bring a list are answered by an empty one too. */
  predicate ListKind(kind: Kind) { kind.VolumeIssuesKind? || kind.IssuesFilterKind? || kind.SearchKind? }

  /** ComicVine said what the item asks for, or that there is no such thing. */
  predicate Answers(kind: Kind, reply: Reply) {
    reply.NotFound? || (reply.Data? && (reply.hasResults || ListKind(kind)))
  }

  /** The queue's promise: an answer takes the item off, a refusal changes nothing, anything else is a
      failure, and the fifth gives up. */
  function Promised(kind: Kind, reply: Reply, attempts: Option<nat>): Option<nat> {
    if attempts.None? || reply.RateLimited? then attempts
    else if Answers(kind, reply) || attempts.value + 1 >= MAX_ATTEMPTS then None
    else Some(attempts.value + 1)
  }

  /** The reply the queue mistakes for an answer: a volume's refresh that failed or was skipped. */
  predicate Mistaken(kind: Kind, reply: Reply) { kind.VolumeIssuesKind? && reply.Error? }

  // ---- the queue and what happens to it ------------------------------------

  datatype Event = Add(id: Id) | Settle(id: Id, outcome: Outcome)

  function Find(items: seq<Item>, id: Id): Option<nat> {
    if items == [] then None
    else if items[0].id == id then Some(items[0].attempts)
    else Find(items[1..], id)
  }

  function Without(items: seq<Item>, id: Id): seq<Item> {
    if items == [] then []
    else if items[0].id == id then Without(items[1..], id)
    else [items[0]] + Without(items[1..], id)
  }

  /** One more failed attempt; the fifth drops the item. */
  function CountFailure(items: seq<Item>, id: Id): seq<Item> {
    if items == [] then []
    else
      var rest := CountFailure(items[1..], id);
      var item := items[0];
      if item.id != id then [item] + rest
      else if item.attempts + 1 >= MAX_ATTEMPTS then rest
      else [item.(attempts := item.attempts + 1)] + rest
  }

  function Apply(items: seq<Item>, e: Event): seq<Item> {
    match e
    case Add(id) => if Find(items, id).Some? then items else items + [Item(id, 0)]
    case Settle(id, Done) => Without(items, id)
    case Settle(id, Failed) => CountFailure(items, id)
    case Settle(_, Refused) => items
  }

  function Replay(log: seq<Event>): seq<Item> {
    if log == [] then [] else Apply(Replay(log[..|log| - 1]), log[|log| - 1])
  }

  ghost predicate Distinct(items: seq<Item>) {
    forall i, j :: 0 <= i < j < |items| ==> items[i].id != items[j].id
  }

  ghost predicate InBounds(items: seq<Item>) {
    forall i :: 0 <= i < |items| ==> items[i].attempts < MAX_ATTEMPTS
  }

  // ---- one item, apart from all others -------------------------------------

  /** What settling does to a count. */
  function Settled(before: Option<nat>, outcome: Outcome): Option<nat> {
    if outcome == Refused || before.None? then before
    else if outcome == Failed && before.value + 1 < MAX_ATTEMPTS then Some(before.value + 1)
    else None
  }

  /** The failed attempts counted against a queued item, from its own events alone. */
  function Attempts(log: seq<Event>, id: Id): Option<nat> {
    if log == [] then None
    else
      var before := Attempts(log[..|log| - 1], id);
      match log[|log| - 1]
      case Add(i) => if i == id && before.None? then Some(0) else before
      case Settle(i, outcome) => if i == id then Settled(before, outcome) else before
  }

  function Failures(log: seq<Event>, id: Id): nat {
    if log == [] then 0
    else Failures(log[..|log| - 1], id) + if log[|log| - 1] == Settle(id, Failed) then 1 else 0
  }

  lemma {:induction false} FindIndex(items: seq<Item>, id: Id)
    ensures Find(items, id).None? ==> forall i :: 0 <= i < |items| ==> items[i].id != id
    ensures Find(items, id).Some? ==> exists i :: 0 <= i < |items| && items[i] == Item(id, Find(items, id).value)
  {
    if items != [] && items[0].id != id {
      FindIndex(items[1..], id);
      if Find(items[1..], id).Some? {
        var i :| 0 <= i < |items[1..]| && items[1..][i] == Item(id, Find(items[1..], id).value);
        assert items[i + 1] == items[1..][i];
      } else {
        forall i | 0 <= i < |items| ensures items[i].id != id { if i > 0 { assert items[i] == items[1..][i - 1]; } }
      }
    } else if items != [] {
      assert items[0] == Item(id, Find(items, id).value);
    }
  }

  lemma {:induction false} FindAppend(items: seq<Item>, item: Item, id: Id)
    requires Find(items, item.id).None?
    ensures Find(items + [item], id) == if item.id == id then Some(item.attempts) else Find(items, id)
  {
    if items != [] {
      assert (items + [item])[1..] == items[1..] + [item];
      FindAppend(items[1..], item, id);
    }
  }

  lemma DistinctTail(items: seq<Item>)
    requires Distinct(items) && items != []
    ensures Distinct(items[1..]) && Find(items[1..], items[0].id).None?
  {
    FindIndex(items[1..], items[0].id);
  }

  lemma ConsDistinct(item: Item, rest: seq<Item>)
    requires Distinct(rest) && InBounds(rest) && Find(rest, item.id).None? && item.attempts < MAX_ATTEMPTS
    ensures Distinct([item] + rest) && InBounds([item] + rest) && ([item] + rest)[1..] == rest
  {
    FindIndex(rest, item.id);
  }

  lemma {:induction false} WithoutFinds(items: seq<Item>, id: Id, other: Id)
    requires Distinct(items) && InBounds(items)
    ensures Find(Without(items, id), other) == if id == other then None else Find(items, other)
    ensures Distinct(Without(items, id)) && InBounds(Without(items, id))
  {
    if items != [] {
      DistinctTail(items);
      assert InBounds(items[1..]);
      WithoutFinds(items[1..], id, other);
      if items[0].id != id {
        WithoutFinds(items[1..], id, items[0].id);
        ConsDistinct(items[0], Without(items[1..], id));
      }
    }
  }

  lemma {:induction false} WithoutMembers(items: seq<Item>, id: Id, x: Item)
    ensures x in Without(items, id) <==> x in items && x.id != id
  {
    if items != [] {
      WithoutMembers(items[1..], id, x);
      assert x in items <==> x == items[0] || x in items[1..];
    }
  }

  lemma {:induction false} CountFailureMembers(items: seq<Item>, id: Id, x: Item)
    ensures x in CountFailure(items, id) <==>
      if x.id != id then x in items
      else 0 < x.attempts < MAX_ATTEMPTS && Item(id, x.attempts - 1) in items
  {
    if items != [] {
      CountFailureMembers(items[1..], id, x);
      assert forall y :: y in items <==> y == items[0] || y in items[1..];
    }
  }

  predicate Queued(items: seq<Item>, id: Id, attempts: nat) { Item(id, attempts) in items }

  /** One more failure is counted against `id`, the fifth takes it off, and no other item is touched. */
  ghost predicate CountedOnce(before: seq<Item>, after: seq<Item>, id: Id) {
    && (forall x: Item :: x.id != id ==> (x in after <==> x in before))
    && (forall n: nat :: Queued(after, id, n) <==> 0 < n < 5 && Queued(before, id, n - 1))
  }

  lemma OnlyOneCounted(items: seq<Item>, id: Id)
    ensures CountedOnce(items, CountFailure(items, id), id)
  {
    forall x: Item | x.id != id ensures x in CountFailure(items, id) <==> x in items {
      CountFailureMembers(items, id, x);
    }
    forall n: nat ensures Queued(CountFailure(items, id), id, n) <==> 0 < n < 5 && Queued(items, id, n - 1) {
      CountFailureMembers(items, id, Item(id, n));
    }
  }

  lemma {:induction false} CountFailureFinds(items: seq<Item>, id: Id, other: Id)
    requires Distinct(items) && InBounds(items)
    ensures Find(CountFailure(items, id), other) ==
      if id != other || Find(items, id).None? then Find(items, other)
      else if Find(items, id).value + 1 < MAX_ATTEMPTS then Some(Find(items, id).value + 1)
      else None
    ensures Distinct(CountFailure(items, id)) && InBounds(CountFailure(items, id))
  {
    if items != [] {
      var rest := CountFailure(items[1..], id);
      DistinctTail(items);
      assert InBounds(items[1..]);
      CountFailureFinds(items[1..], id, other);
      CountFailureFinds(items[1..], id, items[0].id);
      if items[0].id != id {
        ConsDistinct(items[0], rest);
      } else if items[0].attempts + 1 < MAX_ATTEMPTS {
        ConsDistinct(items[0].(attempts := items[0].attempts + 1), rest);
      }
    }
  }

  lemma ApplyFinds(items: seq<Item>, e: Event, id: Id)
    requires Distinct(items) && InBounds(items)
    ensures Distinct(Apply(items, e)) && InBounds(Apply(items, e))
    ensures e.id != id ==> Find(Apply(items, e), id) == Find(items, id)
  {
    match e {
      case Add(i) =>
        FindIndex(items, i);
        if Find(items, i).None? { FindAppend(items, Item(i, 0), id); }
      case Settle(i, Done) => WithoutFinds(items, i, id);
      case Settle(i, Failed) => CountFailureFinds(items, i, id);
      case Settle(_, Refused) =>
    }
  }

  /** The queue holds each item at most once, with fewer than five failures, and treats every item as
      if it were alone. */
  lemma {:induction false} QueueIsPerItem(log: seq<Event>, id: Id)
    ensures Distinct(Replay(log)) && InBounds(Replay(log))
    ensures Find(Replay(log), id) == Attempts(log, id)
    ensures Attempts(log, id).Some? ==> Attempts(log, id).value < MAX_ATTEMPTS
  {
    if log != [] {
      var before, e := Replay(log[..|log| - 1]), log[|log| - 1];
      QueueIsPerItem(log[..|log| - 1], id);
      ApplyFinds(before, e, id);
      if e.id == id {
        match e {
          case Add(_) => if Find(before, id).None? { FindAppend(before, Item(id, 0), id); }
          case Settle(_, Done) => WithoutFinds(before, id, id);
          case Settle(_, Failed) => CountFailureFinds(before, id, id);
          case Settle(_, Refused) =>
        }
      }
    }
  }

  /** Conservation: from any moment on, an item that is not answered stays queued until its fifth
      failure, with exactly its failures counted; refusals and repeated requests change nothing. */
  lemma {:induction false} StaysUntilFifthFailure(log: seq<Event>, more: seq<Event>, id: Id)
    requires Attempts(log, id).Some? && Settle(id, Done) !in more
    requires Attempts(log, id).value + Failures(more, id) < MAX_ATTEMPTS
    ensures Attempts(log + more, id) == Some(Attempts(log, id).value + Failures(more, id))
    decreases |more|
  {
    if more == [] {
      assert log + more == log;
    } else {
      var init := more[..|more| - 1];
      assert (log + more)[..|log + more| - 1] == log + init;
      assert more[|more| - 1] in more;
      StaysUntilFifthFailure(log, init, id);
    }
  }

  /** It leaves at that failure, or when it is answered. */
  lemma LeavesWhenEarned(log: seq<Event>, e: Event, id: Id)
    ensures Attempts(log, id).Some? ==>
      (Attempts(log + [e], id).None? <==>
        e == Settle(id, Done) || (e == Settle(id, Failed) && Attempts(log, id).value == MAX_ATTEMPTS - 1))
  {
    assert (log + [e])[..|log|] == log;
    QueueIsPerItem(log, id);
  }

  /** Asking again for a queued item leaves the whole queue, and so its place, as it is. */
  lemma RepeatKeepsPlace(log: seq<Event>, id: Id)
    requires Attempts(log, id).Some?
    ensures Replay(log + [Add(id)]) == Replay(log)
  {
    assert (log + [Add(id)])[..|log|] == log;
    QueueIsPerItem(log, id);
  }

  lemma AttemptsNext(log: seq<Event>, e: Event, id: Id)
    ensures var before := Attempts(log, id);
            Attempts(log + [e], id) ==
              if e.id != id then before
              else if e.Add? then (if before.None? then Some(0) else before)
              else Settled(before, e.outcome)
  {
    assert (log + [e])[..|log|] == log;
  }

  // ---- what replies do -----------------------------------------------------

  /** A request to queue an item, or the reply to the fetch of one. */
  datatype Happening = Asked(id: Id) | Replied(id: Id, reply: Reply)

  /** The event a happening is for the queue. */
  function EventOf(h: Happening): Event {
    match h
    case Asked(id) => Add(id)
    case Replied(id, reply) => Settle(id, OutcomeOf(id.kind, reply))
  }

  function Events(hs: seq<Happening>): (log: seq<Event>)
    ensures |log| == |hs|
  {
    if hs == [] then [] else Events(hs[..|hs| - 1]) + [EventOf(hs[|hs| - 1])]
  }

  /** The count the promise gives an item. */
  function PromisedCount(hs: seq<Happening>, id: Id): Option<nat> {
    if hs == [] then None
    else
      var before := PromisedCount(hs[..|hs| - 1], id);
      match hs[|hs| - 1]
      case Asked(i) => if i == id && before.None? then Some(0) else before
      case Replied(i, reply) => if i == id then Promised(id.kind, reply, before) else before
  }

  /** The replies to `id` that count as failures. */
  function FailedReplies(hs: seq<Happening>, id: Id): nat {
    if hs == [] then 0
    else
      var h := hs[|hs| - 1];
      FailedReplies(hs[..|hs| - 1], id)
      + if h.Replied? && h.id == id && !h.reply.RateLimited? && !Answers(id.kind, h.reply) then 1 else 0
  }

  lemma SettledIsPromised(kind: Kind, reply: Reply, a: Option<nat>)
    requires a.Some? ==> a.value < MAX_ATTEMPTS
    ensures Settled(a, OutcomeOf(kind, reply)) == Promised(kind, reply, a) <==>
      a.None? || !Mistaken(kind, reply) || a.value == MAX_ATTEMPTS - 1
    ensures a.Some? ==>
      (Settled(a, OutcomeOf(kind, reply)).None? <==>
         Answers(kind, reply) || Mistaken(kind, reply) || (!reply.RateLimited? && a.value == MAX_ATTEMPTS - 1))
  {}

  /** How a reply is counted. */
  lemma OutcomeTells(kind: Kind, reply: Reply)
    ensures OutcomeOf(kind, reply) == Refused <==> reply.RateLimited?
    ensures OutcomeOf(kind, reply) == Done <==> Answers(kind, reply) || Mistaken(kind, reply)
  {}

  /** Exactly which replies take a queued item off the queue. It is what the promise says exactly if the
      reply is not the failed or skipped refresh of a volume, or is the fifth failure anyway. */
  lemma ReplyRemovesExactly(log: seq<Event>, id: Id, reply: Reply)
    requires Attempts(log, id).Some?
    ensures var a, after := Attempts(log, id), Attempts(log + [Settle(id, OutcomeOf(id.kind, reply))], id);
            && (after.None? <==> Answers(id.kind, reply) || Mistaken(id.kind, reply)
                                 || (!reply.RateLimited? && a.value == MAX_ATTEMPTS - 1))
            && (after == Promised(id.kind, reply, a) <==> !Mistaken(id.kind, reply) || a.value == MAX_ATTEMPTS - 1)
  {
    QueueIsPerItem(log, id);
    AttemptsNext(log, Settle(id, OutcomeOf(id.kind, reply)), id);
    SettledIsPromised(id.kind, reply, Attempts(log, id));
  }

  /** One more happening, as the count of one item sees it. */
  lemma CountStep(hs: seq<Happening>, id: Id)
    requires hs != []
    ensures var before := Attempts(Events(hs[..|hs| - 1]), id);
            Attempts(Events(hs), id) ==
              match hs[|hs| - 1]
              case Asked(i) => if i == id && before.None? then Some(0) else before
              case Replied(i, reply) => if i == id then Settled(before, OutcomeOf(id.kind, reply)) else before
  {
    AttemptsNext(Events(hs[..|hs| - 1]), EventOf(hs[|hs| - 1]), id);
  }

  /** A refresh that is queued once and fails upstream is gone after that one try. */
  lemma FailedRefreshIsForgotten()
    ensures var id := Id(VolumeIssuesKind, "1");
            var hs := [Asked(id), Replied(id, Error)];
            Replay(Events(hs)) == [] && PromisedCount(hs, id) == Some(1)
  {
    var id := Id(VolumeIssuesKind, "1");
    var hs := [Asked(id), Replied(id, Error)];
    assert hs[..1] == [Asked(id)] && hs[..1][..0] == [];
    assert PromisedCount(hs[..1], id) == Some(0);
    EventsNext(hs);
    EventsNext(hs[..1]);
    assert Replay([Add(id)]) == Apply([], Add(id)) == [Item(id, 0)];
    assert Events(hs)[..1] == [Add(id)] && Events(hs)[1] == Settle(id, Done);
    assert [Item(id, 0)][1..] == [] && Without([Item(id, 0)], id) == [];
  }

  /** No reply of another kind is ever mistaken: over every history the queue is what it promises. */
  lemma {:induction false} QueueIsAsPromised(hs: seq<Happening>, id: Id)
    requires !id.kind.VolumeIssuesKind?
    ensures Attempts(Events(hs), id) == PromisedCount(hs, id)
  {
    if hs != [] {
      var last := hs[|hs| - 1];
      QueueIsAsPromised(hs[..|hs| - 1], id);
      CountStep(hs, id);
      QueueIsPerItem(Events(hs[..|hs| - 1]), id);
      if last.Replied? { SettledIsPromised(id.kind, last.reply, PromisedCount(hs[..|hs| - 1], id)); }
    }
  }

  lemma EventsNext(hs: seq<Happening>)
    requires hs != []
    ensures Events(hs)[..|hs| - 1] == Events(hs[..|hs| - 1]) && Events(hs)[|hs| - 1] == EventOf(hs[|hs| - 1])
  {}

  /** At every moment of a history the item's count is the promised one. */
  ghost predicate AsPromised(hs: seq<Happening>, id: Id) {
    forall n :: 0 <= n <= |hs| ==> CountAgrees(hs, id, n)
  }

  ghost predicate CountAgrees(hs: seq<Happening>, id: Id, n: nat)
    requires n <= |hs|
  {
    Attempts(Events(hs[..n]), id) == PromisedCount(hs[..n], id)
  }

  /** No mistaken reply reaches the item while it is queued. */
  ghost predicate NeverMistaken(hs: seq<Happening>, id: Id) {
    forall n :: 0 <= n < |hs| ==> MistakenAt(hs, id, n) ==> PromisedCount(hs[..n], id).None?
  }

  predicate NoneFailed(count: Option<nat>) { count.None? || count.value == 0 }

  predicate MistakenAt(hs: seq<Happening>, id: Id, n: nat)
    requires n < |hs|
  {
    hs[n].Replied? && hs[n].id == id && Mistaken(id.kind, hs[n].reply)
  }

  /** Over every history of requests and replies the queue keeps its promise about an item exactly if no
      failed or skipped volume refresh is reported for it while it is queued. */
  lemma {:induction false} PromiseKeptExactly(hs: seq<Happening>, id: Id)
    ensures AsPromised(hs, id) <==> NeverMistaken(hs, id)
    ensures id.kind.VolumeIssuesKind? && AsPromised(hs, id) ==> NoneFailed(PromisedCount(hs, id))
  {
    if hs == [] {
      assert Attempts(Events(hs[..0]), id) == PromisedCount(hs[..0], id);
    } else {
      var init := hs[..|hs| - 1];
      PromiseKeptExactly(init, id);
      PrefixesOf(hs, id);
      if AsPromised(init, id) {
        assert CountAgrees(init, id, |init|) && init[..|init|] == init;
        LastCount(hs, id);
        assert hs[..|hs|] == hs;
        if id.kind.VolumeIssuesKind? && AsPromised(hs, id) { NoneFailedNext(hs, id); }
      }
    }
  }

  /** What holds of a history holds of it without its end and at its end. */
  lemma PrefixesOf(hs: seq<Happening>, id: Id)
    requires hs != []
    ensures var init := hs[..|hs| - 1];
            && (AsPromised(hs, id) <==> AsPromised(init, id) && CountAgrees(hs, id, |hs|))
            && (NeverMistaken(hs, id) <==>
                  (NeverMistaken(init, id) && (MistakenAt(hs, id, |hs| - 1) ==> PromisedCount(init, id).None?)))
  {
    var init := hs[..|hs| - 1];
    forall n | 0 <= n < |hs| ensures CountAgrees(hs, id, n) <==> CountAgrees(init, id, n) {
      assert hs[..n] == init[..n];
    }
    forall n | 0 <= n < |init| ensures MistakenAt(hs, id, n) <==> MistakenAt(init, id, n) {
      assert hs[..n] == init[..n];
    }
    forall n | 0 <= n < |hs| ensures hs[..n] == init[..n] {}
  }

  lemma LastCount(hs: seq<Happening>, id: Id)
    requires hs != []
    requires Attempts(Events(hs[..|hs| - 1]), id) == PromisedCount(hs[..|hs| - 1], id)
    requires id.kind.VolumeIssuesKind? ==> NoneFailed(PromisedCount(hs[..|hs| - 1], id))
    ensures Attempts(Events(hs), id) == PromisedCount(hs, id) <==>
      (MistakenAt(hs, id, |hs| - 1) ==> PromisedCount(hs[..|hs| - 1], id).None?)
  {
    var before, last := PromisedCount(hs[..|hs| - 1], id), hs[|hs| - 1];
    CountStep(hs, id);
    if last.Replied? && last.id == id {
      QueueIsPerItem(Events(hs[..|hs| - 1]), id);
      SettledIsPromised(id.kind, last.reply, before);
    }
  }

  lemma NoneFailedNext(hs: seq<Happening>, id: Id)
    requires hs != [] && id.kind.VolumeIssuesKind? && NoneFailed(PromisedCount(hs[..|hs| - 1], id))
    requires MistakenAt(hs, id, |hs| - 1) ==> PromisedCount(hs[..|hs| - 1], id).None?
    ensures NoneFailed(PromisedCount(hs, id))
  {}

  /** Conservation: from any moment on, an item that gets neither an answer nor a failed or skipped volume
      refresh stays queued until its fifth failed reply, with exactly its failed replies counted. */
  lemma {:induction false} KeptUntilFifthFailure(hs: seq<Happening>, more: seq<Happening>, id: Id)
    requires Attempts(Events(hs), id).Some?
    requires forall i :: 0 <= i < |more| && more[i].Replied? && more[i].id == id ==>
               !Answers(id.kind, more[i].reply) && !Mistaken(id.kind, more[i].reply)
    requires Attempts(Events(hs), id).value + FailedReplies(more, id) < MAX_ATTEMPTS
    ensures Attempts(Events(hs + more), id) == Some(Attempts(Events(hs), id).value + FailedReplies(more, id))
    decreases |more|
  {
    if more == [] {
      assert hs + more == hs;
    } else {
      var init := more[..|more| - 1];
      assert (hs + more)[..|hs + more| - 1] == hs + init;
      KeptUntilFifthFailure(hs, init, id);
      CountStep(hs + more, id);
    }
  }

  // ---- places in the queue -------------------------------------------------

  /** Both items are queued, `a` in front of `b`. */
  predicate Before(items: seq<Item>, a: Id, b: Id) {
    items != [] && if items[0].id == a then Find(items[1..], b).Some? else Before(items[1..], a, b)
  }

  lemma {:induction false} BeforeFinds(items: seq<Item>, a: Id, b: Id)
    requires Before(items, a, b)
    ensures Find(items, a).Some? && Find(items, b).Some?
  {
    if items[0].id != a { BeforeFinds(items[1..], a, b); }
  }

  lemma {:induction false} AppendKeepsOrder(items: seq<Item>, item: Item, a: Id, b: Id)
    requires Before(items, a, b)
    ensures Before(items + [item], a, b)
  {
    assert (items + [item])[1..] == items[1..] + [item];
    if items[0].id == a {
      FindStays(items[1..], item, b);
    } else {
      AppendKeepsOrder(items[1..], item, a, b);
    }
  }

  lemma {:induction false} FindStays(items: seq<Item>, item: Item, id: Id)
    requires Find(items, id).Some?
    ensures Find(items + [item], id) == Find(items, id)
  {
    assert (items + [item])[1..] == items[1..] + [item];
    if items[0].id != id { FindStays(items[1..], item, id); }
  }

  lemma {:induction false} AppendGoesLast(items: seq<Item>, item: Item, a: Id)
    requires Find(items, a).Some? && Find(items, item.id).None?
    ensures Before(items + [item], a, item.id)
  {
    assert (items + [item])[1..] == items[1..] + [item];
    if items[0].id == a { FindAppend(items[1..], item, item.id); } else { AppendGoesLast(items[1..], item, a); }
  }

  /** A new item goes behind every item already queued. */
  lemma NewGoesLast(log: seq<Event>, id: Id, a: Id)
    requires Attempts(log, a).Some? && Attempts(log, id).None?
    ensures Before(Replay(log + [Add(id)]), a, id)
    ensures Attempts(log + [Add(id)], id) == Some(0)
  {
    ReplayAppend(log, Add(id));
    AttemptsNext(log, Add(id), id);
    QueueIsPerItem(log, a);
    QueueIsPerItem(log, id);
    AppendGoesLast(Replay(log), Item(id, 0), a);
  }

  lemma {:induction false} WithoutKeepsOrder(items: seq<Item>, id: Id, a: Id, b: Id)
    requires Distinct(items) && InBounds(items) && Before(items, a, b) && id != a && id != b
    ensures Before(Without(items, id), a, b)
  {
    DistinctTail(items);
    assert InBounds(items[1..]);
    var rest := Without(items[1..], id);
    assert items[0].id != id ==> ([items[0]] + rest)[1..] == rest;
    if items[0].id == a {
      WithoutFinds(items[1..], id, b);
    } else {
      WithoutKeepsOrder(items[1..], id, a, b);
    }
  }

  lemma {:induction false} CountFailureKeepsOrder(items: seq<Item>, id: Id, a: Id, b: Id)
    requires Distinct(items) && InBounds(items) && Before(items, a, b) && a != b
    requires Find(CountFailure(items, id), a).Some? && Find(CountFailure(items, id), b).Some?
    ensures Before(CountFailure(items, id), a, b)
  {
    DistinctTail(items);
    assert InBounds(items[1..]);
    var now, rest := CountFailure(items, id), CountFailure(items[1..], id);
    assert now == rest || (now[0].id == items[0].id && now[1..] == rest);
    if items[0].id == a {
      CountFailureFinds(items[1..], id, a);
    } else {
      BeforeFinds(items[1..], a, b);
      CountFailureKeepsOrder(items[1..], id, a, b);
    }
  }

  lemma ApplyKeepsOrder(items: seq<Item>, e: Event, a: Id, b: Id)
    requires Distinct(items) && InBounds(items) && Before(items, a, b) && a != b
    requires Find(Apply(items, e), a).Some? && Find(Apply(items, e), b).Some?
    ensures Before(Apply(items, e), a, b)
  {
    match e {
      case Add(i) => if Find(items, i).None? { AppendKeepsOrder(items, Item(i, 0), a, b); }
      case Settle(i, Done) =>
        WithoutFinds(items, i, i);
        WithoutKeepsOrder(items, i, a, b);
      case Settle(i, Failed) => CountFailureKeepsOrder(items, i, a, b);
      case Settle(_, Refused) =>
    }
  }

  /** Two items that are queued at every moment of a log keep their order, whatever is queued, settled or
      counted meanwhile. */
  lemma {:induction false} OrderIsKept(log: seq<Event>, more: seq<Event>, a: Id, b: Id)
    requires Before(Replay(log), a, b) && a != b
    requires forall n :: 0 <= n <= |more| ==> BothQueued(log + more[..n], a, b)
    ensures Before(Replay(log + more), a, b)
  {
    if more == [] {
      assert log + more == log;
    } else {
      var init, e := more[..|more| - 1], more[|more| - 1];
      forall n | 0 <= n <= |init| ensures BothQueued(log + init[..n], a, b) { assert init[..n] == more[..n]; }
      OrderIsKept(log, init, a, b);
      assert log + more == log + init + [e] && more[..|more|] == more;
      ReplayAppend(log + init, e);
      QueueIsPerItem(log + init, a);
      QueueIsPerItem(log + more, a);
      QueueIsPerItem(log + more, b);
      ApplyKeepsOrder(Replay(log + init), e, a, b);
    }
  }

  ghost predicate BothQueued(log: seq<Event>, a: Id, b: Id) { Attempts(log, a).Some? && Attempts(log, b).Some? }

  lemma ReplayAppend(log: seq<Event>, e: Event)
    ensures Replay(log + [e]) == Apply(Replay(log), e)
  {
    assert (log + [e])[..|log|] == log;
  }

  // ---- the worker ----------------------------------------------------------

  /** What happens in one listed item's turn: whether its endpoint has budget, what its fetch brings, and
      what clients queue meanwhile. */
  datatype Turn = Turn(may: bool, reply: Reply, arrivals: seq<Id>)

  /** What a pass does: for each listed item it may ask for, the requests that arrive meanwhile, then
      the item's own outcome. */
  function PassLog(listed: seq<Item>, turns: seq<Turn>, n: nat): seq<Event>
    requires n <= |listed| == |turns|
  {
    if n == 0 then []
    else
      PassLog(listed, turns, n - 1) +
      if turns[n - 1].may then
        Adds(turns[n - 1].arrivals) + [Settle(listed[n - 1].id, OutcomeOf(listed[n - 1].id.kind, turns[n - 1].reply))]
      else []
  }

  function Adds(ids: seq<Id>): (r: seq<Event>)
    ensures |r| == |ids|
  {
    if ids == [] then [] else Adds(ids[..|ids| - 1]) + [Add(ids[|ids| - 1])]
  }

  /** How many of the first `n` listed items ended with `outcome`. */
  function Tally(listed: seq<Item>, turns: seq<Turn>, n: nat, outcome: Outcome): nat
    requires n <= |listed| == |turns|
  {
    if n == 0 then 0
    else
      Tally(listed, turns, n - 1, outcome)
      + if turns[n - 1].may && OutcomeOf(listed[n - 1].id.kind, turns[n - 1].reply) == outcome then 1 else 0
  }

  lemma {:induction false} AddsInOrder(ids: seq<Id>, i: nat)
    requires i < |ids|
    ensures Adds(ids)[i] == Add(ids[i])
  {
    if i < |ids| - 1 { AddsInOrder(ids[..|ids| - 1], i); }
  }

  predicate EndedAs(listed: seq<Item>, turns: seq<Turn>, i: nat, outcome: Outcome)
    requires i < |listed| == |turns|
  {
    turns[i].may && OutcomeOf(listed[i].id.kind, turns[i].reply) == outcome
  }

  lemma {:induction false} TallyCounts(listed: seq<Item>, turns: seq<Turn>, n: nat, outcome: Outcome)
    requires n <= |listed| == |turns|
    ensures Tally(listed, turns, n, outcome) == |set i: nat | i < n && EndedAs(listed, turns, i, outcome)|
  {
    if n > 0 {
      TallyCounts(listed, turns, n - 1, outcome);
      assert (set i: nat | i < n && EndedAs(listed, turns, i, outcome))
          == (set i: nat | i < n - 1 && EndedAs(listed, turns, i, outcome))
             + if EndedAs(listed, turns, n - 1, outcome) then {n - 1} else {};
    }
  }

  /** The listed items that were asked for and answered, or mistaken for answered. */
  function AnsweredTurns(listed: seq<Item>, turns: seq<Turn>): set<nat>
    requires |listed| == |turns|
  {
    set i: nat | 0 <= i < |listed| && turns[i].may
                 && (Answers(listed[i].id.kind, turns[i].reply) || Mistaken(listed[i].id.kind, turns[i].reply))
  }

  function RefusedTurns(listed: seq<Item>, turns: seq<Turn>): set<nat>
    requires |listed| == |turns|
  {
    set i: nat | 0 <= i < |listed| && turns[i].may && turns[i].reply.RateLimited?
  }

  function FailedTurns(listed: seq<Item>, turns: seq<Turn>): set<nat>
    requires |listed| == |turns|
  {
    (set i: nat | 0 <= i < |listed| && turns[i].may) - AnsweredTurns(listed, turns) - RefusedTurns(listed, turns)
  }

  lemma TalliesAre(listed: seq<Item>, turns: seq<Turn>)
    requires |listed| == |turns|
    ensures Tally(listed, turns, |listed|, Done) == |AnsweredTurns(listed, turns)|
    ensures Tally(listed, turns, |listed|, Refused) == |RefusedTurns(listed, turns)|
    ensures Tally(listed, turns, |listed|, Failed) == |FailedTurns(listed, turns)|
  {
    TallyCounts(listed, turns, |listed|, Done);
    TallyCounts(listed, turns, |listed|, Refused);
    TallyCounts(listed, turns, |listed|, Failed);
    var n := |listed|;
    assert (set i: nat | i < n && EndedAs(listed, turns, i, Done)) == AnsweredTurns(listed, turns);
    assert (set i: nat | i < n && EndedAs(listed, turns, i, Refused)) == RefusedTurns(listed, turns);
    assert (set i: nat | i < n && EndedAs(listed, turns, i, Failed)) == FailedTurns(listed, turns);
  }

  datatype StopReason = NothingToDo | RateLimitedStop | Waiting | Continued

  /** What a pass reports: every listed item as fetched, skipped or failed, and why it stopped. */
  ghost predicate Reports(listed: seq<Item>, turns: seq<Turn>, fetched: nat, skipped: nat, failed: nat,
                          stop: StopReason)
    requires |listed| == |turns|
  {
    && fetched + skipped + failed == |listed|
    && fetched == |AnsweredTurns(listed, turns)|
    && failed == |FailedTurns(listed, turns)|
    && (stop == NothingToDo <==> listed == [])
    && (stop == Continued <==> fetched + failed != 0)
    && (stop == RateLimitedStop <==> fetched + failed == 0 && RefusedTurns(listed, turns) != {})
  }

  lemma ReportIs(listed: seq<Item>, turns: seq<Turn>, fetched: nat, skipped: nat, failed: nat, refused: bool,
                 stop: StopReason)
    requires |listed| == |turns| && fetched + skipped + failed == |listed|
    requires fetched == Tally(listed, turns, |listed|, Done) && failed == Tally(listed, turns, |listed|, Failed)
    requires refused <==> Tally(listed, turns, |listed|, Refused) != 0
    requires stop == if listed == [] then NothingToDo else if fetched != 0 || failed != 0 then Continued
                     else if refused then RateLimitedStop else Waiting
    ensures Reports(listed, turns, fetched, skipped, failed, stop)
  {
    TalliesAre(listed, turns);
  }

  class PendingQueue {
    var items: seq<Item>
    ghost var log: seq<Event>

    ghost predicate Valid()
      reads this
    { items == Replay(log) }

    constructor ()
      ensures Valid() && log == []
    { items, log := [], []; }

    method PendingAdd(id: Id)
      requires Valid()
      modifies this
      ensures Valid() && log == old(log) + [Add(id)]
      ensures if exists i :: 0 <= i < |old(items)| && old(items)[i].id == id then items == old(items)
              else items == old(items) + [Item(id, 0)]
    {
      ReplayAppend(log, Add(id));
      FindIndex(items, id);
      if Find(items, id).None? { items := items + [Item(id, 0)]; }
      log := log + [Add(id)];
    }

    method PendingDone(id: Id)
      requires Valid()
      modifies this
      ensures Valid() && log == old(log) + [Settle(id, Done)]
      ensures forall x :: x in items <==> x in old(items) && x.id != id
    {
      forall x ensures x in Without(items, id) <==> x in items && x.id != id { WithoutMembers(items, id, x); }
      ReplayAppend(log, Settle(id, Done));
      items := Without(items, id);
      log := log + [Settle(id, Done)];
    }

    method PendingFailed(id: Id)
      requires Valid()
      modifies this
      ensures Valid() && log == old(log) + [Settle(id, Failed)]
      ensures CountedOnce(old(items), items, id)
    {
      OnlyOneCounted(items, id);
      ReplayAppend(log, Settle(id, Failed));
      items := CountFailure(items, id);
      log := log + [Settle(id, Failed)];
    }

    method SettleItem(id: Id, outcome: Outcome)
      requires Valid()
      modifies this
      ensures Valid() && log == old(log) + [Settle(id, outcome)]
    {
      match outcome
      case Refused =>
        ReplayAppend(log, Settle(id, Refused));
        log := log + [Settle(id, Refused)];
      case Failed => PendingFailed(id);
      case Done => PendingDone(id);
    }

    method Arrive(ids: seq<Id>)
      requires Valid()
      modifies this
      ensures Valid() && log == old(log) + Adds(ids)
    {
      var i := 0;
      while i < |ids|
        invariant 0 <= i <= |ids| && Valid() && log == old(log) + Adds(ids[..i])
      {
        PendingAdd(ids[i]);
        i := i + 1;
        assert ids[..i][..i - 1] == ids[..i - 1];
        assert old(log) + Adds(ids[..i - 1]) + [Add(ids[i - 1])] == old(log) + Adds(ids[..i]);
      }
      assert ids[..i] == ids;
    }

    /** One pass over at most `limit` items, oldest first; `turns` says what happens in each item's turn. */
    method ProcessPending(limit: nat, turns: seq<Turn>)
      returns (fetched: nat, skipped: nat, failed: nat, stop: StopReason)
      requires Valid() && |turns| == Min(limit, |items|)
      modifies this
      ensures Valid()
      ensures var listed := old(items)[..Min(limit, |old(items)|)];
              && log == old(log) + PassLog(listed, turns, |listed|)
              && Reports(listed, turns, fetched, skipped, failed, stop)
    {
      fetched, skipped, failed := 0, 0, 0;
      var listed := items[..Min(limit, |items|)];
      if listed == [] {
        stop := NothingToDo;
        ReportIs(listed, turns, 0, 0, 0, false, stop);
        return;
      }
      var refused := false;
      var i := 0;
      ghost var pass: seq<Event> := [];
      while i < |listed|
        invariant 0 <= i <= |listed| && Valid()
        invariant pass == PassLog(listed, turns, i) && log == old(log) + pass
        invariant fetched + skipped + failed == i
        invariant fetched == Tally(listed, turns, i, Done) && failed == Tally(listed, turns, i, Failed)
        invariant refused <==> Tally(listed, turns, i, Refused) != 0
      {
        if !turns[i].may {
          skipped := skipped + 1;
        } else {
          var id := listed[i].id;
          var outcome := OutcomeOf(id.kind, turns[i].reply);
          Arrive(turns[i].arrivals);
          SettleItem(id, outcome);
          match outcome {
            case Refused => skipped, refused := skipped + 1, true;
            case Failed => failed := failed + 1;
            case Done => fetched := fetched + 1;
          }
          SeqAssoc(old(log), pass, Adds(turns[i].arrivals) + [Settle(id, outcome)]);
          SeqAssoc(old(log) + pass, Adds(turns[i].arrivals), [Settle(id, outcome)]);
          pass := pass + (Adds(turns[i].arrivals) + [Settle(id, outcome)]);
        }
        i := i + 1;
      }
      stop := if fetched == 0 && failed == 0 then (if refused then RateLimitedStop else Waiting) else Continued;
      ReportIs(listed, turns, fetched, skipped, failed, refused, stop);
    }
  }

  // ---- what a pass does to one item ----------------------------------------

  lemma {:induction false} AddsKeep(log: seq<Event>, ids: seq<Id>, id: Id)
    requires id !in ids || Attempts(log, id).Some?
    ensures Attempts(log + Adds(ids), id) == Attempts(log, id)
    decreases |ids|
  {
    if ids == [] {
      assert log + Adds(ids) == log;
    } else {
      var init := ids[..|ids| - 1];
      AddsKeep(log, init, id);
      assert ids[|ids| - 1] in ids;
      assert (log + Adds(ids))[..|log + Adds(ids)| - 1] == log + Adds(init);
    }
  }

  lemma TurnOnItem(log: seq<Event>, ids: seq<Id>, settle: Event, id: Id)
    requires settle.Settle? && (Attempts(log, id).Some? || id !in ids)
    ensures Attempts(log + (Adds(ids) + [settle]), id) ==
      if settle.id == id then Settled(Attempts(log, id), settle.outcome) else Attempts(log, id)
  {
    AddsKeep(log, ids, id);
    AttemptsNext(log + Adds(ids), settle, id);
    assert log + (Adds(ids) + [settle]) == log + Adds(ids) + [settle];
  }

  /** The item's own turn, after what came before it in the pass. */
  lemma PassTurn(log: seq<Event>, listed: seq<Item>, turns: seq<Turn>, n: nat, id: Id, before: Option<nat>)
    requires 0 < n <= |listed| == |turns|
    requires before == Attempts(log + PassLog(listed, turns, n - 1), id)
    requires before.Some? || id !in turns[n - 1].arrivals
    ensures Attempts(log + PassLog(listed, turns, n), id) ==
      if turns[n - 1].may && listed[n - 1].id == id then Settled(before, OutcomeOf(id.kind, turns[n - 1].reply))
      else before
  {
    PassStep(log, listed, turns, n);
    if turns[n - 1].may {
      TurnOnItem(log + PassLog(listed, turns, n - 1), turns[n - 1].arrivals,
                 SettleOf(listed[n - 1].id, turns[n - 1].reply), id);
    }
  }

  /** A pass leaves an item's count alone unless it gets an answer or an error for it: items it may not
      ask for, items that are refused and items it does not list keep their count. */
  lemma {:induction false} PassLeavesItem(log: seq<Event>, listed: seq<Item>, turns: seq<Turn>, n: nat, id: Id)
    requires n <= |listed| == |turns| && Attempts(log, id).Some?
    requires forall i :: 0 <= i < n && listed[i].id == id && turns[i].may ==> turns[i].reply.RateLimited?
    ensures Attempts(log + PassLog(listed, turns, n), id) == Attempts(log, id)
  {
    if n == 0 {
      assert log + [] == log;
    } else {
      PassLeavesItem(log, listed, turns, n - 1, id);
      PassTurn(log, listed, turns, n, id, Attempts(log, id));
    }
  }

  /** A pass settles an item once: a failure adds one to its count or drops it at the fifth, an answer
      takes it off the queue, and so does the failed or skipped refresh of a volume, against the promise. */
  lemma {:induction false} PassSettlesItem(log: seq<Event>, listed: seq<Item>, turns: seq<Turn>, n: nat, k: nat)
    requires k < n <= |listed| == |turns| && Distinct(listed) && Attempts(log, listed[k].id).Some?
    requires turns[k].may && !turns[k].reply.RateLimited?
    requires forall i :: k < i < n ==> listed[k].id !in turns[i].arrivals  // not asked for again
    ensures var id, a, reply := listed[k].id, Attempts(log, listed[k].id), turns[k].reply;
            var after := Attempts(log + PassLog(listed, turns, n), id);
            && after == Settled(a, OutcomeOf(id.kind, reply))
            && (after.None? <==>
                  (Answers(id.kind, reply) || Mistaken(id.kind, reply) || a.value == MAX_ATTEMPTS - 1))
            && (after == Promised(id.kind, reply, a) <==> (!Mistaken(id.kind, reply) || a.value == MAX_ATTEMPTS - 1))
  {
    var id := listed[k].id;
    QueueIsPerItem(log, id);
    SettledIsPromised(id.kind, turns[k].reply, Attempts(log, id));
    if k == n - 1 {
      PassLeavesItem(log, listed, turns, n - 1, id);
    } else {
      PassSettlesItem(log, listed, turns, n - 1, k);
    }
    PassTurn(log, listed, turns, n, id, Attempts(log + PassLog(listed, turns, n - 1), id));
  }

  /** Both items are queued before and after each of the first `n` turns of a pass. */
  ghost predicate StayQueued(log: seq<Event>, listed: seq<Item>, turns: seq<Turn>, n: nat, a: Id, b: Id)
    requires n <= |listed| == |turns|
  {
    && BothQueued(log + PassLog(listed, turns, n), a, b)
    && (n > 0 ==> StayQueued(log, listed, turns, n - 1, a, b))
  }

  /** Two items that stay queued from turn to turn of a pass keep their order. */
  lemma {:induction false} PassKeepsOrder(log: seq<Event>, listed: seq<Item>, turns: seq<Turn>, n: nat, a: Id, b: Id)
    requires n <= |listed| == |turns| && Before(Replay(log), a, b) && a != b
    requires StayQueued(log, listed, turns, n, a, b)
    ensures Before(Replay(log + PassLog(listed, turns, n)), a, b)
  {
    if n == 0 {
      assert log + [] == log;
    } else {
      PassKeepsOrder(log, listed, turns, n - 1, a, b);
      PassStep(log, listed, turns, n);
      var before := log + PassLog(listed, turns, n - 1);
      assert StayQueued(log, listed, turns, n - 1, a, b);
      var turn := turns[n - 1];
      if turn.may { TurnKeepsOrder(before, turn.arrivals, SettleOf(listed[n - 1].id, turn.reply), a, b); }
    }
  }

  function SettleOf(id: Id, reply: Reply): Event { Settle(id, OutcomeOf(id.kind, reply)) }

  lemma PassStep(log: seq<Event>, listed: seq<Item>, turns: seq<Turn>, n: nat)
    requires 0 < n <= |listed| == |turns|
    ensures var before := log + PassLog(listed, turns, n - 1);
            var turn := turns[n - 1];
            log + PassLog(listed, turns, n) ==
              if turn.may then before + (Adds(turn.arrivals) + [SettleOf(listed[n - 1].id, turn.reply)])
              else before
  {
    var init := PassLog(listed, turns, n - 1);
    if turns[n - 1].may {
      SeqAssoc(log, init, Adds(turns[n - 1].arrivals) + [SettleOf(listed[n - 1].id, turns[n - 1].reply)]);
    } else {
      assert init + [] == init;
    }
  }

  lemma TurnKeepsOrder(log: seq<Event>, ids: seq<Id>, settle: Event, a: Id, b: Id)
    requires Before(Replay(log), a, b) && a != b && BothQueued(log, a, b)
    requires BothQueued(log + (Adds(ids) + [settle]), a, b)
    ensures Before(Replay(log + (Adds(ids) + [settle])), a, b)
  {
    var turn := Adds(ids) + [settle];
    forall n | 0 <= n <= |turn| ensures BothQueued(log + turn[..n], a, b) {
      if n <= |ids| {
        AddsPrefix(ids, n);
        assert turn[..n] == Adds(ids[..n]);
        AddsKeep(log, ids[..n], a);
        AddsKeep(log, ids[..n], b);
      } else {
        assert turn[..n] == turn;
      }
    }
    OrderIsKept(log, turn, a, b);
  }

  lemma {:induction false} AddsPrefix(ids: seq<Id>, n: nat)
    requires n <= |ids|
    ensures Adds(ids)[..n] == Adds(ids[..n])
  {
    if n == |ids| {
      assert ids[..n] == ids && Adds(ids)[..n] == Adds(ids);
    } else {
      AddsPrefix(ids[..|ids| - 1], n);
      assert ids[..|ids| - 1][..n] == ids[..n];
    }
  }
}
