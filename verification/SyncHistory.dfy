/** What the watermark guarantees over every history of sync runs (failing anywhere, capped, or cut
    off by a crash), rewinds, other writers and upstream edits between runs. */
module SyncHistory {
  import opened Wrappers
  import opened Sync

  /** `floor` is the oldest second the sync has answered for since it first had a watermark;
      `running` is the watermark a run in flight began from. */
  datatype State = State(up: seq<Row>, store: map<nat, Row>, mark: Option<int>, floor: Option<int>,
                         running: Option<Option<int>>)

  datatype Event =
    | Begin
    | End(now: int, handed: seq<Row>, latest: Option<int>, complete: bool)  // the run moves the watermark
    | Crash(now: int, handed: seq<Row>, latest: Option<int>)                // it stored pages, then died
    | Rewind(target: int)
    | Edit(up: seq<Row>)                                                    // upstream, between runs
    | Other(rows: seq<Row>)                                                 // another writer stores upstream rows

  ghost predicate Legal(s: State, e: Event) {
    match e
    case Begin => s.running.None?
    case End(now, handed, latest, complete) =>
      s.running.Some? && WindowRun(s.up, StartOf(s.running.value, now), now + FUTURE_PAD, handed, latest, complete)
    case Crash(now, handed, latest) =>
      s.running.Some? && WindowRun(s.up, StartOf(s.running.value, now), now + FUTURE_PAD, handed, latest, false)
    case Rewind(_) => true
    case Edit(up) =>
      && s.running.None? && Catalogue(up)
      // edits are stamped with ComicVine's clock, at most an hour behind the watermark
      && (s.mark.Some? ==> forall r :: r in up && r !in s.up ==> s.mark.value - OVERLAP <= r.date)
    case Other(rows) => forall r :: r in rows ==> r in s.up
  }

  function Step(s: State, e: Event): State {
    match e
    case Begin => s.(running := Some(s.mark))
    case End(now, handed, latest, _) =>
      var began := if s.running.Some? then s.running.value else s.mark;
      var moves := latest.Some? && (began.None? || latest.value > began.value);
      s.(store := Apply(s.store, handed),
         mark := if moves then latest else s.mark,
         floor := if moves then Some(FloorOf(s.floor, began, now)) else s.floor,
         running := None)
    case Crash(_, handed, _) => s.(store := Apply(s.store, handed), running := None)
    case Rewind(target) =>
      s.(mark := Some(Rewound(s.mark, target)),
         floor := if s.floor.Some? then s.floor else Some(target - OVERLAP))
    case Edit(up) => s.(up := up)
    case Other(rows) => s.(store := Apply(s.store, rows))
  }

  function FloorOf(floor: Option<int>, began: Option<int>, now: int): int {
    var start := Sec(StartOf(began, now));
    if began.Some? && floor.Some? then Min(floor.value, start) else start
  }

  /** The store holds the current version of every upstream row dated in [lo, hi). */
  ghost predicate Mirrors(up: seq<Row>, store: map<nat, Row>, lo: int, hi: int) {
    forall r :: r in up && lo <= r.date < hi ==> r.id in store && store[r.id] == r
  }

  /** No gap: everything from the floor to an hour behind the watermark is stored as it is upstream. */
  ghost predicate GapFree(s: State) {
    s.mark.Some? ==> s.floor.Some? && Mirrors(s.up, s.store, s.floor.value, s.mark.value - OVERLAP)
  }

  ghost predicate Inv(s: State) {
    && Catalogue(s.up)
    && (s.mark.None? ==> s.floor.None?)
    && GapFree(s)
    && (s.running.Some? && s.running.value.Some? ==>
          var m := s.running.value.value;
          && s.floor.Some? && s.mark.Some? && s.mark.value <= m
          && Mirrors(s.up, s.store, s.floor.value, m - OVERLAP))
  }

  /** Before the first run there is no watermark and nothing is promised about what is stored. */
  ghost predicate Initial(s: State) {
    Catalogue(s.up) && s.mark.None? && s.floor.None? && s.running.None?
  }

  // ---- writing upstream rows -----------------------------------------------

  /** IDs are unique upstream, so storing upstream rows leaves every stored upstream row as it is. */
  lemma {:induction false} ApplyUpstream(up: seq<Row>, store: map<nat, Row>, rows: seq<Row>, r: Row)
    requires Catalogue(up) && r in up && forall q :: q in rows ==> q in up
    ensures var after := Apply(store, rows);
            (r in rows || (r.id in store && store[r.id] == r)) ==> r.id in after && after[r.id] == r
    decreases |rows|
  {
    if rows != [] {
      var q := rows[0];
      var store' := store[q.id := q];
      assert q in up;
      if q.id == r.id {
        var i :| 0 <= i < |up| && up[i] == q;
        var j :| 0 <= j < |up| && up[j] == r;
        assert i == j;
      }
      assert forall p :: p in rows[1..] ==> p in rows;
      ApplyUpstream(up, store', rows[1..], r);
      assert r in rows <==> r == q || r in rows[1..];
    }
  }

  lemma ApplyKeepsMirror(up: seq<Row>, store: map<nat, Row>, rows: seq<Row>, lo: int, hi: int)
    requires Catalogue(up) && (forall q :: q in rows ==> q in up) && Mirrors(up, store, lo, hi)
    ensures Mirrors(up, Apply(store, rows), lo, hi)
  {
    forall r | r in up && lo <= r.date < hi ensures r.id in Apply(store, rows) && Apply(store, rows)[r.id] == r {
      ApplyUpstream(up, store, rows, r);
    }
  }

  lemma ApplyMirrors(up: seq<Row>, store: map<nat, Row>, rows: seq<Row>, lo: int, hi: int)
    requires Catalogue(up) && (forall q :: q in rows ==> q in up) && AllOf(rows, up, lo, hi - 1)
    ensures Mirrors(up, Apply(store, rows), lo, hi)
  {
    forall r | r in up && lo <= r.date < hi ensures r.id in Apply(store, rows) && Apply(store, rows)[r.id] == r {
      ApplyUpstream(up, store, rows, r);
    }
  }

  // ---- every history -------------------------------------------------------

  lemma StepKeepsInv(s: State, e: Event)
    requires Inv(s) && Legal(s, e)
    ensures Inv(Step(s, e))
  {
    var s' := Step(s, e);
    match e {
      case Begin =>
      case End(now, handed, latest, complete) =>
        var began := s.running.value;
        var start := Sec(StartOf(began, now));
        if s.mark.Some? { ApplyKeepsMirror(s.up, s.store, handed, s.floor.value, s.mark.value - OVERLAP); }
        if s'.mark != s.mark || s'.floor != s.floor {
          ApplyMirrors(s.up, s.store, handed, start, latest.value);
          if began.Some? { ApplyKeepsMirror(s.up, s.store, handed, s.floor.value, began.value - OVERLAP); }
        }
      case Crash(now, handed, latest) =>
        if s.mark.Some? { ApplyKeepsMirror(s.up, s.store, handed, s.floor.value, s.mark.value - OVERLAP); }
      case Rewind(target) =>
      case Edit(up) =>
      case Other(rows) =>
        if s.mark.Some? { ApplyKeepsMirror(s.up, s.store, rows, s.floor.value, s.mark.value - OVERLAP); }
        if s.running.Some? && s.running.value.Some? {
          ApplyKeepsMirror(s.up, s.store, rows, s.floor.value, s.running.value.value - OVERLAP);
        }
    }
  }

  ghost predicate LegalRun(s: State, es: seq<Event>)
    decreases |es|
  {
    es == [] || (Legal(s, es[0]) && LegalRun(Step(s, es[0]), es[1..]))
  }

  function Run(s: State, es: seq<Event>): State
    decreases |es|
  {
    if es == [] then s else Run(Step(s, es[0]), es[1..])
  }

  lemma {:induction false} RunKeepsInv(s: State, es: seq<Event>)
    requires Inv(s) && LegalRun(s, es)
    ensures Inv(Run(s, es))
    decreases |es|
  {
    if es != [] {
      StepKeepsInv(s, es[0]);
      RunKeepsInv(Step(s, es[0]), es[1..]);
    }
  }

  /** Gap-freedom over whole histories. */
  lemma NoGapEver(s: State, es: seq<Event>)
    requires Initial(s) && LegalRun(s, es)
    ensures GapFree(Run(s, es))
  {
    RunKeepsInv(s, es);
  }

  /** After a complete run the store mirrors upstream from the floor to the end of the window. */
  lemma CompleteRunCatchesUp(s: State, es: seq<Event>, now: int, handed: seq<Row>, latest: Option<int>)
    requires Initial(s) && LegalRun(s, es + [End(now, handed, latest, true)])
    requires Run(s, es).running.Some? && StartOf(Run(s, es).running.value, now) < now + FUTURE_PAD
    ensures var after := Run(s, es + [End(now, handed, latest, true)]);
            Run(s, es).running.value.Some? || latest.Some? ==>
              after.floor.Some? && Mirrors(after.up, after.store, after.floor.value, Sec(now + FUTURE_PAD) + 1)
  {
    var e := End(now, handed, latest, true);
    RunConcat(s, es, [e]);
    RunKeepsInv(s, es);
    var t := Run(s, es);
    assert Run(t, [e]) == Step(t, e) by { assert [e][1..] == []; }
    var began := t.running.value;
    if began.Some? {
      ApplyKeepsMirror(t.up, t.store, handed, t.floor.value, began.value - OVERLAP);
    }
    if began.Some? || latest.Some? {
      ApplyMirrors(t.up, t.store, handed, Sec(StartOf(began, now)), Sec(now + FUTURE_PAD) + 1);
    }
  }

  lemma {:induction false} RunConcat(s: State, es: seq<Event>, fs: seq<Event>)
    requires LegalRun(s, es + fs)
    ensures LegalRun(s, es) && LegalRun(Run(s, es), fs) && Run(s, es + fs) == Run(Run(s, es), fs)
    decreases |es|
  {
    if es == [] {
      assert es + fs == fs;
    } else {
      assert (es + fs)[0] == es[0] && (es + fs)[1..] == es[1..] + fs;
      RunConcat(Step(s, es[0]), es[1..], fs);
    }
  }

  /** A run never lowers the watermark it began from, nor the one it finds if it began from one; a
      rewind never raises it; nothing else touches it. */
  lemma WatermarkDirection(s: State, e: Event)
    requires Inv(s) && Legal(s, e)
    ensures var after := Step(s, e).mark;
            match e
            case End(_, _, _, _) =>
              s.running.value.None? ||
              (after.Some? && (after == s.mark || s.mark.value <= s.running.value.value < after.value))
            case Rewind(_) => after.Some? && (s.mark.Some? ==> after.value <= s.mark.value)
            case _ => after == s.mark
  {}

  /** The end of a run that stored a row newer than the watermark it began from makes the newest date it
      stored the watermark; any other end leaves the watermark as it finds it. */
  lemma EndMovesMark(s: State, now: int, handed: seq<Row>, latest: Option<int>, complete: bool)
    requires Inv(s) && Legal(s, End(now, handed, latest, complete))
    ensures var (began, after) := (s.running.value, Step(s, End(now, handed, latest, complete)));
            && after.running.None? && after.up == s.up
            && (if HasNewer(handed, began) then after.mark.Some? && IsNewest(handed, after.mark.value)
                else after.mark == s.mark)
            && forall id :: LastWins(s.store, after.store, handed, id)
  {
    MaxDateIsMax(handed);
    forall id ensures LastWins(s.store, Apply(s.store, handed), handed, id) {
      ApplyLastWins(s.store, handed, id);
    }
  }

  /** The first watermark comes with a floor: 72 hours before the run that set it, or an hour before the
      target of a rewind. A later run that began from a watermark lowers the floor to its own start. */
  lemma FloorIs(s: State, e: Event)
    requires Inv(s) && Legal(s, e) && Step(s, e).mark != s.mark
    ensures var floor := Step(s, e).floor;
            && floor.Some?
            && (e.Rewind? ==> floor.value == if s.floor.Some? then s.floor.value else e.target - 3600)
            && (e.End? && s.running.value.None? ==>
                  floor.value * 1_000_000 <= e.now - 259_200_000_000 < (floor.value + 1) * 1_000_000)
            && (e.End? && s.running.value.Some? ==>
                  floor.value == Min(s.floor.value, s.running.value.value - 3600))
  {}

  /** The two jobs do not exclude each other. A rewind made while a run is in flight takes effect
      exactly if that run stores nothing newer than the watermark it began from. */
  lemma RewindDuringRun(s: State, target: int, now: int, handed: seq<Row>, latest: Option<int>, complete: bool)
    requires Inv(s) && s.running.Some? && s.running.value.Some? && target < s.mark.value
    requires Legal(Step(s, Rewind(target)), End(now, handed, latest, complete))
    ensures var after := Step(Step(s, Rewind(target)), End(now, handed, latest, complete));
            after.mark == Some(target) <==> (latest.None? || latest.value <= s.running.value.value)
  {}

  /** For a run that fails nowhere the condition is about upstream alone: the rewind survives exactly if
      no row newer than the watermark the run began from lies within its reach. */
  lemma RewindSurvivesExactly(s: State, target: int, now: int, handed: seq<Row>, complete: bool)
    requires Inv(s) && s.running.Some? && s.running.value.Some? && target < s.mark.value
    requires Legal(Step(s, Rewind(target)), End(now, handed, MaxDate(handed), complete))
    requires CleanRun(s.up, StartOf(s.running.value, now), now + FUTURE_PAD, Some(MAX_CHUNKS), handed)
    ensures var after := Step(Step(s, Rewind(target)), End(now, handed, MaxDate(handed), complete));
            after.mark == Some(target) <==> !HasNewRow(s.up, s.running.value, now)
  {
    RewindDuringRun(s, target, now, handed, MaxDate(handed), complete);
    CleanRunMovesExactly(s.up, s.running.value, now, handed);
  }

  /** A watermark of 10,000 seconds, a rewind to 0 while a run is in flight, and one row an hour newer:
      the run ends with the watermark at that row, and the rewind is gone. The state is reached from an
      empty one. */
  lemma RewindIsLost(now: int)
    requires 13_600 * SECOND <= now < 13_601 * SECOND
    ensures var row := Row(1, 13_600, 0);
            var s := State([row], map[], Some(10_000), Some(6_400), Some(Some(10_000)));
            var e := End(now, [row], Some(13_600), true);
            var way := [Rewind(10_000), Edit([row]), Begin];
            && LegalRun(State([], map[], None, None, None), way) && Run(State([], map[], None, None, None), way) == s
            && Inv(s) && Legal(Step(s, Rewind(0)), e)
            && CleanRun(s.up, StartOf(s.running.value, now), now + FUTURE_PAD, Some(MAX_CHUNKS), [row])
            && Step(Step(s, Rewind(0)), e).mark == Some(13_600)
  {
    var row := Row(1, 13_600, 0);
    assert MaxDate([row]) == Some(13_600) by { assert [row][..0] == []; }
    var way := [Rewind(10_000), Edit([row]), Begin];
    assert way[1..] == [Edit([row]), Begin] && [Edit([row]), Begin][1..] == [Begin] && [Begin][1..] == [];
    var s0 := State([], map[], None, None, None);
    var s1 := Step(s0, Rewind(10_000));
    var s2 := Step(s1, Edit([row]));
    assert Run(s0, way) == Run(s1, [Edit([row]), Begin]) == Run(s2, [Begin]);
    assert Run(s2, [Begin]) == Run(Step(s2, Begin), []) == Step(s2, Begin);
  }

  // ---- the floor -----------------------------------------------------------

  /** There is a floor, and no run in flight began without a watermark. */
  predicate Grounded(s: State) { s.floor.Some? && (s.running.Some? ==> s.running.value.Some?) }

  /** Nothing raises the floor but the end of a run that began without a watermark. */
  lemma FloorOnlyFalls(s: State, e: Event)
    requires Inv(s) && Legal(s, e) && s.floor.Some?
    ensures var after := Step(s, e).floor;
            after.Some? && (after.value <= s.floor.value || (e.End? && s.running.value.None?))
    ensures Grounded(s) ==> Grounded(Step(s, e))
  {
    if e.Begin? { assert s.mark.Some?; }
  }

  /** Once a watermark exists and no older run is in flight, the floor never rises again, whatever
      happens. */
  lemma {:induction false} FloorNeverRises(s: State, es: seq<Event>)
    requires Inv(s) && Grounded(s) && LegalRun(s, es)
    ensures Grounded(Run(s, es)) && Run(s, es).floor.value <= s.floor.value
    decreases |es|
  {
    if es != [] {
      FloorOnlyFalls(s, es[0]);
      StepKeepsInv(s, es[0]);
      FloorNeverRises(Step(s, es[0]), es[1..]);
    }
  }

  /** What `Sync.SyncIncremental` promises about a run nobody interferes with is one Begin and one End. */
  lemma RunIsBeginEnd(s: State, now: int, handed: seq<Row>, latest: Option<int>, complete: bool)
    requires Inv(s) && s.running.None?
    requires WindowRun(s.up, StartOf(s.mark, now), now + FUTURE_PAD, handed, latest, complete)
    ensures var es := [Begin, End(now, handed, latest, complete)];
            && LegalRun(s, es)
            && Run(s, es).store == Apply(s.store, handed) && Run(s, es).mark == Moved(s.mark, latest)
  {
    var e := End(now, handed, latest, complete);
    var s1 := Step(s, Begin);
    assert [Begin, e][1..] == [e] && [e][1..] == [];
    assert Run(s, [Begin, e]) == Run(s1, [e]) == Run(Step(s1, e), []) == Step(s1, e);
  }
}
