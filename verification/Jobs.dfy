/** Background job runs: starting, finishing, being cut off, and the history that survives restarts. */
module Jobs {
  import opened Wrappers

  datatype Status = Running | Done | Partial | Idle | Skipped | Failed | Cancelled

  /** Why a result says the run stopped; `Other` is a reason the table does not list, or none. */
  datatype Reason =
    | NothingToDo | Waiting | Disabled | Overlap | Missed | Budget | ClientQueue | RateLimited
    | UpstreamError | CdnError | RunLimit | WalReader | NeedsAttention | CheckFailed | Other

  function StatusOf(reason: Reason): Status {
    match reason
    case NothingToDo | Waiting => Idle
    case Disabled | Overlap | Missed => Skipped
    case Budget | ClientQueue | RateLimited | UpstreamError => Partial
    case CdnError | RunLimit | WalReader | NeedsAttention => Partial
    case CheckFailed => Failed
    case Other => Done
  }

  datatype Ending = Returned(reason: Reason) | Raised | WasCancelled

  function FinalStatus(ending: Ending): Status {
    match ending
    case Returned(reason) => StatusOf(reason)
    case Raised => Failed
    case WasCancelled => Cancelled
  }

  /** Which endings a status in the history stands for. */
  predicate StandsFor(status: Status, ending: Ending) {
    match status
    case Running => false
    case Done => ending == Returned(Other)
    case Idle => ending == Returned(NothingToDo) || ending == Returned(Waiting)
    case Skipped => ending == Returned(Disabled) || ending == Returned(Overlap) || ending == Returned(Missed)
    case Failed => ending == Raised || ending == Returned(CheckFailed)
    case Cancelled => ending == WasCancelled
    case Partial =>
      || ending == Returned(Budget) || ending == Returned(ClientQueue) || ending == Returned(RateLimited)
      || ending == Returned(UpstreamError) || ending == Returned(CdnError) || ending == Returned(RunLimit)
      || ending == Returned(WalReader) || ending == Returned(NeedsAttention)
  }

  /** Every ending has exactly one status. */
  lemma StatusTells(ending: Ending, status: Status)
    ensures StandsFor(status, ending) <==> status == FinalStatus(ending)
  {}

  datatype Spec = Spec(manual: bool, persistIdle: bool)

  datatype Row = Row(job: string, status: Status, startedAt: int)

  datatype Active = Active(job: string, startedAt: int)

  /** `active` lists the runs of the living process, `rows` the job history on disk. The rest records
      what happened: every run's end, the runs whose last write of history failed, and the IDs used. */
  datatype State = State(active: map<nat, Active>, rows: map<nat, Row>, open: bool,
                         ended: map<nat, Row>, unsaved: set<nat>, used: set<nat>, pruned: int)

  /** `saved` says whether the write of history succeeds; `disabled` what the settings say; `badParams`
      whether a parameter cannot be coerced. */
  datatype Event =
    | Start(job: string, id: nat, at: int, disabled: bool, badParams: bool, saved: bool)  // from the dashboard
    | Fire(job: string, id: nat, at: int, disabled: bool, saved: bool)   // from the scheduler
    | Skip(job: string, id: nat, at: int, reason: Reason, saved: bool)   // the scheduler dropped a start
    | Finish(id: nat, ending: Ending, saved: bool)
    | Prune(cutoff: int)
    | Shutdown(saves: set<nat>)
    | Crash
    | Startup(cutoff: int)

  predicate Busy(active: map<nat, Active>, job: string) {
    exists id :: id in active && active[id].job == job
  }

  predicate Legal(specs: map<string, Spec>, s: State, e: Event) {
    match e
    case Start(job, id, _, _, _, _) => s.open && id !in s.used
    case Fire(job, id, _, _, _) => s.open && id !in s.used && job in specs
    case Skip(job, id, _, reason, _) => s.open && id !in s.used && job in specs && StatusOf(reason) == Skipped
    case Finish(id, _, _) => id in s.active
    case Prune(_) | Shutdown(_) => s.open
    case Crash => true
    case Startup(_) => !s.open
  }

  function Save(s: State, id: nat, row: Row, saved: bool): State {
    if saved && s.open then s.(rows := s.rows[id := row], unsaved := s.unsaved - {id})
    else s.(unsaved := s.unsaved + {id})
  }

  function Begin(specs: map<string, Spec>, s: State, job: string, id: nat, at: int, saved: bool): State
    requires job in specs
  {
    var s1 := s.(active := s.active[id := Active(job, at)], used := s.used + {id});
    if specs[job].persistIdle then Save(s1, id, Row(job, Running, at), saved) else s1
  }

  /** A run that ends is written to history unless its job drops idle runs and it was one. */
  function End(specs: map<string, Spec>, s: State, id: nat, row: Row, saved: bool): State {
    var s1 := s.(ended := s.ended[id := row]);
    if (row.job in specs && specs[row.job].persistIdle) || row.status != Idle then Save(s1, id, row, saved) else s1
  }

  function RecordSkip(specs: map<string, Spec>, s: State, job: string, id: nat, at: int, reason: Reason, saved: bool)
    : State
  {
    End(specs, s.(used := s.used + {id}), id, Row(job, StatusOf(reason), at), saved)
  }

  function Interrupted(row: Row): Row { if row.status == Running then row.(status := Failed) else row }

  /** The active runs in `done` recorded as interrupted; those in `saves` reach the disk. */
  function Interrupt(s: State, done: set<nat>, saves: set<nat>): State
    requires done <= s.active.Keys
  {
    s.(rows := s.rows + InterruptedRuns(s.active, done * saves),
       ended := s.ended + InterruptedRuns(s.active, done),
       unsaved := (s.unsaved - saves * done) + (done - saves))
  }

  function InterruptedRun(a: Active): Row { Row(a.job, Failed, a.startedAt) }

  function InterruptedRuns(active: map<nat, Active>, ids: set<nat>): map<nat, Row>
    requires ids <= active.Keys
  {
    map id | id in ids :: InterruptedRun(active[id])
  }

  function Step(specs: map<string, Spec>, s: State, e: Event): State
    requires Legal(specs, s, e)
  {
    match e
    case Start(job, id, at, disabled, badParams, saved) =>
      if job !in specs || !specs[job].manual || disabled || Busy(s.active, job) || badParams then s
      else Begin(specs, s, job, id, at, saved)
    case Fire(job, id, at, disabled, saved) =>
      if Busy(s.active, job) then RecordSkip(specs, s, job, id, at, Overlap, saved)
      else if disabled then RecordSkip(specs, s, job, id, at, Disabled, saved)
      else Begin(specs, s, job, id, at, saved)
    case Skip(job, id, at, reason, saved) => RecordSkip(specs, s, job, id, at, reason, saved)
    case Finish(id, ending, saved) =>
      var a := s.active[id];
      // once history is closed the write fails; a shutdown has already ended the run
      var s1 := if s.open then End(specs, s, id, Row(a.job, FinalStatus(ending), a.startedAt), saved) else s;
      s1.(active := s.active - {id})
    case Prune(cutoff) =>
      s.(rows := map id | id in s.rows && cutoff <= s.rows[id].startedAt :: s.rows[id], pruned := Max(s.pruned, cutoff))
    case Shutdown(saves) => Interrupt(s, s.active.Keys, saves).(open := false)
    case Crash =>
      s.(active := map[], open := false,
         ended := if s.open then s.ended + (map id | id in s.active :: InterruptedRun(s.active[id])) else s.ended,
         unsaved := if s.open then s.unsaved + s.active.Keys else s.unsaved)
    case Startup(cutoff) =>
      s.(active := map[], open := true,
         rows := map id | id in s.rows && cutoff <= s.rows[id].startedAt :: Interrupted(s.rows[id]),
         pruned := Max(s.pruned, cutoff))
  }

  // ---- invariants ----------------------------------------------------------

  ghost predicate Inv(specs: map<string, Spec>, s: State) {
    && OnePerJob(s.active)
    && forall id :: RunOk(specs, s, id)
  }

  /** No job has two active runs. */
  ghost predicate OnePerJob(active: map<nat, Active>) {
    forall i, j :: i in active && j in active && i != j ==> active[i].job != active[j].job
  }

  ghost predicate RunOk(specs: map<string, Spec>, s: State, id: nat) {
    && (id in s.active || id in s.rows || id in s.ended || id in s.unsaved ==> id in s.used)
    && (id in s.active ==> s.active[id].job in specs && (id in s.ended <==> !s.open))
    && (id in s.rows ==> id in s.active || id in s.ended)
    && (id in s.rows && id in s.ended ==> s.rows[id].startedAt == s.ended[id].startedAt)
    // a row that says running belongs to a live run, or its last write failed
    && (id in s.rows && s.rows[id].status == Running ==> id in s.unsaved || (id in s.active && s.open))
    && (id in s.active && s.open && id in s.rows ==>
          s.rows[id] == Row(s.active[id].job, Running, s.active[id].startedAt) && specs[s.active[id].job].persistIdle)
    && (id in s.ended && id !in s.unsaved ==> Recorded(specs, s, id))
  }

  /** A run that ended is stored with its final status exactly if its job keeps idle runs or it was not
      idle (and pruning has not reached it). */
  ghost predicate Recorded(specs: map<string, Spec>, s: State, id: nat)
    requires id in s.ended
  {
    var end := s.ended[id];
    var kept := (end.job in specs && specs[end.job].persistIdle) || end.status != Idle;
    && (id in s.rows ==> kept && s.rows[id] == end)
    && (kept && s.pruned <= end.startedAt ==> id in s.rows)
  }

  lemma EndKeepsInv(specs: map<string, Spec>, s: State, id: nat, row: Row, saved: bool)
    requires Inv(specs, s) && s.open && id in s.used
    requires id !in s.active && id !in s.ended && id !in s.rows && id !in s.unsaved
    requires row.status != Running
    ensures Inv(specs, End(specs, s, id, row, saved))
  {
    forall i ensures RunOk(specs, End(specs, s, id, row, saved), i) { assert RunOk(specs, s, i); }
  }

  lemma BeginKeepsInv(specs: map<string, Spec>, s: State, job: string, id: nat, at: int, saved: bool)
    requires Inv(specs, s) && s.open && id !in s.used && job in specs && !Busy(s.active, job)
    ensures Inv(specs, Begin(specs, s, job, id, at, saved))
  {
    forall i ensures RunOk(specs, Begin(specs, s, job, id, at, saved), i) {
      assert RunOk(specs, s, i);
      assert RunOk(specs, s, id);
    }
  }

  lemma SkipKeepsInv(specs: map<string, Spec>, s: State, job: string, id: nat, at: int, reason: Reason, saved: bool)
    requires Inv(specs, s) && s.open && id !in s.used && StatusOf(reason) == Skipped
    ensures Inv(specs, RecordSkip(specs, s, job, id, at, reason, saved))
  {
    var s1 := s.(used := s.used + {id});
    assert RunOk(specs, s, id);
    forall i ensures RunOk(specs, s1, i) { assert RunOk(specs, s, i); }
    EndKeepsInv(specs, s1, id, Row(job, StatusOf(reason), at), saved);
  }

  lemma FinishKeepsInv(specs: map<string, Spec>, s: State, id: nat, ending: Ending, saved: bool)
    requires Inv(specs, s) && Legal(specs, s, Finish(id, ending, saved))
    ensures Inv(specs, Step(specs, s, Finish(id, ending, saved)))
  {
    var s' := Step(specs, s, Finish(id, ending, saved));
    assert RunOk(specs, s, id);
    forall i ensures RunOk(specs, s', i) { assert RunOk(specs, s, i); }
  }

  lemma StopKeepsInv(specs: map<string, Spec>, s: State, e: Event)
    requires Inv(specs, s) && Legal(specs, s, e) && (e.Shutdown? || e.Crash?)
    ensures Inv(specs, Step(specs, s, e))
  {
    forall i ensures RunOk(specs, Step(specs, s, e), i) { assert RunOk(specs, s, i); }
  }

  lemma PruneKeepsInv(specs: map<string, Spec>, s: State, e: Event)
    requires Inv(specs, s) && Legal(specs, s, e) && (e.Prune? || e.Startup?)
    ensures Inv(specs, Step(specs, s, e))
  {
    forall i ensures RunOk(specs, Step(specs, s, e), i) { assert RunOk(specs, s, i); }
  }

  lemma StepKeepsInv(specs: map<string, Spec>, s: State, e: Event)
    requires Inv(specs, s) && Legal(specs, s, e)
    ensures Inv(specs, Step(specs, s, e))
  {
    match e {
      case Start(job, id, at, disabled, badParams, saved) =>
        if job in specs && specs[job].manual && !disabled && !Busy(s.active, job) && !badParams {
          BeginKeepsInv(specs, s, job, id, at, saved);
        }
      case Fire(job, id, at, disabled, saved) =>
        if Busy(s.active, job) {
          SkipKeepsInv(specs, s, job, id, at, Overlap, saved);
        } else if disabled {
          SkipKeepsInv(specs, s, job, id, at, Disabled, saved);
        } else {
          BeginKeepsInv(specs, s, job, id, at, saved);
        }
      case Skip(job, id, at, reason, saved) => SkipKeepsInv(specs, s, job, id, at, reason, saved);
      case Finish(id, ending, saved) => FinishKeepsInv(specs, s, id, ending, saved);
      case Prune(_) => PruneKeepsInv(specs, s, e);
      case Startup(_) => PruneKeepsInv(specs, s, e);
      case Shutdown(_) => StopKeepsInv(specs, s, e);
      case Crash => StopKeepsInv(specs, s, e);
    }
  }

  /** What the steps that no method of the runner makes do to the history. */
  lemma OtherStepsAre(specs: map<string, Spec>, s: State, e: Event, id: nat)
    requires Legal(specs, s, e)
    ensures var s' := Step(specs, s, e);
            match e
            case Skip(job, i, at, _, saved) =>
              && s'.active == s.active && s'.open && (!saved ==> s'.rows == s.rows)
              && (id != i ==> (id in s'.rows <==> id in s.rows) && (id in s.rows ==> s'.rows[id] == s.rows[id]))
              && (saved ==> i in s'.rows && s'.rows[i] == Row(job, Skipped, at))
            case Prune(cutoff) =>
              && s'.active == s.active && s'.open
              && (id in s'.rows <==> id in s.rows && cutoff <= s.rows[id].startedAt)
              && (id in s'.rows ==> s'.rows[id] == s.rows[id])
            case Crash => s'.active == map[] && !s'.open && s'.rows == s.rows
            case _ => true
  {}

  // ---- every run -----------------------------------------------------------

  ghost predicate LegalRun(specs: map<string, Spec>, s: State, es: seq<Event>)
    decreases |es|
  {
    es == [] || (Legal(specs, s, es[0]) && LegalRun(specs, Step(specs, s, es[0]), es[1..]))
  }

  ghost function Run(specs: map<string, Spec>, s: State, es: seq<Event>): State
    requires LegalRun(specs, s, es)
    decreases |es|
  {
    if es == [] then s else Run(specs, Step(specs, s, es[0]), es[1..])
  }

  lemma {:induction false} RunKeepsInv(specs: map<string, Spec>, s: State, es: seq<Event>)
    requires Inv(specs, s) && LegalRun(specs, s, es)
    ensures Inv(specs, Run(specs, s, es))
    decreases |es|
  {
    if es != [] {
      StepKeepsInv(specs, s, es[0]);
      RunKeepsInv(specs, Step(specs, s, es[0]), es[1..]);
    }
  }

  const NOTHING_YET := State(map[], map[], false, map[], {}, {}, 0)

  /** Over every run: no job has two active runs; a stored row that says running is an active run of
      this process or one whose last write failed; and a run that ended shows in the history exactly if
      its job keeps idle runs or it was not idle. */
  lemma HistoryTellsTheTruth(specs: map<string, Spec>, es: seq<Event>, i: nat, j: nat)
    requires LegalRun(specs, NOTHING_YET, es)
    ensures var s := Run(specs, NOTHING_YET, es);
            && (i in s.active && j in s.active && s.active[i].job == s.active[j].job ==> i == j)
            && (i in s.rows && s.rows[i].status == Running && i !in s.unsaved ==> i in s.active && s.open)
            && (i in s.ended && i !in s.unsaved ==> Recorded(specs, s, i))
  {
    RunKeepsInv(specs, NOTHING_YET, es);
    assert RunOk(specs, Run(specs, NOTHING_YET, es), i);
  }

  /** A run that a crash cuts off is interrupted in the history after the next start-up, for every job
      that keeps its runs from the start, if pruning does not reach it. */
  lemma CrashIsRecorded(specs: map<string, Spec>, s: State, cutoff: int, id: nat)
    requires Inv(specs, s) && s.open && id in s.active && id in s.rows && cutoff <= s.active[id].startedAt
    ensures var s' := Step(specs, Step(specs, s, Crash), Startup(cutoff));
            id in s'.rows && s'.rows[id] == InterruptedRun(s.active[id])
  {
    assert RunOk(specs, s, id);
  }

  /** After a start-up no row says running, whatever the process before it left behind. */
  lemma StartupClearsRunning(specs: map<string, Spec>, s: State, cutoff: int, id: nat)
    requires !s.open
    ensures var s' := Step(specs, s, Startup(cutoff)); id in s'.rows ==> s'.rows[id].status != Running
  {}

  /** One step moves a stored status at most from running to a final one; a run that is over and not
      stored never comes back. */
  lemma StatusMovesOnce(specs: map<string, Spec>, s: State, e: Event, id: nat)
    requires Inv(specs, s) && Legal(specs, s, e)
    ensures var s' := Step(specs, s, e);
            && (id in s.rows && s.rows[id].status != Running && id in s'.rows ==>
                  s'.rows[id].status == s.rows[id].status)
            && (id in s.used && id !in s.active && id !in s.rows ==> id !in s'.rows)
            && (id in s.rows && id in s'.rows ==>
                  s'.rows[id].job == s.rows[id].job && s'.rows[id].startedAt == s.rows[id].startedAt)
  {
    assert RunOk(specs, s, id);
  }

  /** A run that is over, with a final status if it is stored. */
  ghost predicate Final(s: State, id: nat) {
    id in s.used && id !in s.active && (id in s.rows ==> s.rows[id].status != Running)
  }

  lemma FinalStays(specs: map<string, Spec>, s: State, e: Event, id: nat)
    requires Inv(specs, s) && Legal(specs, s, e) && Final(s, id)
    ensures var s' := Step(specs, s, e);
            Final(s', id) && (id in s'.rows ==> id in s.rows && s'.rows[id].status == s.rows[id].status)
  {
    StatusMovesOnce(specs, s, e, id);
  }

  /** Once final, a stored status is final for ever. */
  lemma {:induction false} FinalStaysFinal(specs: map<string, Spec>, s: State, es: seq<Event>, id: nat)
    requires Inv(specs, s) && LegalRun(specs, s, es) && Final(s, id)
    ensures var s' := Run(specs, s, es);
            id in s'.rows ==> id in s.rows && s'.rows[id].status == s.rows[id].status
    decreases |es|
  {
    if es != [] {
      StepKeepsInv(specs, s, es[0]);
      FinalStays(specs, s, es[0], id);
      FinalStaysFinal(specs, Step(specs, s, es[0]), es[1..], id);
    }
  }

  lemma OneMore(rows: map<nat, Row>, active: map<nat, Active>, ids: set<nat>, id: nat)
    requires ids <= active.Keys && id in active
    ensures rows + InterruptedRuns(active, ids + {id})
         == (rows + InterruptedRuns(active, ids))[id := InterruptedRun(active[id])]
  {}

  lemma InterruptOne(s: State, done: set<nat>, saves: set<nat>, id: nat)
    requires s.open && done <= s.active.Keys && id in s.active && id !in done
    ensures var before := Interrupt(s, done, saves);
            var row := InterruptedRun(s.active[id]);
            Interrupt(s, done + {id}, saves) == Save(before.(ended := before.ended[id := row]), id, row, id in saves)
  {
    OneMore(s.ended, s.active, done, id);
    if id in saves {
      OneMore(s.rows, s.active, done * saves, id);
      assert (done + {id}) * saves == done * saves + {id};
      assert done + {id} - saves == done - saves - {id};
    } else {
      assert (done + {id}) * saves == done * saves;
    }
  }

  // ---- the runner ----------------------------------------------------------

  datatype Started = RunStarted | UnknownJob | NotManual | IsDisabled | AlreadyRunning(run: nat) | BadParams

  /** The runner of one process and its history file. The ghost fields only record what happened. */
  class JobRunner {
    const specs: map<string, Spec>
    var active: map<nat, Active>
    var rows: map<nat, Row>
    var open: bool
    ghost var ended: map<nat, Row>
    ghost var unsaved: set<nat>
    ghost var used: set<nat>
    ghost var pruned: int

    ghost function Now(): State
      reads this
    { State(active, rows, open, ended, unsaved, used, pruned) }

    constructor (jobs: map<string, Spec>)
      ensures Now() == NOTHING_YET && specs == jobs
    {
      specs := jobs;
      active, rows, open, ended, unsaved, used, pruned := map[], map[], false, map[], {}, {}, 0;
    }

    /** The active run of a job, if it has one. */
    method FindRunning(job: string) returns (r: Option<nat>)
      ensures r.Some? ==> r.value in active && active[r.value].job == job
      ensures r.None? ==> !Busy(active, job)
    {
      var left := active.Keys;
      while left != {}
        invariant left <= active.Keys
        invariant forall id :: id in active && id !in left ==> active[id].job != job
        decreases |left|
      {
        var id :| id in left;
        if active[id].job == job { return Some(id); }
        left := left - {id};
      }
      r := None;
    }

    method SaveRun(id: nat, row: Row, saved: bool)
      modifies this`rows, this`unsaved
      ensures Now() == Save(old(Now()), id, row, saved)
    {
      if saved && open {
        rows, unsaved := rows[id := row], unsaved - {id};
      } else {
        unsaved := unsaved + {id};
      }
    }

    method BeginRun(job: string, id: nat, at: int, saved: bool)
      requires job in specs
      modifies this
      ensures Now() == Begin(specs, old(Now()), job, id, at, saved)
    {
      active, used := active[id := Active(job, at)], used + {id};
      if specs[job].persistIdle { SaveRun(id, Row(job, Running, at), saved); }
    }

    method EndRun(id: nat, row: Row, saved: bool)
      modifies this`rows, this`unsaved, this`ended
      ensures Now() == End(specs, old(Now()), id, row, saved)
    {
      ended := ended[id := row];
      if (row.job in specs && specs[row.job].persistIdle) || row.status != Idle { SaveRun(id, row, saved); }
    }

    /** A manual run; it is refused while the job has an active one. */
    method StartManual(job: string, id: nat, at: int, disabled: bool, badParams: bool, saved: bool)
      returns (r: Started)
      requires Legal(specs, Now(), Start(job, id, at, disabled, badParams, saved))
      modifies this
      ensures Now() == Step(specs, old(Now()), Start(job, id, at, disabled, badParams, saved))
      ensures r == RunStarted <==>
        (job in specs && specs[job].manual && !disabled && !old(Busy(active, job)) && !badParams)
      ensures r == BadParams <==>
        (job in specs && specs[job].manual && !disabled && !old(Busy(active, job)) && badParams)
      ensures r == UnknownJob <==> job !in specs
      ensures r == NotManual <==> job in specs && !specs[job].manual
      ensures r == IsDisabled <==> job in specs && specs[job].manual && disabled
      ensures r == RunStarted ==> id in active && active[id].job == job
      ensures r.AlreadyRunning? ==> r.run in active && active[r.run].job == job
      ensures r == RunStarted ==>
        && active == old(active)[id := Active(job, at)]
        && rows == if saved && specs[job].persistIdle then old(rows)[id := Row(job, Running, at)] else old(rows)
      ensures r != RunStarted ==> active == old(active) && rows == old(rows)
    {
      if job !in specs { return UnknownJob; }
      if !specs[job].manual { return NotManual; }
      if disabled { return IsDisabled; }
      var other := FindRunning(job);
      if other.Some? { return AlreadyRunning(other.value); }
      if badParams { return BadParams; }
      BeginRun(job, id, at, saved);
      r := RunStarted;
    }

    /** The scheduler fires: a run begins unless one is active or the job is disabled. */
    method FireScheduled(job: string, id: nat, at: int, disabled: bool, saved: bool) returns (began: bool)
      requires Legal(specs, Now(), Fire(job, id, at, disabled, saved))
      modifies this
      ensures Now() == Step(specs, old(Now()), Fire(job, id, at, disabled, saved))
      ensures began <==> !disabled && !old(Busy(active, job))
      ensures began ==>
        && active == old(active)[id := Active(job, at)]
        && rows == if saved && specs[job].persistIdle then old(rows)[id := Row(job, Running, at)] else old(rows)
      ensures !began ==>
        active == old(active) && rows == if saved then old(rows)[id := Row(job, Skipped, at)] else old(rows)
    {
      var other := FindRunning(job);
      began := other.None? && !disabled;
      if began {
        BeginRun(job, id, at, saved);
      } else {
        used := used + {id};
        EndRun(id, Row(job, Skipped, at), saved);
      }
    }

    /** The run's task ends: returned, raised or cancelled. */
    method FinishRun(id: nat, ending: Ending, saved: bool)
      requires Legal(specs, Now(), Finish(id, ending, saved))
      modifies this
      ensures Now() == Step(specs, old(Now()), Finish(id, ending, saved))
      ensures active == old(active) - {id} && open == old(open)
      ensures forall i :: i != id ==> (i in rows <==> i in old(rows)) && (i in rows ==> rows[i] == old(rows)[i])
      ensures var run := old(active)[id];
              var dropped := (ending == Returned(NothingToDo) || ending == Returned(Waiting))
                             && !(run.job in specs && specs[run.job].persistIdle);
              if saved && open && !dropped
              then id in rows && rows[id] == Row(run.job, rows[id].status, run.startedAt)
                   && StandsFor(rows[id].status, ending)
              else rows == old(rows)
    {
      StatusTells(ending, FinalStatus(ending));
      if open { EndRun(id, Row(active[id].job, FinalStatus(ending), active[id].startedAt), saved); }
      active := active - {id};
    }

    /** Closes the process down: every active run is recorded as interrupted, then history is closed. */
    method ShutdownRunner(saves: set<nat>)
      requires open
      modifies this
      ensures Now() == Step(specs, old(Now()), Shutdown(saves))
      ensures !open && active == old(active)
      ensures forall id :: id in active && id in saves ==>
        id in rows && rows[id] == Row(active[id].job, Failed, active[id].startedAt)
      ensures forall id :: id !in active || id !in saves ==>
        (id in rows <==> id in old(rows)) && (id in rows ==> rows[id] == old(rows)[id])
    {
      var done := {};
      assert Interrupt(old(Now()), {}, saves) == old(Now());
      while done != active.Keys
        invariant done <= active.Keys == old(active).Keys && open
        invariant Now() == Interrupt(old(Now()), done, saves)
        decreases active.Keys - done
      {
        var id :| id in active && id !in done;
        InterruptOne(old(Now()), done, saves, id);
        ended := ended[id := InterruptedRun(active[id])];
        SaveRun(id, InterruptedRun(active[id]), id in saves);
        done := done + {id};
      }
      open := false;
    }

    /** A new process on the same history: what was left running was interrupted. */
    method StartupRunner(cutoff: int)
      requires !open
      modifies this
      ensures Now() == Step(specs, old(Now()), Startup(cutoff))
      ensures open && active == map[]
      ensures forall id :: id in rows <==> id in old(rows) && cutoff <= old(rows)[id].startedAt
      ensures forall id :: id in rows ==>
        if old(rows)[id].status == Running
        then rows[id] == Row(old(rows)[id].job, Failed, old(rows)[id].startedAt)
        else rows[id] == old(rows)[id]
    {
      active, open := map[], true;
      rows := map id | id in rows && cutoff <= rows[id].startedAt :: Interrupted(rows[id]);
      pruned := Max(pruned, cutoff);
    }
  }
}
