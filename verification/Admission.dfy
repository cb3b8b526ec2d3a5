/** Admission control over whole runs: coroutines of four classes ask for hourly slots, sleep, are
    refused, and the process restarts through the state file.

    Sections of the code without an `await` are one step, so a check and the slot taken after it are
    one step unless the hourly limiter puts the caller to sleep. */
module Admission {
  import opened Wrappers
  import opened RateWindow
  import opened CvClient

  /** Upstream calls per hour the backfill jobs may make to one endpoint. */
  const BACKFILL_HOURLY_BUDGET := 120
  /** Calls per endpoint and hour the pending worker leaves for live requests. */
  const LIVE_RESERVE := 30

  /** A caller asleep in the hourly limiter. */
  datatype Sleeper = Sleeper(key: string, who: Caller)

  /** The state file, with the number of slots that had been granted when it was written. */
  datatype File = File(saved: Limiter, known: nat)

  /** `history` lists every slot ever granted, over all restarts. */
  datatype Sys = Sys(st: Limiter, now: real, history: seq<Grant>, sleepers: seq<Sleeper>, file: Option<File>)

  /** The reals are the clock readings of the step in program order. */
  datatype Event =
    | Ask(who: Caller, endpoint: string, path: string, queued: bool, check: real, count: real,
          cool: real, prune: real, stamp: real, save: real, saved: bool)
    | Wake(i: nat, prune: real, stamp: real, save: real, saved: bool)
    | Refusal(seconds: real, at: real, save: real, saved: bool)
    | Restart(at: real, readable: bool)

  predicate Legal(s: Sys, e: Event) {
    match e
    case Ask(_, endpoint, path, _, check, count, cool, prune, stamp, save, _) =>
      && EndpointKey(endpoint) == EndpointKey(path)
      && s.now <= check <= count <= cool <= prune <= stamp <= save
    case Wake(i, prune, stamp, save, _) => i < |s.sleepers| && s.now <= prune <= stamp <= save
    case Refusal(_, at, save, _) => s.now <= at <= save
    case Restart(at, _) => s.now <= at
  }

  /** What a caller of each class checks before it calls `get`, and what `get` checks first. */
  predicate Admitted(st: Limiter, limit: int, e: Event)
    requires e.Ask?
  {
    && (match e.who
        case Backfill => !e.queued && HourlyCalls(st, e.endpoint, e.count) < BACKFILL_HOURLY_BUDGET
        case Pending => && RetryAfter(st, limit, e.endpoint, e.check) == Ok(0.0)
                        && HourlyCalls(st, e.endpoint, e.count) < limit - LIVE_RESERVE
        case Live => RetryAfter(st, limit, e.endpoint, e.check) == Ok(0.0)
        case Direct => true)
    && st.cooldownUntil <= e.cool
  }

  function Attempt(s: Sys, limit: int, key: string, who: Caller, prune: real, stamp: real,
                   save: real, saved: bool): Sys
  {
    var (st, slot) := TakeSlot(s.st, limit, key, prune, stamp);
    if slot == Ok(Granted) then
      var h := s.history + [Grant(stamp, key, who)];
      Sys(st, save, h, s.sleepers, if saved then Some(File(Saved(st, save), |h|)) else s.file)
    else
      s.(st := st, now := save, sleepers := if slot.Ok? then s.sleepers + [Sleeper(key, who)] else s.sleepers)
  }

  function FileContent(s: Sys, readable: bool): Option<Limiter> {
    if readable && s.file.Some? then Some(s.file.value.saved) else None
  }

  function Step(s: Sys, limit: int, e: Event): Sys
    requires Legal(s, e)
  {
    match e
    case Ask(who, _, path, _, _, _, _, prune, stamp, save, saved) =>
      if Admitted(s.st, limit, e) then Attempt(s, limit, EndpointKey(path), who, prune, stamp, save, saved)
      else s.(now := save)
    case Wake(i, prune, stamp, save, saved) =>
      var awake := s.sleepers[i];
      Attempt(s.(sleepers := s.sleepers[..i] + s.sleepers[i + 1..]), limit, awake.key, awake.who,
              prune, stamp, save, saved)
    case Refusal(seconds, at, save, saved) =>
      var st := Cooled(s.st, at, seconds);
      s.(st := st, now := save, file := if saved then Some(File(Saved(st, save), |s.history|)) else s.file)
    case Restart(at, readable) =>
      s.(st := Loaded(FileContent(s, readable), at), now := at, sleepers := [])
  }

  // ---- the bounds ----------------------------------------------------------

  /** In every hour of every endpoint: all slots, the backfills' slots, and the slots of the
      backfills and the pending worker together. */
  ghost predicate Within(h: seq<Grant>, limit: int) {
    forall key, t :: HourWithin(h, limit, key, t)
  }

  ghost predicate HourWithin(h: seq<Grant>, limit: int, key: string, t: real) {
    && Count(h, key, EVERYONE, t - HOUR, t) <= limit
    && Count(h, key, {Backfill}, t - HOUR, t) <= BACKFILL_HOURLY_BUDGET
    && Count(h, key, {Backfill, Pending}, t - HOUR, t) <= Max(BACKFILL_HOURLY_BUDGET, limit - LIVE_RESERVE)
  }

  /** The first moment a slot can be granted: nobody passes `get` during the cooldown, but sleepers
      that passed it before do not look again. */
  function Horizon(s: Sys): real {
    if s.sleepers == [] then MaxReal(s.now, s.st.cooldownUntil) else s.now
  }

  /** A window agrees with the history on every stamp still active at `t`. */
  ghost predicate Agrees(w: seq<real>, h: seq<Grant>, key: string, t: real) {
    After(w, t - HOUR) == After(Stamps(h, key), t - HOUR)
  }

  ghost predicate WindowsAgree(st: Limiter, h: seq<Grant>, t: real) {
    forall key :: Agrees(st.Window(key), h, key, t)
  }

  ghost predicate PastOnly(st: Limiter, now: real) {
    forall key :: Sorted(st.Window(key)) && NoneAfter(st.Window(key), now)
  }

  ghost predicate Past(h: seq<Grant>, now: real) {
    forall g :: g in h ==> g.at <= now && EndpointKey(g.key) == g.key
  }

  /** What holds in every reachable state. With a limit below 1 the limiter raises instead of
      granting, so a working configuration has a positive one. */
  ghost predicate Inv(s: Sys, limit: int) {
    && 1 <= limit
    && Past(s.history, s.now)
    && PastOnly(s.st, s.now)
    && WindowsAgree(s.st, s.history, Horizon(s))
    && Within(s.history, limit)
    && (forall i :: 0 <= i < |s.sleepers| ==>
          && !s.sleepers[i].who.Pending? && !s.sleepers[i].who.Live?
          && (s.sleepers[i].who.Backfill? ==> limit <= BACKFILL_HOURLY_BUDGET)
          && EndpointKey(s.sleepers[i].key) == s.sleepers[i].key)
    && (s.file.Some? ==> FileOk(s.file.value, s.history, s.now))
  }

  /** The state file agrees with the slots it knew of. */
  ghost predicate FileOk(f: File, h: seq<Grant>, now: real) {
    && f.known <= |h|
    && PastOnly(f.saved, now)
    && WindowsAgree(f.saved, h[..f.known], MaxReal(now, f.saved.cooldownUntil))
  }

  /** A restart loses nothing: no slot granted since the loaded file was written is still active when
      calls can resume. */
  ghost predicate Covers(s: Sys, e: Event)
    requires e.Restart? && (s.file.Some? ==> s.file.value.known <= |s.history|)
  {
    var known := KnownAt(s, e);
    var resume := MaxReal(e.at, Loaded(FileContent(s, e.readable), e.at).cooldownUntil);
    forall g :: g in s.history[known..] ==> g.at <= resume - HOUR
  }

  // ---- one step ------------------------------------------------------------

  lemma KeyOfKey(path: string)
    ensures EndpointKey(EndpointKey(path)) == EndpointKey(path)
  {
    NoSlash(StripSlashes(path));
    NoSlashIsKey(EndpointKey(path));
  }

  lemma {:induction false} NoSlash(s: string)
    ensures '/' !in UpToSlash(s)
  {
    if s != "" && s[0] != '/' { NoSlash(s[1..]); }
  }

  lemma {:induction false} NoSlashIsKey(s: string)
    requires '/' !in s
    ensures UpToSlash(s) == s && StripSlashes(s) == s
  {
    if s != "" { NoSlashIsKey(s[1..]); }
  }

  lemma AgreeLaterAll(st: Limiter, h: seq<Grant>, t: real, u: real)
    requires WindowsAgree(st, h, t) && t <= u
    ensures WindowsAgree(st, h, u)
  {
    forall key ensures Agrees(st.Window(key), h, key, u) {
      assert Agrees(st.Window(key), h, key, t);
      AgreeLater(st.Window(key), Stamps(h, key), t - HOUR, u - HOUR);
    }
  }

  lemma CallsAre(st: Limiter, limit: int, endpoint: string, now: real, later: real)
    requires now <= later
    ensures |After(st.Window(EndpointKey(endpoint)), later - HOUR)| <= HourlyCalls(st, endpoint, now)
  {
    AfterAfter(st.Window(EndpointKey(endpoint)), now - HOUR, later - HOUR);
  }

  /** The heart of the bounds: a slot taken while `c` stamps are active raises no hour beyond c + 1. */
  lemma GrantKeepsBounds(h: seq<Grant>, limit: int, g: Grant, c: nat, prune: real)
    requires Within(h, limit) && prune <= g.at
    requires forall p :: p in h ==> p.at <= g.at
    requires c == |After(Stamps(h, g.key), prune - HOUR)| && c < limit
    requires g.who.Backfill? ==> c < BACKFILL_HOURLY_BUDGET
    requires g.who.Pending? ==> c < limit - LIVE_RESERVE
    ensures Within(h + [g], limit)
  {
    CountIsActive(h, g.key, prune - HOUR, g.at);
    forall key, t ensures HourWithin(h + [g], limit, key, t) {
      assert HourWithin(h, limit, key, t);
      GrantCount(h, g, key, EVERYONE, t, c, prune);
      GrantCount(h, g, key, {Backfill}, t, c, prune);
      GrantCount(h, g, key, {Backfill, Pending}, t, c, prune);
    }
  }

  lemma GrantCount(h: seq<Grant>, g: Grant, key: string, who: set<Caller>, t: real, c: nat, prune: real)
    requires prune <= g.at && forall p :: p in h ==> p.at <= g.at
    requires Count(h, g.key, EVERYONE, prune - HOUR, g.at) == c
    ensures var n := Count(h + [g], key, who, t - HOUR, t);
            n == Count(h, key, who, t - HOUR, t) || (key == g.key && g.who in who && n <= c + 1)
  {
    CountAppend(h, g, key, who, t - HOUR, t);
    if key == g.key && t - HOUR < g.at <= t {
      assert who <= EVERYONE by {
        forall w | w in who ensures w in EVERYONE {
          match w { case Backfill => case Pending => case Live => case Direct => }
        }
      }
      CountMonotone(h, key, who, EVERYONE, t - HOUR, t, prune - HOUR, g.at);
    }
  }

  lemma AttemptKeepsInv(s: Sys, limit: int, key: string, who: Caller, prune: real, stamp: real,
                        save: real, saved: bool)
    requires Inv(s, limit) && s.now <= prune <= stamp <= save && EndpointKey(key) == key
    requires WindowsAgree(s.st, s.history, prune)
    requires var c := |After(s.st.Window(key), prune - HOUR)|;
             && (who.Backfill? ==> if c < limit then c < BACKFILL_HOURLY_BUDGET else limit <= BACKFILL_HOURLY_BUDGET)
             && (who.Pending? ==> c < limit - LIVE_RESERVE)
             && (who.Live? ==> c < limit)
    ensures Inv(Attempt(s, limit, key, who, prune, stamp, save, saved), limit)
  {
    var s' := Attempt(s, limit, key, who, prune, stamp, save, saved);
    AttemptWindows(s, limit, key, who, prune, stamp, save, saved);
    AttemptBounds(s, limit, key, who, prune, stamp, save, saved);
    AgreeLaterAll(s'.st, s'.history, save, Horizon(s'));
    AttemptFile(s, limit, key, who, prune, stamp, save, saved);
  }

  /** Within the bounds, a slot is granted exactly below the limit. */
  lemma AttemptBounds(s: Sys, limit: int, key: string, who: Caller, prune: real, stamp: real,
                      save: real, saved: bool)
    requires Inv(s, limit) && s.now <= prune <= stamp <= save
    requires WindowsAgree(s.st, s.history, prune)
    requires var c := |After(s.st.Window(key), prune - HOUR)|;
             && (who.Backfill? && c < limit ==> c < BACKFILL_HOURLY_BUDGET)
             && (who.Pending? ==> c < limit - LIVE_RESERVE)
    ensures var s' := Attempt(s, limit, key, who, prune, stamp, save, saved);
            && Within(s'.history, limit)
            && (|After(s.st.Window(key), prune - HOUR)| < limit ==> s'.sleepers == s.sleepers)
  {
    var w := s.st.Window(key);
    assert Sorted(w) && NoneAfter(w, s.now) && Agrees(w, s.history, key, prune);
    TakeSlotWindow(s.st, limit, key, prune, stamp, key);
    if |After(w, prune - HOUR)| < limit {
      GrantKeepsBounds(s.history, limit, Grant(stamp, key, who), |After(w, prune - HOUR)|, prune);
    }
  }

  lemma AttemptWindows(s: Sys, limit: int, key: string, who: Caller, prune: real, stamp: real,
                       save: real, saved: bool)
    requires PastOnly(s.st, s.now) && s.now <= prune <= stamp <= save
    requires WindowsAgree(s.st, s.history, prune)
    ensures var s' := Attempt(s, limit, key, who, prune, stamp, save, saved);
            PastOnly(s'.st, save) && WindowsAgree(s'.st, s'.history, save)
  {
    var s' := Attempt(s, limit, key, who, prune, stamp, save, saved);
    var w := s.st.Window(key);
    assert Sorted(w) && NoneAfter(w, s.now);
    forall other ensures Sorted(s'.st.Window(other)) && NoneAfter(s'.st.Window(other), save)
      && Agrees(s'.st.Window(other), s'.history, other, save)
    {
      assert Sorted(s.st.Window(other)) && NoneAfter(s.st.Window(other), s.now);
      assert Agrees(s.st.Window(other), s.history, other, prune);
      TakeSlotWindow(s.st, limit, key, prune, stamp, other);
      GrantAgrees(s.st.Window(other), s.history, Grant(stamp, key, who), |After(w, prune - HOUR)| < limit,
                  prune, save, other);
    }
  }

  /** A window pruned, with or without a slot added, agrees with the history. */
  lemma GrantAgrees(w: seq<real>, h: seq<Grant>, g: Grant, granted: bool, prune: real, save: real, other: string)
    requires Agrees(w, h, other, prune) && prune <= save
    ensures Agrees(if other == g.key then After(w, prune - HOUR) + (if granted then [g.at] else []) else w,
                   if granted then h + [g] else h, other, save)
  {
    var x := if granted && other == g.key then [g.at] else [];
    StampsAppend(h, g, other);
    assert Stamps(h, other) + [] == Stamps(h, other);
    if other == g.key {
      AgreeAppend(w, Stamps(h, other), x, prune - HOUR, save - HOUR);
    } else {
      AgreeLater(w, Stamps(h, other), prune - HOUR, save - HOUR);
    }
  }

  lemma AttemptFile(s: Sys, limit: int, key: string, who: Caller, prune: real, stamp: real,
                    save: real, saved: bool)
    requires s.now <= save && (s.file.Some? ==> FileOk(s.file.value, s.history, s.now))
    requires var s' := Attempt(s, limit, key, who, prune, stamp, save, saved);
             PastOnly(s'.st, save) && WindowsAgree(s'.st, s'.history, save)
    ensures var s' := Attempt(s, limit, key, who, prune, stamp, save, saved);
            s'.file.Some? ==> FileOk(s'.file.value, s'.history, save)
  {
    var s' := Attempt(s, limit, key, who, prune, stamp, save, saved);
    if TakeSlot(s.st, limit, key, prune, stamp).1 == Ok(Granted) && saved {
      FileKeepsInv(s'.st, s'.history, save, save);
      assert s'.history[..|s'.history|] == s'.history;
    } else if s.file.Some? {
      OldFileKeepsInv(s.file.value, s.history, s'.history, s.now, save);
    }
  }

  lemma FileKeepsInv(st: Limiter, h: seq<Grant>, save: real, t: real)
    requires PastOnly(st, save) && WindowsAgree(st, h, t)
    requires save <= t <= MaxReal(save, st.cooldownUntil)
    ensures PastOnly(Saved(st, save), save)
    ensures WindowsAgree(Saved(st, save), h, MaxReal(save, st.cooldownUntil))
  {
    SavedIsPast(st, save);
    forall key ensures Agrees(Saved(st, save).Window(key), h, key, t) {
      assert Agrees(st.Window(key), h, key, t);
      AfterAfter(st.Window(key), save - HOUR, t - HOUR);
    }
    AgreeLaterAll(Saved(st, save), h, t, MaxReal(save, st.cooldownUntil));
  }

  lemma SavedIsPast(st: Limiter, save: real)
    requires PastOnly(st, save)
    ensures PastOnly(Saved(st, save), save)
  {
    forall key ensures Sorted(Saved(st, save).Window(key)) && NoneAfter(Saved(st, save).Window(key), save) {
      assert Sorted(st.Window(key)) && NoneAfter(st.Window(key), save);
      var k := AfterIsSuffix(st.Window(key), save - HOUR);
    }
  }

  lemma OldFileKeepsInv(f: File, h: seq<Grant>, h': seq<Grant>, now: real, now': real)
    requires FileOk(f, h, now) && now <= now' && h <= h'
    ensures FileOk(f, h', now')
  {
    assert h[..f.known] == h'[..f.known];
    AgreeLaterAll(f.saved, h[..f.known], MaxReal(now, f.saved.cooldownUntil), MaxReal(now', f.saved.cooldownUntil));
    forall key ensures Sorted(f.saved.Window(key)) && NoneAfter(f.saved.Window(key), now') {
      assert Sorted(f.saved.Window(key)) && NoneAfter(f.saved.Window(key), now);
    }
  }

  lemma PastLater(s: Sys, limit: int, now: real)
    requires Inv(s, limit) && s.now <= now
    ensures Inv(s.(now := now), limit)
  {
    var s' := s.(now := now);
    AgreeLaterAll(s.st, s.history, Horizon(s), Horizon(s'));
    forall key ensures Sorted(s.st.Window(key)) && NoneAfter(s.st.Window(key), now) {
      assert Sorted(s.st.Window(key)) && NoneAfter(s.st.Window(key), s.now);
    }
    if s.file.Some? { OldFileKeepsInv(s.file.value, s.history, s.history, s.now, now); }
  }

  lemma PastIsValid(st: Limiter, now: real)
    requires PastOnly(st, now)
    ensures st.Valid()
  {
    forall key | key in st.windows ensures Sorted(st.windows[key]) { assert Sorted(st.Window(key)); }
  }

  /** What an admitted caller finds when it reaches the limiter. */
  lemma AdmittedIsWithin(s: Sys, limit: int, e: Event)
    requires Inv(s, limit) && Legal(s, e) && e.Ask? && Admitted(s.st, limit, e)
    ensures var c := |After(s.st.Window(EndpointKey(e.path)), e.prune - HOUR)|;
            && (e.who.Backfill? ==> c < BACKFILL_HOURLY_BUDGET)
            && (e.who.Pending? ==> c < limit - LIVE_RESERVE)
            && (e.who.Live? ==> c < limit)
  {
    var key := EndpointKey(e.path);
    CallsAre(s.st, limit, e.endpoint, e.count, e.prune);
    if e.who.Live? {
      PastIsValid(s.st, s.now);
      GuardedCallNeverSleeps(s.st, limit, e.endpoint, e.check, e.prune, e.stamp);
      assert Sorted(s.st.Window(key)) && NoneAfter(s.st.Window(key), s.now);
      TakeSlotWindow(s.st, limit, key, e.prune, e.stamp, key);
    }
  }

  lemma AskKeepsInv(s: Sys, limit: int, e: Event)
    requires Inv(s, limit) && Legal(s, e) && e.Ask?
    ensures Inv(Step(s, limit, e), limit)
  {
    if Admitted(s.st, limit, e) {
      KeyOfKey(e.path);
      AgreeLaterAll(s.st, s.history, Horizon(s), e.prune);
      AdmittedIsWithin(s, limit, e);
      AttemptKeepsInv(s, limit, EndpointKey(e.path), e.who, e.prune, e.stamp, e.save, e.saved);
    } else {
      PastLater(s, limit, e.save);
    }
  }

  lemma WakeKeepsInv(s: Sys, limit: int, e: Event)
    requires Inv(s, limit) && Legal(s, e) && e.Wake?
    ensures Inv(Step(s, limit, e), limit)
  {
    var awake := s.sleepers[e.i];
    var s1 := s.(now := e.prune, sleepers := s.sleepers[..e.i] + s.sleepers[e.i + 1..]);
    PastLater(s, limit, e.prune);
    assert WindowsAgree(s1.st, s1.history, e.prune);
    AgreeLaterAll(s.st, s.history, e.prune, Horizon(s1));
    forall i | 0 <= i < |s1.sleepers| ensures s1.sleepers[i] in s.sleepers {}
    AttemptKeepsInv(s1, limit, awake.key, awake.who, e.prune, e.stamp, e.save, e.saved);
  }

  lemma RefusalKeepsInv(s: Sys, limit: int, e: Event)
    requires Inv(s, limit) && Legal(s, e) && e.Refusal?
    ensures Inv(Step(s, limit, e), limit)
  {
    var s' := Step(s, limit, e);
    PastLater(s, limit, e.save);
    AgreeLaterAll(s.st, s.history, Horizon(s.(now := e.save)), Horizon(s'));
    forall key ensures s'.st.Window(key) == s.st.Window(key) {}
    forall key ensures Sorted(s'.st.Window(key)) && NoneAfter(s'.st.Window(key), e.save) {
      assert Sorted(s.st.Window(key)) && NoneAfter(s.st.Window(key), s.now);
    }
    if e.saved {
      FileKeepsInv(s'.st, s.history, e.save, Horizon(s'));
      assert s.history[..|s.history|] == s.history;
    }
  }

  /** What a restart finds: the stamps the file knew of, from the moment calls can resume. */
  lemma LoadedWindows(f: File, h: seq<Grant>, at: real)
    requires FileOk(f, h, at)
    ensures var st := Loaded(Some(f.saved), at);
            PastOnly(st, at) && WindowsAgree(st, h[..f.known], MaxReal(at, f.saved.cooldownUntil))
  {
    var st, t := Loaded(Some(f.saved), at), MaxReal(at, f.saved.cooldownUntil);
    forall key ensures Sorted(st.Window(key)) && NoneAfter(st.Window(key), at)
      && Agrees(st.Window(key), h[..f.known], key, t)
    {
      var w := f.saved.Window(key);
      assert Sorted(w) && NoneAfter(w, at) && Agrees(w, h[..f.known], key, t);
      LoadedInOrder(f.saved, at, key);
      LoadedAgrees(w, h[..f.known], key, at, t);
    }
  }

  function KnownAt(s: Sys, e: Event): nat
    requires e.Restart?
  {
    if FileContent(s, e.readable).Some? then s.file.value.known else 0
  }

  lemma RestartWindows(s: Sys, limit: int, e: Event)
    requires Inv(s, limit) && Legal(s, e) && e.Restart?
    ensures var s' := Step(s, limit, e);
            PastOnly(s'.st, e.at) && WindowsAgree(s'.st, s.history[..KnownAt(s, e)], Horizon(s'))
  {
    var s' := Step(s, limit, e);
    if FileContent(s, e.readable).Some? {
      OldFileKeepsInv(s.file.value, s.history, s.history, s.now, e.at);
      LoadedWindows(s.file.value, s.history, e.at);
    } else {
      forall key ensures Agrees(s'.st.Window(key), s.history[..0], key, Horizon(s')) {}
    }
  }

  lemma LoadedAgrees(w: seq<real>, h: seq<Grant>, key: string, at: real, t: real)
    requires Sorted(w) && NoneAfter(w, at) && Agrees(w, h, key, t) && at <= t
    ensures Agrees(After(w, at - HOUR), h, key, t) && NoneAfter(After(w, at - HOUR), at)
  {
    var k := AfterIsSuffix(w, at - HOUR);
    AfterAfter(w, at - HOUR, t - HOUR);
  }

  lemma RestartKeepsInv(s: Sys, limit: int, e: Event)
    requires Inv(s, limit) && Legal(s, e) && e.Restart? && Covers(s, e)
    ensures var s' := Step(s, limit, e);
            Inv(s', limit) && s'.history == s.history && s'.sleepers == [] && s'.file == s.file
  {
    var s' := Step(s, limit, e);
    RestartAgrees(s, limit, e);
    if s.file.Some? { OldFileKeepsInv(s.file.value, s.history, s.history, s.now, e.at); }
  }

  lemma RestartAgrees(s: Sys, limit: int, e: Event)
    requires Inv(s, limit) && Legal(s, e) && e.Restart? && Covers(s, e)
    ensures var s' := Step(s, limit, e);
            PastOnly(s'.st, e.at) && WindowsAgree(s'.st, s.history, Horizon(s'))
  {
    var s' := Step(s, limit, e);
    var h, t := s.history, Horizon(s');
    var known := KnownAt(s, e);
    RestartWindows(s, limit, e);
    forall key ensures Agrees(s'.st.Window(key), h, key, t) {
      assert Agrees(s'.st.Window(key), h[..known], key, t);
      OldGrantsDoNotCount(h, known, key, t);
    }
  }

  lemma OldGrantsDoNotCount(h: seq<Grant>, known: nat, key: string, t: real)
    requires known <= |h| && forall g :: g in h[known..] ==> g.at <= t - HOUR
    ensures After(Stamps(h, key), t - HOUR) == After(Stamps(h[..known], key), t - HOUR)
  {
    StampsSplit(h, known, key);
    StampsBounded(h[known..], key, t - HOUR);
    AfterNone(Stamps(h[known..], key), t - HOUR);
    AfterConcat(Stamps(h[..known], key), Stamps(h[known..], key), t - HOUR);
  }

  // ---- exactly what a step grants ------------------------------------------

  /** A caller that reached the limiter gets its slot exactly if fewer than `limit` calls of the last hour
      count; otherwise it sleeps, and the file is written exactly for a slot. */
  lemma AttemptIsExact(s: Sys, limit: int, key: string, who: Caller, prune: real, stamp: real,
                       save: real, saved: bool)
    requires PastOnly(s.st, s.now) && s.now <= prune <= stamp <= save
    ensures var (s', c) := (Attempt(s, limit, key, who, prune, stamp, save, saved),
                            ActiveCalls(s.st.Window(key), prune));
            && s'.history == (if c < limit then s.history + [Grant(stamp, key, who)] else s.history)
            && s'.sleepers == (if limit <= c && 0 < c then s.sleepers + [Sleeper(key, who)] else s.sleepers)
            && s'.now == save && s'.st.cooldownUntil == s.st.cooldownUntil
            && Written(s, s', c < limit && saved, save)
  {
    var w := s.st.Window(key);
    assert Sorted(w) && NoneAfter(w, s.now);
    AfterCounts(w, prune);
    TakeSlotWindow(s.st, limit, key, prune, stamp, key);
    PrunedWindow(w, prune);
  }

  /** The file is rewritten with the state and the slots of now, or left alone. */
  ghost predicate Written(s: Sys, s': Sys, write: bool, save: real) {
    s'.file == if write then Some(File(Saved(s'.st, save), |s'.history|)) else s.file
  }

  /** Which calls are let through: backfills below 120 calls and with no live request queued, pending
      items 30 below the limit, live requests and pending items not before `retry_after` says so, and
      nobody during the cooldown. */
  ghost predicate GetsThrough(st: Limiter, limit: int, e: Event)
    requires e.Ask?
  {
    var w := st.Window(EndpointKey(e.endpoint));
    && (e.who.Backfill? ==> !e.queued && ActiveCalls(w, e.count) < 120)
    && (e.who.Pending? ==> ActiveCalls(w, e.count) < limit - 30)
    && (e.who.Pending? || e.who.Live? ==> st.cooldownUntil <= e.check && ActiveCalls(w, e.check) < limit)
    && st.cooldownUntil <= e.cool
  }

  lemma AdmittedExactly(st: Limiter, limit: int, e: Event)
    requires e.Ask? && st.Valid() && 1 <= limit
    ensures Admitted(st, limit, e) <==> GetsThrough(st, limit, e)
  {
    RetryAfterIsExact(st, limit, e.endpoint, e.check);
    AfterCounts(st.Window(EndpointKey(e.endpoint)), e.check);
    AfterCounts(st.Window(EndpointKey(e.endpoint)), e.count);
    assert MayGo(st, limit, EndpointKey(e.endpoint), e.check)
      <==> RetryAfter(st, limit, e.endpoint, e.check) == Ok(0.0);
  }

  /** A call that gets through takes a slot or sleeps; one that does not leaves everything as it is. */
  lemma AskIsExact(s: Sys, limit: int, e: Event)
    requires PastOnly(s.st, s.now) && 1 <= limit && Legal(s, e) && e.Ask?
    ensures var (s', key) := (Step(s, limit, e), EndpointKey(e.path));
            var c := ActiveCalls(s.st.Window(key), e.prune);
            if GetsThrough(s.st, limit, e) then
              && s'.history == (if c < limit then s.history + [Grant(e.stamp, key, e.who)] else s.history)
              && s'.sleepers == (if c < limit then s.sleepers else s.sleepers + [Sleeper(key, e.who)])
              && Written(s, s', c < limit && e.saved, e.save)
            else s' == s.(now := e.save)
  {
    PastIsValid(s.st, s.now);
    AdmittedExactly(s.st, limit, e);
    AttemptIsExact(s, limit, EndpointKey(e.path), e.who, e.prune, e.stamp, e.save, e.saved);
  }

  /** A sleeper that wakes up takes a slot or goes back to sleep; it looks at no cooldown and no budget. */
  lemma WakeIsExact(s: Sys, limit: int, e: Event)
    requires PastOnly(s.st, s.now) && 1 <= limit && Legal(s, e) && e.Wake?
    ensures var (s', awake) := (Step(s, limit, e), s.sleepers[e.i]);
            var c := ActiveCalls(s.st.Window(awake.key), e.prune);
            var others := s.sleepers[..e.i] + s.sleepers[e.i + 1..];
            && s'.history == (if c < limit then s.history + [Grant(e.stamp, awake.key, awake.who)] else s.history)
            && s'.sleepers == (if c < limit then others else others + [awake])
            && Written(s, s', c < limit && e.saved, e.save)
  {
    var awake := s.sleepers[e.i];
    var s1 := s.(sleepers := s.sleepers[..e.i] + s.sleepers[e.i + 1..]);
    AttemptIsExact(s1, limit, awake.key, awake.who, e.prune, e.stamp, e.save, e.saved);
  }

  /** A refusal grants nothing and makes everyone wait at least the seconds it names. */
  lemma RefusalIsExact(s: Sys, limit: int, e: Event)
    requires Legal(s, e) && e.Refusal?
    ensures var s' := Step(s, limit, e);
            && s'.history == s.history && s'.sleepers == s.sleepers && s'.st.windows == s.st.windows
            && e.at + e.seconds <= s'.st.cooldownUntil && s.st.cooldownUntil <= s'.st.cooldownUntil
            && s'.st.cooldownUntil in {s.st.cooldownUntil, e.at + e.seconds}
            && Written(s, s', e.saved, e.save)
  {}

  // ---- whole runs ----------------------------------------------------------

  predicate LegalRun(s: Sys, limit: int, es: seq<Event>)
    decreases |es|
  {
    es == [] || (Legal(s, es[0]) && LegalRun(Step(s, limit, es[0]), limit, es[1..]))
  }

  function Run(s: Sys, limit: int, es: seq<Event>): Sys
    requires LegalRun(s, limit, es)
    decreases |es|
  {
    if es == [] then s else Run(Step(s, limit, es[0]), limit, es[1..])
  }

  /** Every restart of the run finds a file that loses nothing. */
  ghost predicate CoveredRun(s: Sys, limit: int, es: seq<Event>)
    requires LegalRun(s, limit, es)
    decreases |es|
  {
    es == [] ||
    (&& (es[0].Restart? ==> (s.file.Some? ==> s.file.value.known <= |s.history|) && Covers(s, es[0]))
     && CoveredRun(Step(s, limit, es[0]), limit, es[1..]))
  }

  /** Every write of the state file succeeds and every restart can read it. */
  predicate Faithful(es: seq<Event>) {
    forall i :: 0 <= i < |es| ==> if es[i].Restart? then es[i].readable else es[i].saved
  }

  predicate NoRestart(es: seq<Event>) {
    forall i :: 0 <= i < |es| ==> !es[i].Restart?
  }

  lemma {:induction false} RunKeepsInv(s: Sys, limit: int, es: seq<Event>)
    requires Inv(s, limit) && LegalRun(s, limit, es) && CoveredRun(s, limit, es)
    ensures Inv(Run(s, limit, es), limit)
    decreases |es|
  {
    if es != [] {
      match es[0] {
        case Ask(_, _, _, _, _, _, _, _, _, _, _) => AskKeepsInv(s, limit, es[0]);
        case Wake(_, _, _, _, _) => WakeKeepsInv(s, limit, es[0]);
        case Refusal(_, _, _, _) => RefusalKeepsInv(s, limit, es[0]);
        case Restart(_, _) => RestartKeepsInv(s, limit, es[0]);
      }
      RunKeepsInv(Step(s, limit, es[0]), limit, es[1..]);
    }
  }

  function Fresh(now: real): Sys { Sys(Limiter(map[], 0.0), now, [], [], None) }

  lemma FreshInv(now: real, limit: int)
    requires 1 <= limit
    ensures Inv(Fresh(now), limit)
  {
    forall key ensures Agrees(Fresh(now).st.Window(key), [], key, Horizon(Fresh(now))) {}
    forall key, t ensures HourWithin([], limit, key, t) {}
  }

  /** With a limit below 1 nothing is ever granted: callers raise or sleep. */
  lemma {:induction false} NothingGrantedBelowOne(s: Sys, limit: int, es: seq<Event>)
    requires limit < 1 && LegalRun(s, limit, es)
    ensures Run(s, limit, es).history == s.history
    decreases |es|
  {
    if es != [] { NothingGrantedBelowOne(Step(s, limit, es[0]), limit, es[1..]); }
  }

  /** Over every interleaving and every restart that finds a covering state file, no endpoint ever
      hands out more than its limit in an hour, the backfills never more than 120, and the backfills
      and the pending worker together never more than max(120, limit - 30). */
  lemma NoHourExceedsItsBounds(now: real, limit: int, es: seq<Event>, key: string, t: real)
    requires LegalRun(Fresh(now), limit, es) && CoveredRun(Fresh(now), limit, es)
    ensures HourWithin(Run(Fresh(now), limit, es).history, Max(0, limit), key, t)
  {
    if limit < 1 {
      NothingGrantedBelowOne(Fresh(now), limit, es);
    } else {
      FreshInv(now, limit);
      RunKeepsInv(Fresh(now), limit, es);
    }
  }

  lemma {:induction false} FaithfulRunIsCovered(s: Sys, limit: int, es: seq<Event>)
    requires LegalRun(s, limit, es) && Faithful(es)
    requires s.history == [] || s.file.Some?
    requires s.file.Some? ==> s.file.value.known == |s.history|
    ensures CoveredRun(s, limit, es)
    decreases |es|
  {
    if es != [] {
      assert Faithful(es[1..]);
      FaithfulRunIsCovered(Step(s, limit, es[0]), limit, es[1..]);
    }
  }

  /** With a state file that can be written and read, restarts need no further assumption. */
  lemma FaithfulFileKeepsBounds(now: real, limit: int, es: seq<Event>, key: string, t: real)
    requires LegalRun(Fresh(now), limit, es) && Faithful(es)
    ensures HourWithin(Run(Fresh(now), limit, es).history, Max(0, limit), key, t)
  {
    FaithfulRunIsCovered(Fresh(now), limit, es);
    NoHourExceedsItsBounds(now, limit, es, key, t);
  }

  // ---- exactly when a restart is safe --------------------------------------

  lemma RunFirst(s: Sys, limit: int, e: Event, es: seq<Event>)
    requires Legal(s, e) && LegalRun(Step(s, limit, e), limit, es)
    ensures LegalRun(s, limit, [e] + es) && Run(s, limit, [e] + es) == Run(Step(s, limit, e), limit, es)
  {
    assert ([e] + es)[0] == e && ([e] + es)[1..] == es;
  }

  lemma DirectCallFills(s: Sys, limit: int, key: string, t: real)
    requires EndpointKey(key) == key && s.now <= t && s.st.cooldownUntil <= t
    requires Sorted(s.st.Window(key)) && NoneAfter(s.st.Window(key), t)
    requires |After(s.st.Window(key), t - HOUR)| < limit
    ensures var e := Ask(Direct, key, key, false, t, t, t, t, t, t, false);
            && Legal(s, e)
            && var s' := Step(s, limit, e);
            && s'.now == t && s'.st.cooldownUntil <= t && s'.history == s.history + [Grant(t, key, Direct)]
            && Sorted(s'.st.Window(key)) && NoneAfter(s'.st.Window(key), t)
            && |After(s'.st.Window(key), t - HOUR)| == |After(s.st.Window(key), t - HOUR)| + 1
  {
    TakeSlotWindow(s.st, limit, key, t, t, key);
    AfterConcat(After(s.st.Window(key), t - HOUR), [t], t - HOUR);
    AfterAfter(s.st.Window(key), t - HOUR, t - HOUR);
  }

  /** `n` calls without any check of their own, all at time `t`, are all let through. */
  lemma {:induction false} BurstFills(s: Sys, limit: int, key: string, t: real, n: nat) returns (es: seq<Event>)
    requires EndpointKey(key) == key && s.now <= t && s.st.cooldownUntil <= t
    requires Sorted(s.st.Window(key)) && NoneAfter(s.st.Window(key), t)
    requires |After(s.st.Window(key), t - HOUR)| + n <= limit
    ensures NoRestart(es) && LegalRun(s, limit, es)
    ensures Count(Run(s, limit, es).history, key, EVERYONE, t - HOUR, t)
         == Count(s.history, key, EVERYONE, t - HOUR, t) + n
    decreases n
  {
    es := [];
    if n > 0 {
      var e := Ask(Direct, key, key, false, t, t, t, t, t, t, false);
      DirectCallFills(s, limit, key, t);
      CountAppend(s.history, Grant(t, key, Direct), key, EVERYONE, t - HOUR, t);
      var rest := BurstFills(Step(s, limit, e), limit, key, t, n - 1);
      RunFirst(s, limit, e, rest);
      es := [e] + rest;
    }
  }

  lemma LostGrantCounts(h: seq<Grant>, known: nat, i: nat, t: real)
    requires known <= i < |h| && t - HOUR < h[i].at
    ensures |After(Stamps(h[..known], h[i].key), t - HOUR)| < |After(Stamps(h, h[i].key), t - HOUR)|
  {
    var key := h[i].key;
    var b := Stamps(h[known..], key);
    StampsSplit(h, known, key);
    AfterConcat(Stamps(h[..known], key), b, t - HOUR);
    StampMember(h[known..], i - known);
    AfterMember(b, t - HOUR, h[i].at);
  }

  lemma LostGrant(s: Sys, e: Event) returns (i: nat)
    requires e.Restart? && (s.file.Some? ==> s.file.value.known <= |s.history|) && !Covers(s, e)
    ensures KnownAt(s, e) <= i < |s.history|
    ensures MaxReal(e.at, Loaded(FileContent(s, e.readable), e.at).cooldownUntil) - HOUR < s.history[i].at
  {
    var known := KnownAt(s, e);
    var resume := MaxReal(e.at, Loaded(FileContent(s, e.readable), e.at).cooldownUntil);
    var g :| g in s.history[known..] && resume - HOUR < g.at;
    var j :| 0 <= j < |s.history[known..]| && s.history[known..][j] == g;
    i := known + j;
  }

  /** A window that misses a grant of the last hour lets a burst through that exceeds the limit. */
  lemma BurstExceeds(s: Sys, limit: int, key: string, t: real) returns (es: seq<Event>)
    requires EndpointKey(key) == key && s.now <= t && s.st.cooldownUntil <= t
    requires Sorted(s.st.Window(key)) && NoneAfter(s.st.Window(key), t)
    requires |After(s.st.Window(key), t - HOUR)| < Count(s.history, key, EVERYONE, t - HOUR, t) <= limit
    ensures NoRestart(es) && LegalRun(s, limit, es) && !Within(Run(s, limit, es).history, limit)
  {
    es := BurstFills(s, limit, key, t, limit - |After(s.st.Window(key), t - HOUR)|);
    assert !HourWithin(Run(s, limit, es).history, limit, key, t);
  }

  /** A window that agrees with the history up to `known` counts less than the hour did. */
  lemma WindowBehind(w: seq<real>, h: seq<Grant>, limit: int, known: nat, i: nat, t: real)
    requires known <= i < |h| && t - HOUR < h[i].at && forall g :: g in h ==> g.at <= t
    requires Agrees(w, h[..known], h[i].key, t) && HourWithin(h, limit, h[i].key, t)
    ensures |After(w, t - HOUR)| < Count(h, h[i].key, EVERYONE, t - HOUR, t) <= limit
  {
    LostGrantCounts(h, known, i, t);
    CountIsActive(h, h[i].key, t - HOUR, t);
  }

  /** The window after a restart misses a grant that is not covered. */
  lemma WindowMisses(s: Sys, limit: int, e: Event) returns (key: string)
    requires Inv(s, limit) && Legal(s, e) && e.Restart? && !Covers(s, e)
    ensures var s' := Step(s, limit, e);
            var w := s'.st.Window(key);
            var t := Horizon(s');
            && EndpointKey(key) == key && Sorted(w) && NoneAfter(w, e.at)
            && |After(w, t - HOUR)| < Count(s.history, key, EVERYONE, t - HOUR, t) <= limit
  {
    var s' := Step(s, limit, e);
    var i := LostGrant(s, e);
    key := s.history[i].key;
    assert s.history[i] in s.history && HourWithin(s.history, limit, key, Horizon(s'));
    RestartWindows(s, limit, e);
    var w := s'.st.Window(key);
    assert Agrees(w, s.history[..KnownAt(s, e)], key, Horizon(s')) && Sorted(w) && NoneAfter(w, e.at);
    WindowBehind(w, s.history, limit, KnownAt(s, e), i, Horizon(s'));
  }

  lemma LostGrantBreaksBound(s: Sys, limit: int, e: Event) returns (es: seq<Event>)
    requires Inv(s, limit) && Legal(s, e) && e.Restart? && !Covers(s, e)
    ensures LegalRun(Step(s, limit, e), limit, es) && NoRestart(es)
    ensures !Within(Run(Step(s, limit, e), limit, es).history, limit)
  {
    var s' := Step(s, limit, e);
    var key := WindowMisses(s, limit, e);
    es := BurstExceeds(s', limit, key, Horizon(s'));
  }

  /** A restart is safe, whatever calls follow, exactly when no slot missing from the loaded file is
      still active at the moment calls can resume. */
  lemma RestartIsSafeExactly(s: Sys, limit: int, e: Event)
    requires Inv(s, limit) && Legal(s, e) && e.Restart?
    ensures Covers(s, e) <==>
      forall es :: LegalRun(Step(s, limit, e), limit, es) && NoRestart(es) ==>
        Within(Run(Step(s, limit, e), limit, es).history, limit)
  {
    var s' := Step(s, limit, e);
    if Covers(s, e) {
      RestartKeepsInv(s, limit, e);
      forall es | LegalRun(s', limit, es) && NoRestart(es) ensures Within(Run(s', limit, es).history, limit) {
        NoRestartIsCovered(s', limit, es);
        RunKeepsInv(s', limit, es);
      }
    } else {
      var es := LostGrantBreaksBound(s, limit, e);
    }
  }

  /** A call without any check of its own to "issues/" at time `t`. */
  function CallAt(t: real, saved: bool): Event { Ask(Direct, "issues/", "issues/", false, t, t, t, t, t, t, saved) }

  lemma CallIsGranted(s: Sys, t: real, saved: bool)
    requires s.st == Limiter(map[], 0.0) && s.now <= t && 0.0 <= t
    ensures Legal(s, CallAt(t, saved))
    ensures var s' := Step(s, 1, CallAt(t, saved));
            && s'.history == s.history + [Grant(t, "issues", Direct)]
            && s'.now == t && s'.sleepers == s.sleepers && (!saved ==> s'.file == s.file)
  {
    KeyOfPath("", "issues", "/");
    assert "" + "issues" + "/" == "issues/";
  }

  /** With a limit of 1 one failed write of the state file is enough: after a call at second 0 whose slot
      is not saved, a restart at second 2 is not covered. */
  lemma UnsavedSlotIsNotCovered()
    ensures var s := Step(Fresh(0.0), 1, CallAt(0.0, false));
            && Legal(Fresh(0.0), CallAt(0.0, false)) && Inv(s, 1)
            && s == Sys(s.st, 0.0, [Grant(0.0, "issues", Direct)], [], None)
            && !Covers(s, Restart(2.0, true))
  {
    FreshInv(0.0, 1);
    CallIsGranted(Fresh(0.0), 0.0, false);
    AskKeepsInv(Fresh(0.0), 1, CallAt(0.0, false));
    WithoutFile(Step(Fresh(0.0), 1, CallAt(0.0, false)));
  }

  lemma WithoutFile(s: Sys)
    requires s.file == None && s.history == [Grant(0.0, "issues", Direct)]
    ensures !Covers(s, Restart(2.0, true))
  {
    assert s.history[0..] == s.history && s.history[0] in s.history;
  }

  lemma TwoSlotsInAnHour()
    ensures !HourWithin([Grant(0.0, "issues", Direct), Grant(3.0, "issues", Direct)], 1, "issues", 3.0)
  {
    var g, h := Grant(0.0, "issues", Direct), Grant(3.0, "issues", Direct);
    CountAppend([], g, "issues", EVERYONE, 3.0 - HOUR, 3.0);
    CountAppend([g], h, "issues", EVERYONE, 3.0 - HOUR, 3.0);
    assert [] + [g] == [g] && [g] + [h] == [g, h];
  }

  lemma SecondCallIsGranted(s: Sys)
    requires s.st == Limiter(map[], 0.0) && s.now == 2.0 && s.history == [Grant(0.0, "issues", Direct)]
    ensures LegalRun(s, 1, [CallAt(3.0, true)])
    ensures Run(s, 1, [CallAt(3.0, true)]).history == [Grant(0.0, "issues", Direct), Grant(3.0, "issues", Direct)]
  {
    CallIsGranted(s, 3.0, true);
    RunFirst(s, 1, CallAt(3.0, true), []);
    assert [CallAt(3.0, true)] + [] == [CallAt(3.0, true)];
    assert s.history + [Grant(3.0, "issues", Direct)] == [Grant(0.0, "issues", Direct), Grant(3.0, "issues", Direct)];
  }

  lemma RestartThenCall(s: Sys)
    requires s.now == 0.0 && s.file == None && s.history == [Grant(0.0, "issues", Direct)]
    ensures LegalRun(s, 1, [Restart(2.0, true), CallAt(3.0, true)])
    ensures Run(s, 1, [Restart(2.0, true), CallAt(3.0, true)]).history
         == [Grant(0.0, "issues", Direct), Grant(3.0, "issues", Direct)]
  {
    SecondCallIsGranted(Step(s, 1, Restart(2.0, true)));
    RunFirst(s, 1, Restart(2.0, true), [CallAt(3.0, true)]);
    assert [Restart(2.0, true)] + [CallAt(3.0, true)] == [Restart(2.0, true), CallAt(3.0, true)];
  }

  /** A call at second 3 is then the second of the hour. */
  lemma UnsavedSlotIsForgotten()
    ensures var es := [CallAt(0.0, false), Restart(2.0, true), CallAt(3.0, true)];
            LegalRun(Fresh(0.0), 1, es) && !HourWithin(Run(Fresh(0.0), 1, es).history, 1, "issues", 3.0)
  {
    var e, rest := CallAt(0.0, false), [Restart(2.0, true), CallAt(3.0, true)];
    UnsavedSlotIsNotCovered();
    RestartThenCall(Step(Fresh(0.0), 1, e));
    RunFirst(Fresh(0.0), 1, e, rest);
    assert [e] + rest == [CallAt(0.0, false), Restart(2.0, true), CallAt(3.0, true)];
    TwoSlotsInAnHour();
  }

  lemma {:induction false} NoRestartIsCovered(s: Sys, limit: int, es: seq<Event>)
    requires LegalRun(s, limit, es) && NoRestart(es)
    ensures CoveredRun(s, limit, es)
    decreases |es|
  {
    if es != [] {
      assert NoRestart(es[1..]);
      NoRestartIsCovered(Step(s, limit, es[0]), limit, es[1..]);
    }
  }
}
