/** The rate limiters of the upstream client: the per-endpoint hourly window, the cooldown after a
    refusal, the state file that carries both across restarts, and the evenly spaced pacer.

    Clock readings are parameters, one for every place the code reads the clock. */
module CvClient {
  import opened Wrappers
  import opened RateWindow

  /** A value, or the IndexError raised when the configured limit is not positive. */
  datatype Outcome<+T> = Ok(value: T) | IndexError

  datatype Slot = Granted | Sleep(seconds: real)

  /** The deques of call times by endpoint key, and the end of the cooldown. */
  datatype Limiter = Limiter(windows: map<string, seq<real>>, cooldownUntil: real) {
    function Window(key: string): seq<real> { if key in windows then windows[key] else [] }

    ghost predicate Valid() { forall key :: key in windows ==> Sorted(windows[key]) }
  }

  // ---- endpoint keys -------------------------------------------------------

  function StripSlashes(s: string): string {
    if s != "" && s[0] == '/' then StripSlashes(s[1..]) else s
  }

  function UpToSlash(s: string): string {
    if s == "" || s[0] == '/' then "" else [s[0]] + UpToSlash(s[1..])
  }

  /** The first path segment; slashes at the far end cannot change it. */
  function EndpointKey(endpoint: string): string { UpToSlash(StripSlashes(endpoint)) }

  /** Every path below a resource shares the window of the resource, with or without slashes before
      it: the budget checks that ask about "issue/" and the calls made to "issue/4000-1/" look at the
      same deque. */
  lemma {:induction false} KeyOfPath(slashes: string, name: string, rest: string)
    requires '/' !in name && name != "" && (rest == "" || rest[0] == '/')
    requires forall c :: c in slashes ==> c == '/'
    ensures EndpointKey(slashes + name + rest) == name
  {
    if slashes == "" {
      assert slashes + name + rest == name + rest;
      assert StripSlashes(name + rest) == name + rest;
      UpToSlashOfPath(name, rest);
    } else {
      var path := slashes + name + rest;
      assert slashes[0] in slashes;
      assert path[0] == '/' && path[1..] == slashes[1..] + name + rest;
      assert forall c :: c in slashes[1..] ==> c in slashes;
      KeyOfPath(slashes[1..], name, rest);
    }
  }

  lemma {:induction false} UpToSlashOfPath(name: string, rest: string)
    requires '/' !in name && (rest == "" || rest[0] == '/')
    ensures UpToSlash(name + rest) == name
  {
    if name == "" {
      assert name + rest == rest;
    } else {
      assert (name + rest)[1..] == name[1..] + rest;
      UpToSlashOfPath(name[1..], rest);
      assert name == [name[0]] + name[1..];
    }
  }

  // ---- the atomic sections, as functions on the state ----------------------

  /** One pass through the hourly limiter: prune, then take a slot or say how long to sleep. */
  function TakeSlot(st: Limiter, limit: int, key: string, now: real, stamp: real): (Limiter, Outcome<Slot>) {
    var w := Pruned(st.Window(key), now - HOUR);
    if |w| < limit then (st.(windows := st.windows[key := w + [stamp]]), Ok(Granted))
    else
      (st.(windows := st.windows[key := w]), if w == [] then IndexError else Ok(Sleep(w[0] + HOUR - now)))
  }

  /** The limiter raises exactly with a limit below 1 and no active stamp to wait for; with such a limit
      it never grants. */
  lemma SlotRaisesExactly(st: Limiter, limit: int, key: string, now: real, stamp: real)
    ensures var slot := TakeSlot(st, limit, key, now, stamp).1;
            && (slot == IndexError <==> limit < 1 && Pruned(st.Window(key), now - HOUR) == [])
            && (limit < 1 ==> slot != Ok(Granted))
  {}

  /** `retry_after` raises exactly with a limit below 1 and a stamp in the window, active or not. With
      such a limit and no stamp it answers with what is left of the cooldown. */
  lemma RetryAfterRaisesExactly(st: Limiter, limit: int, endpoint: string, now: real)
    ensures var r := RetryAfter(st, limit, endpoint, now);
            && (r == IndexError <==> limit < 1 && st.Window(EndpointKey(endpoint)) != [])
            && (limit < 1 && r.Ok? ==>
                  && 0.0 <= r.value && st.cooldownUntil <= now + r.value
                  && (r.value == 0.0 || now + r.value == st.cooldownUntil))
  {}

  /** With the limit 0, which the settings accept, the first guarded call is told to go ahead and then
      raises in the limiter. */
  lemma LimitZeroRaises(now: real, stamp: real)
    ensures var st := Limiter(map[], 0.0);
            && (0.0 <= now ==> RetryAfter(st, 0, "issues/", now) == Ok(0.0))
            && TakeSlot(st, 0, EndpointKey("issues/"), now, stamp).1 == IndexError
  {
    assert Limiter(map[], 0.0).Window(EndpointKey("issues/")) == [];
  }

  /** What is written to the state file. */
  function Saved(st: Limiter, now: real): Limiter {
    st.(windows := map key | key in st.windows :: After(st.windows[key], now - HOUR))
  }

  /** The state a new process starts from; `None` is a missing or unreadable file. */
  function Loaded(file: Option<Limiter>, now: real): Limiter {
    match file
    case None => Limiter(map[], 0.0)
    case Some(st) => st.(windows := map key | key in st.windows :: SortReals(After(st.windows[key], now - HOUR)))
  }

  function Cooled(st: Limiter, now: real, seconds: real): Limiter {
    st.(cooldownUntil := MaxReal(st.cooldownUntil, now + seconds))
  }

  /** A refusal makes every endpoint wait for the seconds given, and longer only where it had to wait
      longer before. */
  lemma RefusalIsWaitedFor(st: Limiter, limit: int, endpoint: string, refused: real, seconds: real, now: real)
    requires st.Valid() && 1 <= limit
    ensures var before, after := RetryAfter(st, limit, endpoint, now),
                                 RetryAfter(Cooled(st, refused, seconds), limit, endpoint, now);
            && before.Ok? && after.Ok?
            && before.value <= after.value && refused + seconds - now <= after.value
            && (after.value == before.value || after.value == refused + seconds - now)
  {
    assert Cooled(st, refused, seconds).Window(EndpointKey(endpoint)) == st.Window(EndpointKey(endpoint));
  }

  function HourlyCalls(st: Limiter, endpoint: string, now: real): nat {
    |After(st.Window(EndpointKey(endpoint)), now - HOUR)|
  }

  /** The calls that are counted are those of the last hour, however often two have the same stamp. */
  lemma HourlyCallsAreActive(st: Limiter, endpoint: string, now: real)
    ensures HourlyCalls(st, endpoint, now) == ActiveCalls(st.Window(EndpointKey(endpoint)), now)
  {
    AfterCounts(st.Window(EndpointKey(endpoint)), now);
  }

  function RetryAfter(st: Limiter, limit: int, endpoint: string, now: real): Outcome<real> {
    var cool := MaxReal(0.0, st.cooldownUntil - now);
    var w := st.Window(EndpointKey(endpoint));
    var active := After(w, now - HOUR);
    if w == [] || |active| < limit then Ok(cool)
    else if limit < 1 then IndexError
    else Ok(MaxReal(cool, active[|active| - limit] + HOUR - now))
  }

  /** When a request to the window `key` may go upstream. */
  ghost predicate MayGo(st: Limiter, limit: int, key: string, t: real) {
    st.cooldownUntil <= t && |After(st.Window(key), t - HOUR)| < limit
  }

  /** Fewer than `limit` of some sorted stamps are later than a cutoff exactly when the `limit`-th last is
      not. */
  lemma FewerExactly(w: seq<real>, limit: int, cutoff: real)
    requires Sorted(w) && 1 <= limit
    ensures |After(w, cutoff)| < limit <==> |w| < limit || w[|w| - limit] <= cutoff
  {
    var j := AfterIsSuffix(w, cutoff);
    assert |After(w, cutoff)| == |w| - j;
    if limit <= |w| {
      if |w| - limit < j {
        assert w[|w| - limit] <= cutoff;
      } else {
        assert cutoff < w[|w| - limit];
      }
    }
  }

  lemma FewerLater(w: seq<real>, limit: int, now: real, t: real)
    requires Sorted(w) && 1 <= limit && now <= t
    ensures var active := After(w, now - HOUR);
            |After(w, t - HOUR)| < limit <==> |active| < limit || active[|active| - limit] <= t - HOUR
  {
    AfterSorted(w, now - HOUR);
    AfterAfter(w, now - HOUR, t - HOUR);
    FewerExactly(After(w, now - HOUR), limit, t - HOUR);
  }

  lemma AfterSorted(w: seq<real>, cutoff: real)
    requires Sorted(w)
    ensures Sorted(After(w, cutoff))
  {
    var _ := AfterIsSuffix(w, cutoff);
  }

  /** `retry_after` is the least wait after which the call may go, for windows of any length, and
      from then on the call may go at any time. */
  lemma RetryAfterIsExact(st: Limiter, limit: int, endpoint: string, now: real)
    requires st.Valid() && 1 <= limit
    ensures var key := EndpointKey(endpoint);
            var r := RetryAfter(st, limit, endpoint, now);
            && r.Ok? && 0.0 <= r.value
            && forall t :: now <= t ==> (MayGo(st, limit, key, t) <==> now + r.value <= t)
  {
    var key := EndpointKey(endpoint);
    var r := RetryAfter(st, limit, endpoint, now).value;
    forall t | now <= t ensures MayGo(st, limit, key, t) <==> now + r <= t {
      FewerLater(st.Window(key), limit, now, t);
    }
  }

  /** A guarded call that was told not to wait takes its slot without sleeping, even though the
      limiter reads the clock again. */
  lemma GuardedCallNeverSleeps(st: Limiter, limit: int, endpoint: string, t0: real, now: real, stamp: real)
    requires st.Valid() && 1 <= limit && t0 <= now
    requires RetryAfter(st, limit, endpoint, t0) == Ok(0.0)
    ensures TakeSlot(st, limit, EndpointKey(endpoint), now, stamp).1 == Ok(Granted)
    ensures st.cooldownUntil <= t0
  {
    RetryAfterIsExact(st, limit, endpoint, t0);
    assert MayGo(st, limit, EndpointKey(endpoint), t0);
    assert MayGo(st, limit, EndpointKey(endpoint), now);
    var _ := AfterIsSuffix(st.Window(EndpointKey(endpoint)), now - HOUR);
  }

  /** Whatever order a file has its stamps in, they are read back in order and without those that have
      expired. */
  lemma LoadedWindow(file: Limiter, loaded: real, key: string)
    ensures var w := Loaded(Some(file), loaded).Window(key);
            Sorted(w) && multiset(w) == multiset(After(file.Window(key), loaded - HOUR))
  {
    SortedAfterSort(After(file.Window(key), loaded - HOUR));
  }

  /** A file in order is read back in its order. */
  lemma LoadedInOrder(file: Limiter, loaded: real, key: string)
    requires Sorted(file.Window(key))
    ensures Loaded(Some(file), loaded).Window(key) == After(file.Window(key), loaded - HOUR)
    ensures Sorted(After(file.Window(key), loaded - HOUR))
  {
    var _ := AfterIsSuffix(file.Window(key), loaded - HOUR);
    SortedAfterSort(After(file.Window(key), loaded - HOUR));
  }

  /** A file written at `saved` and read at `loaded` gives back every stamp that is still active, in
      order, and the cooldown. */
  lemma LoadAfterSave(st: Limiter, saved: real, loaded: real, key: string)
    requires Sorted(st.Window(key)) && saved <= loaded
    ensures var back := Loaded(Some(Saved(st, saved)), loaded);
            && back.Window(key) == After(st.Window(key), loaded - HOUR)
            && back.cooldownUntil == st.cooldownUntil
  {
    var w := st.Window(key);
    var _ := AfterIsSuffix(w, saved - HOUR);
    assert Saved(st, saved).Window(key) == After(w, saved - HOUR);
    LoadedInOrder(Saved(st, saved), loaded, key);
    AfterAfter(w, saved - HOUR, loaded - HOUR);
  }

  /** Whatever is in the file, the windows come out sorted; without a file there are none. */
  lemma LoadedIsValid(file: Option<Limiter>, now: real)
    ensures var st := Loaded(file, now);
            && st.Valid()
            && st.cooldownUntil == (if file.Some? then file.value.cooldownUntil else 0.0)
            && st.windows.Keys == (if file.Some? then file.value.windows.Keys else {})
  {
    if file.Some? {
      forall key | key in file.value.windows ensures Sorted(Loaded(file, now).windows[key]) {
        SortedAfterSort(After(file.value.windows[key], now - HOUR));
      }
    }
  }

  /** The file holds every window, and of its stamps those of the last hour, as often as they occur. */
  lemma SavedHoldsActive(st: Limiter, now: real, key: string, x: real)
    ensures var file := Saved(st, now);
            && file.cooldownUntil == st.cooldownUntil && file.windows.Keys == st.windows.Keys
            && multiset(file.Window(key))[x] == if now - HOUR < x then multiset(st.Window(key))[x] else 0
  {
    AfterMultiplicity(st.Window(key), now - HOUR, x);
  }

  /** `wake` is when the first of the stamps active at `now` expires. */
  ghost predicate FirstExpiry(w: seq<real>, now: real, wake: real) {
    && now < wake
    && (exists i :: 0 <= i < |w| && now < w[i] + HOUR <= wake)
    && (forall i :: 0 <= i < |w| && now < w[i] + HOUR ==> wake <= w[i] + HOUR)
  }

  /** The first `k` stamps have expired and the next one has not. */
  ghost predicate LeadingExpired(w: seq<real>, k: nat, cutoff: real) {
    && k <= |w| && (forall i :: 0 <= i < k ==> w[i] <= cutoff)
    && (k < |w| ==> cutoff < w[k])
  }

  lemma FirstLeftExpiresFirst(w: seq<real>, k: nat, now: real)
    requires LeadingExpired(w, k, now - HOUR) && Sorted(w) && k < |w|
    ensures FirstExpiry(w, now, w[k] + HOUR)
  {}

  /** A caller sleeps until the first active stamp expires. If exactly `limit` were active, the slot is
      granted from then on and not before. */
  lemma SleepIsExact(st: Limiter, limit: int, key: string, now: real, stamp: real, later: real, stamp': real)
    requires Sorted(st.Window(key)) && NoneAfter(st.Window(key), now) && now <= later
    requires TakeSlot(st, limit, key, now, stamp).1.Ok? && TakeSlot(st, limit, key, now, stamp).1.value.Sleep?
    ensures var (st', slot) := TakeSlot(st, limit, key, now, stamp);
            && FirstExpiry(st.Window(key), now, now + slot.value.seconds)
            && (ActiveCalls(st.Window(key), now) == limit ==>
                  (TakeSlot(st', limit, key, later, stamp').1 == Ok(Granted) <==> now + slot.value.seconds <= later))
  {
    var w := st.Window(key);
    var k := AfterIsSuffix(w, now - HOUR);
    AfterCounts(w, now);
    var st' := TakeSlot(st, limit, key, now, stamp).0;
    assert st'.Window(key) == w[k..];
    FirstLeftExpiresFirst(w, k, now);
    var j := AfterIsSuffix(w[k..], later - HOUR);
  }

  /** Pruning and appending keep the stamps that count; a slot adds exactly its own stamp. */
  lemma TakeSlotWindow(st: Limiter, limit: int, key: string, now: real, stamp: real, other: string)
    requires Sorted(st.Window(key)) && NoneAfter(st.Window(key), now) && now <= stamp
    ensures var (st', slot) := TakeSlot(st, limit, key, now, stamp);
            && Sorted(st'.Window(key))
            && st'.cooldownUntil == st.cooldownUntil
            && (other != key ==> st'.Window(other) == st.Window(other))
            && st'.Window(key) == After(st.Window(key), now - HOUR)
                 + (if slot == Ok(Granted) then [stamp] else [])
            && NoneAfter(st'.Window(key), stamp)
            && (slot == Ok(Granted) <==> |After(st.Window(key), now - HOUR)| < limit)
  {
    var w := After(st.Window(key), now - HOUR);
    TakeSlotIs(st, limit, key, now, stamp);
    PrunedWindow(st.Window(key), now);
    if |w| < limit {
      WindowSet(st, key, w + [stamp], other);
      SortedAppend(w, now, stamp);
    } else {
      WindowSet(st, key, w, other);
      SortedAppend(w, now, stamp);
      NothingAppended(w);
    }
  }

  lemma WindowSet(st: Limiter, key: string, w: seq<real>, other: string)
    ensures var st' := st.(windows := st.windows[key := w]);
            st'.Window(key) == w && (other != key ==> st'.Window(other) == st.Window(other))
  {}

  lemma TakeSlotIs(st: Limiter, limit: int, key: string, now: real, stamp: real)
    requires Sorted(st.Window(key)) && NoneAfter(st.Window(key), now)
    ensures var w := After(st.Window(key), now - HOUR);
            var (st', slot) := TakeSlot(st, limit, key, now, stamp);
            && st' == st.(windows := st.windows[key := if |w| < limit then w + [stamp] else w])
            && (slot == Ok(Granted) <==> |w| < limit)
  {
    PrunedWindow(st.Window(key), now);
  }

  lemma NothingAppended(w: seq<real>)
    ensures w + [] == w
  {}

  lemma PrunedWindow(w: seq<real>, now: real)
    requires Sorted(w) && NoneAfter(w, now)
    ensures Pruned(w, now - HOUR) == After(w, now - HOUR)
    ensures Sorted(After(w, now - HOUR)) && NoneAfter(After(w, now - HOUR), now)
  {
    var k := AfterIsSuffix(w, now - HOUR);
    forall i | 0 <= i < |w[k..]| ensures w[k..][i] <= now { assert w[k..][i] == w[k + i]; }
  }

  lemma SortedAppend(w: seq<real>, now: real, stamp: real)
    requires Sorted(w) && NoneAfter(w, now) && now <= stamp
    ensures Sorted(w + [stamp]) && NoneAfter(w + [stamp], stamp) && NoneAfter(w, stamp)
  {}

  // ---- the pacer -----------------------------------------------------------

  /** The send time a caller reserves at `now`, given the last one reserved. */
  function Reserve(last: real, interval: real, now: real): (t: real)
    ensures now <= t && last + interval <= t
    ensures t == now || t == last + interval
  {
    now + MaxReal(0.0, interval - (now - last))
  }

  /** The times reserved by callers that reach the pacer at the times `calls`, in that order. */
  function Reservations(last: real, interval: real, calls: seq<real>): (r: seq<real>)
    ensures |r| == |calls|
    decreases |calls|
  {
    if calls == [] then []
    else
      var t := Reserve(last, interval, calls[0]);
      [t] + Reservations(t, interval, calls[1..])
  }

  /** Reserved send times are at least one interval apart, n places apart at least n intervals. */
  lemma {:induction false} ReservationsSpaced(last: real, interval: real, calls: seq<real>, i: nat, n: nat)
    requires 0.0 <= interval && i + n < |calls|
    ensures var r := Reservations(last, interval, calls);
            && r[i] >= last + interval
            && r[i + n] - r[i] >= n as real * interval
    decreases i + n
  {
    var t := Reserve(last, interval, calls[0]);
    var rest := Reservations(t, interval, calls[1..]);
    if i > 0 {
      ReservationsSpaced(t, interval, calls[1..], i - 1, n);
    } else if n > 0 {
      ReservationsSpaced(t, interval, calls[1..], 0, n - 1);
      assert (n - 1) as real * interval + interval == n as real * interval;
    }
  }

  /** However many callers queue up, at most `rate` of their reserved send times fall into any
      60 seconds, open at the start and closed at the end. */
  lemma PacerBound(last: real, rate: int, calls: seq<real>, t: real)
    requires 1 <= rate
    ensures var r := Reservations(last, 60.0 / rate as real, calls);
            |After(r, t)| - |After(r, t + 60.0)| <= rate
  {
    var d := 60.0 / rate as real;
    assert 0.0 <= d && rate as real * d == 60.0;
    PacerBoundAt(last, d, rate, calls, t);
  }

  lemma PacerBoundAt(last: real, interval: real, rate: nat, calls: seq<real>, t: real)
    requires 0.0 <= interval && rate as real * interval == 60.0
    ensures var r := Reservations(last, interval, calls);
            |After(r, t)| - |After(r, t + 60.0)| <= rate
  {
    var r := Reservations(last, interval, calls);
    forall i, j | 0 <= i < j < |r| ensures r[i] <= r[j] {
      Apart(last, interval, calls, i, j - i, 0.0);
    }
    forall i | 0 <= i < |r| - rate ensures r[i + rate] - r[i] >= 60.0 {
      Apart(last, interval, calls, i, rate, 60.0);
    }
    SpacedCount(r, rate, 60.0, t);
  }

  lemma Apart(last: real, interval: real, calls: seq<real>, i: nat, n: nat, gap: real)
    requires 0.0 <= interval && i + n < |calls|
    requires gap == 0.0 || gap == n as real * interval
    ensures Reservations(last, interval, calls)[i + n] - Reservations(last, interval, calls)[i] >= gap
  {
    ReservationsSpaced(last, interval, calls, i, n);
    assert 0.0 <= n as real * interval;
  }

  lemma SpacedCount(r: seq<real>, n: nat, span: real, t: real)
    requires Sorted(r) && 0.0 <= span
    requires forall i :: 0 <= i < |r| - n ==> r[i + n] - r[i] >= span
    ensures |After(r, t)| - |After(r, t + span)| <= n
  {
    var k := AfterIsSuffix(r, t);
    var m := AfterIsSuffix(r, t + span);
    if k + n < |r| {
      assert t + span < r[k + n];
    }
  }

  // ---- the client ----------------------------------------------------------

  /** The rate state file; `None` stands for a missing or unreadable one. */
  class StateFile {
    var content: Option<Limiter>

    constructor ()
      ensures content == None
    { content := None; }
  }

  /** What one turn makes of the stamps that are left: below the limit the new one joins them; at the
      limit they stay and the caller sleeps until the front one expires. */
  ghost predicate OneTurn(w: seq<real>, after: seq<real>, slot: Outcome<Slot>, limit: int, now: real, stamp: real) {
    && (|w| < limit ==> slot == Ok(Granted) && after == w + [stamp])
    && (|w| >= limit ==> after == w && (w == [] ==> slot == IndexError))
    && (|w| >= limit && w != [] ==> slot.Ok? && slot.value.Sleep? && now + slot.value.seconds == w[0] + HOUR)
  }

  class Client {
    const hourlyLimit: int
    const minInterval: real
    const cooldownSeconds: real
    const file: StateFile?
    var hourlyWindows: map<string, seq<real>>
    var cooldownUntil: real
    var lastRequest: real

    function State(): Limiter
      reads this
    { Limiter(hourlyWindows, cooldownUntil) }

    /** A new process: the pacer starts afresh, the windows and the cooldown come from the file. */
    constructor (perMinute: int, perHour: int, cooldown: real, path: StateFile?, now: real)
      requires perMinute != 0
      ensures State() == Loaded(if path == null then None else path.content, now)
      ensures hourlyLimit == perHour && cooldownSeconds == cooldown && file == path
      ensures minInterval == 60.0 / perMinute as real && lastRequest == 0.0
      ensures State().Valid()
      ensures path == null || path.content.None? ==> hourlyWindows == map[] && cooldownUntil == 0.0
      ensures path != null && path.content.Some? ==> cooldownUntil == path.content.value.cooldownUntil
    {
      hourlyLimit, minInterval, cooldownSeconds, file := perHour, 60.0 / perMinute as real, cooldown, path;
      lastRequest := 0.0;
      var st := Loaded(if path == null then None else path.content, now);
      LoadedIsValid(if path == null then None else path.content, now);
      hourlyWindows, cooldownUntil := st.windows, st.cooldownUntil;
    }

    /** Writes the state file; a write error is swallowed and leaves the old file. */
    method SaveState(now: real, writeOk: bool)
      modifies file
      ensures file != null ==>
        file.content == if writeOk then Some(Saved(State(), now)) else old(file.content)
    {
      if file != null && writeOk { file.content := Some(Saved(State(), now)); }
    }

    /** One turn of the hourly limiter, from taking its lock to releasing it; `k` stamps had expired. */
    method TryHourlySlot(key: string, now: real, stamp: real, saveTime: real, writeOk: bool)
      returns (slot: Outcome<Slot>, ghost k: nat)
      modifies this`hourlyWindows, file
      ensures (State(), slot) == TakeSlot(old(State()), hourlyLimit, key, now, stamp)
      ensures LeadingExpired(old(State()).Window(key), k, now - HOUR)
      ensures OneTurn(old(State()).Window(key)[k..], State().Window(key), slot, hourlyLimit, now, stamp)
      ensures slot.Ok? && slot.value.Sleep? && Sorted(old(State()).Window(key)) ==>
        FirstExpiry(old(State()).Window(key), now, now + slot.value.seconds)
      ensures file != null ==>
        file.content == if slot == Ok(Granted) && writeOk then Some(Saved(State(), saveTime)) else old(file.content)
    {
      var window := if key in hourlyWindows then hourlyWindows[key] else [];
      var cutoff := now - HOUR;
      ghost var w := old(State()).Window(key);
      assert window == w;
      k := 0;
      while window != [] && window[0] <= cutoff
        invariant k <= |w| && window == w[k..] && forall i :: 0 <= i < k ==> w[i] <= cutoff
        invariant Pruned(window, cutoff) == Pruned(w, cutoff)
        decreases |window|
      {
        window := window[1..];
        k := k + 1;
      }
      assert LeadingExpired(w, k, cutoff);
      if k < |w| && Sorted(w) { FirstLeftExpiresFirst(w, k, now); }
      if |window| < hourlyLimit {
        hourlyWindows := hourlyWindows[key := window + [stamp]];
        SaveState(saveTime, writeOk);
        slot := Ok(Granted);
      } else {
        hourlyWindows := hourlyWindows[key := window];
        slot := if window == [] then IndexError else Ok(Sleep(window[0] + HOUR - now));
      }
    }

    /** ComicVine refused: every endpoint pauses. `header` is a Retry-After in delay-seconds form. */
    method StartCooldown(header: Option<nat>, now: real, saveTime: real, writeOk: bool)
      modifies this`cooldownUntil, file
      ensures State() == Cooled(old(State()), now,
        if header.Some? then header.value as real else cooldownSeconds)
      ensures old(cooldownUntil) <= cooldownUntil
      ensures var pause := now + if header.Some? then header.value as real else cooldownSeconds;
              pause <= cooldownUntil && (cooldownUntil == old(cooldownUntil) || cooldownUntil == pause)
      ensures file != null ==>
        file.content == if writeOk then Some(Saved(State(), saveTime)) else old(file.content)
    {
      var seconds := if header.Some? then header.value as real else cooldownSeconds;
      cooldownUntil := MaxReal(cooldownUntil, now + seconds);
      SaveState(saveTime, writeOk);
    }

    /** Reserves the next send time and says how long to sleep until it. */
    method WaitForRateLimit(now: real) returns (wait: real)
      modifies this`lastRequest
      ensures lastRequest == Reserve(old(lastRequest), minInterval, now)
      ensures now + wait == lastRequest && 0.0 <= wait && old(lastRequest) + minInterval <= now + wait
      ensures wait == 0.0 || now + wait == old(lastRequest) + minInterval
    {
      var elapsed := now - lastRequest;
      wait := MaxReal(0.0, minInterval - elapsed);
      lastRequest := now + wait;
    }

    method AskRetryAfter(endpoint: string, now: real) returns (r: Outcome<real>)
      requires State().Valid()
      ensures r == RetryAfter(State(), hourlyLimit, endpoint, now)
      ensures 1 <= hourlyLimit ==> r.Ok? && 0.0 <= r.value
      ensures 1 <= hourlyLimit ==> forall t :: now <= t ==>
        (MayGo(State(), hourlyLimit, EndpointKey(endpoint), t) <==> now + r.value <= t)
    {
      r := RetryAfter(State(), hourlyLimit, endpoint, now);
      if 1 <= hourlyLimit { RetryAfterIsExact(State(), hourlyLimit, endpoint, now); }
    }
  }
}
