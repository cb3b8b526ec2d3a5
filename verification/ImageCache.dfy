/** The image cache: files on disk, an index of them, and requests for the same URL sharing one fetch.
    Each step of the state machine is code between two awaits. */
module ImageCache {
  import opened Wrappers

  newtype byte = b: int | 0 <= b < 256

  datatype Image = Image(data: seq<byte>, contentType: string)

  /** A request's task. `event` names the task whose fetch is waited for. */
  datatype Phase = Fetching(url: string) | Waiting(url: string, event: nat) | Answered(image: Option<Image>) | Failed

  /** `released` are the events that have been set. */
  datatype State = State(files: map<string, seq<byte>>, index: map<string, string>, inFlight: map<string, nat>,
                         released: set<nat>, tasks: map<nat, Phase>)

  /** How a fetch ends; an error may come from writing the image, after its file was written. */
  datatype Outcome = Stored(image: Image) | Nothing | Raised(written: Option<seq<byte>>)

  datatype Event =
    | Ask(t: nat, url: string)
    | Finish(t: nat, url: string, outcome: Outcome)
    | Wake(t: nat)
    | GiveUp(t: nat)                                  // a waiting client disconnects
    | Clean(urls: set<string>, stuck: set<string>)    // expired images; the files of `stuck` cannot be removed
    | LoseFile(url: string)                           // somebody else deletes a file

  predicate Legal(s: State, e: Event) {
    match e
    case Ask(t, _) => t !in s.tasks
    case Finish(t, url, _) => t in s.tasks && s.tasks[t] == Fetching(url)
    case Wake(t) => t in s.tasks && s.tasks[t].Waiting? && s.tasks[t].event in s.released
    case GiveUp(t) => t in s.tasks && s.tasks[t].Waiting?
    case Clean(urls, _) => urls <= s.index.Keys
    case LoseFile(_) => true
  }

  function Cached(s: State, url: string): Option<Image> {
    if url in s.index && url in s.files then Some(Image(s.files[url], s.index[url])) else None
  }

  /** A lookup drops the row of a file that is gone. */
  function LookedUp(s: State, url: string): State {
    if url in s.files then s else s.(index := s.index - {url})
  }

  function Step(s: State, e: Event): State
    requires Legal(s, e)
  {
    match e
    case Ask(t, url) =>
      var s1 := LookedUp(s, url);
      if Cached(s, url).Some? then s1.(tasks := s.tasks[t := Answered(Cached(s, url))])
      else if url in s.inFlight then s1.(tasks := s.tasks[t := Waiting(url, s.inFlight[url])])
      else s1.(tasks := s.tasks[t := Fetching(url)], inFlight := s.inFlight[url := t])
    case Finish(t, url, outcome) =>
      var s1 := s.(inFlight := s.inFlight - {url}, released := s.released + {t});
      (match outcome
       case Stored(image) =>
         s1.(files := s.files[url := image.data], index := s.index[url := image.contentType],
             tasks := s.tasks[t := Answered(Some(image))])
       case Nothing => s1.(tasks := s.tasks[t := Answered(None)])
       case Raised(None) => s1.(tasks := s.tasks[t := Failed])
       case Raised(Some(data)) => s1.(files := s.files[url := data], tasks := s.tasks[t := Failed]))
    case Wake(t) =>
      var url := s.tasks[t].url;
      LookedUp(s, url).(tasks := s.tasks[t := Answered(Cached(s, url))])
    case GiveUp(t) => s.(tasks := s.tasks[t := Failed])
    case Clean(urls, stuck) => s.(files := s.files - (urls - stuck), index := s.index - urls)
    case LoseFile(url) => s.(files := s.files - {url})
  }

  // ---- the protocol --------------------------------------------------------

  ghost predicate Inv(s: State) {
    && (forall url :: url in s.inFlight ==>
          url !in s.index && s.inFlight[url] in s.tasks && s.tasks[s.inFlight[url]] == Fetching(url))
    && (forall t :: t in s.tasks ==> TaskOk(s, t))
    && s.released <= s.tasks.Keys
  }

  ghost predicate TaskOk(s: State, t: nat)
    requires t in s.tasks
  {
    match s.tasks[t]
    case Fetching(url) => url in s.inFlight && s.inFlight[url] == t && t !in s.released
    case Waiting(url, event) => event in s.released || (url in s.inFlight && s.inFlight[url] == event)
    case _ => true
  }

  lemma LookupKeepsInv(s: State, url: string)
    requires Inv(s)
    ensures Inv(LookedUp(s, url))
  {
    var s' := LookedUp(s, url);
    forall u | u in s'.tasks ensures TaskOk(s', u) { assert TaskOk(s, u); }
  }

  /** A new task that is answered, or waits for the fetch in flight. */
  lemma NewTaskKeepsInv(s: State, t: nat, p: Phase)
    requires Inv(s) && t !in s.tasks && !p.Fetching?
    requires p.Waiting? ==> p.url in s.inFlight && s.inFlight[p.url] == p.event
    ensures Inv(s.(tasks := s.tasks[t := p]))
  {
    var s' := s.(tasks := s.tasks[t := p]);
    forall u | u in s'.tasks ensures TaskOk(s', u) { assert u in s.tasks ==> TaskOk(s, u); }
  }

  lemma NewFetchKeepsInv(s: State, t: nat, url: string)
    requires Inv(s) && t !in s.tasks && url !in s.inFlight && url !in s.index
    ensures Inv(s.(tasks := s.tasks[t := Fetching(url)], inFlight := s.inFlight[url := t]))
  {
    var s' := s.(tasks := s.tasks[t := Fetching(url)], inFlight := s.inFlight[url := t]);
    forall u | u in s'.tasks ensures TaskOk(s', u) { assert u in s.tasks ==> TaskOk(s, u); }
  }

  lemma AskKeepsInv(s: State, t: nat, url: string)
    requires Inv(s) && Legal(s, Ask(t, url))
    ensures Inv(Step(s, Ask(t, url)))
  {
    var s1 := LookedUp(s, url);
    LookupKeepsInv(s, url);
    if Cached(s, url).Some? {
      NewTaskKeepsInv(s1, t, Answered(Cached(s, url)));
    } else if url in s.inFlight {
      NewTaskKeepsInv(s1, t, Waiting(url, s.inFlight[url]));
    } else {
      NewFetchKeepsInv(s1, t, url);
    }
  }

  lemma FinishKeepsInv(s: State, t: nat, url: string, outcome: Outcome)
    requires Inv(s) && Legal(s, Finish(t, url, outcome))
    ensures Inv(Step(s, Finish(t, url, outcome)))
  {
    var s' := Step(s, Finish(t, url, outcome));
    assert TaskOk(s, t);
    forall u | u in s'.tasks ensures TaskOk(s', u) { assert TaskOk(s, u); }
  }

  lemma OtherStepKeepsInv(s: State, e: Event)
    requires Inv(s) && Legal(s, e) && !e.Ask? && !e.Finish?
    ensures Inv(Step(s, e))
  {
    var s' := Step(s, e);
    forall u | u in s'.tasks ensures TaskOk(s', u) { assert TaskOk(s, u); }
  }

  lemma StepKeepsInv(s: State, e: Event)
    requires Inv(s) && Legal(s, e)
    ensures Inv(Step(s, e))
  {
    match e
    case Ask(t, url) => AskKeepsInv(s, t, url);
    case Finish(t, url, outcome) => FinishKeepsInv(s, t, url, outcome);
    case _ => OtherStepKeepsInv(s, e);
  }

  /** A process starts, with whatever earlier ones left on disk. */
  predicate Initial(s: State) { s.inFlight == map[] && s.tasks == map[] && s.released == {} }

  ghost predicate LegalRun(s: State, es: seq<Event>)
    decreases |es|, 0
  {
    es == [] || (LegalRun(s, es[..|es| - 1]) && Legal(Run(s, es[..|es| - 1]), es[|es| - 1]))
  }

  ghost function Run(s: State, es: seq<Event>): State
    requires LegalRun(s, es)
    decreases |es|, 1
  {
    if es == [] then s else Step(Run(s, es[..|es| - 1]), es[|es| - 1])
  }

  lemma {:induction false} RunKeepsInv(s: State, es: seq<Event>)
    requires Inv(s) && LegalRun(s, es)
    ensures Inv(Run(s, es))
  {
    if es != [] {
      RunKeepsInv(s, es[..|es| - 1]);
      StepKeepsInv(Run(s, es[..|es| - 1]), es[|es| - 1]);
    }
  }

  /** In every interleaving a URL is marked in flight exactly while a task fetches it; no two tasks fetch
      the same URL, and whoever waits for a fetch that is over has been released. */
  lemma InFlightExactly(s: State, es: seq<Event>, url: string, t: nat, u: nat)
    requires Initial(s) && LegalRun(s, es)
    ensures var s' := Run(s, es);
            && (url in s'.inFlight <==> exists f :: f in s'.tasks && s'.tasks[f] == Fetching(url))
            && (t in s'.tasks && u in s'.tasks && s'.tasks[t] == s'.tasks[u] == Fetching(url) ==> t == u)
            && (t in s'.tasks && s'.tasks[t].Waiting? && s'.tasks[t].event !in s'.released ==>
                  var f := s'.tasks[t].event; f in s'.tasks && s'.tasks[f] == Fetching(s'.tasks[t].url))
  {
    RunKeepsInv(s, es);
    var s' := Run(s, es);
    assert t in s'.tasks ==> TaskOk(s', t);
    assert u in s'.tasks ==> TaskOk(s', u);
    if f :| f in s'.tasks && s'.tasks[f] == Fetching(url) { assert TaskOk(s', f); }
  }

  // ---- everyone is answered ------------------------------------------------

  ghost predicate Over(p: Phase) { p.Answered? || p.Failed? }

  ghost function Pending(s: State): set<nat> { set t | t in s.tasks && !Over(s.tasks[t]) }

  /** While a request is pending some request can go on, and whenever one does, it is over. */
  lemma SomeoneCanGoOn(s: State)
    requires Inv(s) && Pending(s) != {}
    ensures exists t :: t in Pending(s) && (Legal(s, Wake(t)) || exists url :: Legal(s, Finish(t, url, Nothing)))
  {
    var t :| t in Pending(s);
    assert TaskOk(s, t);
    var f := if s.tasks[t].Waiting? && s.tasks[t].event !in s.released then s.tasks[t].event else t;
    if s.tasks[f].Fetching? {
      assert Legal(s, Finish(f, s.tasks[f].url, Nothing));
    } else {
      assert Legal(s, Wake(f));
    }
    assert f in Pending(s);
  }

  lemma GoingOnEnds(s: State, e: Event)
    requires Legal(s, e) && (e.Finish? || e.Wake? || e.GiveUp?)
    ensures e.t in Pending(s) && Pending(Step(s, e)) == Pending(s) - {e.t}
  {}

  /** However the pending requests go on, all of them are over after as many steps as there were. */
  lemma {:induction false} EveryoneIsAnswered(s: State, es: seq<Event>)
    requires Inv(s) && LegalRun(s, es) && forall i :: 0 <= i < |es| ==> es[i].Finish? || es[i].Wake? || es[i].GiveUp?
    ensures |Pending(Run(s, es))| == |Pending(s)| - |es|
  {
    if es != [] {
      EveryoneIsAnswered(s, es[..|es| - 1]);
      GoingOnEnds(Run(s, es[..|es| - 1]), es[|es| - 1]);
    }
  }

  // ---- what is read --------------------------------------------------------

  /** The image last stored for `url`, unless it was removed since; `at` is what was there at first. */
  function LastStored(at: Option<Image>, es: seq<Event>, url: string): Option<Image> {
    if es == [] then at else After(LastStored(at, es[..|es| - 1], url), es[|es| - 1], url)
  }

  function After(before: Option<Image>, e: Event, url: string): Option<Image> {
    match e
    case Finish(_, u, Stored(image)) => if u == url then Some(image) else before
    case Clean(urls, _) => if url in urls then None else before
    case LoseFile(u) => if u == url then None else before
    case _ => before
  }

  lemma CachedAfter(s: State, e: Event, url: string)
    requires Inv(s) && Legal(s, e)
    ensures Cached(Step(s, e), url) == After(Cached(s, url), e, url)
  {
    if e.Finish? { assert TaskOk(s, e.t); }
  }

  lemma {:induction false} CachedIsLastStored(s: State, es: seq<Event>, url: string)
    requires Inv(s) && LegalRun(s, es)
    ensures Cached(Run(s, es), url) == LastStored(Cached(s, url), es, url)
  {
    if es != [] {
      CachedIsLastStored(s, es[..|es| - 1], url);
      RunKeepsInv(s, es[..|es| - 1]);
      CachedAfter(Run(s, es[..|es| - 1]), es[|es| - 1], url);
    }
  }

  /** Every request that is answered, from disk, from its own fetch or after waiting, gets the image
      stored last and not removed since. */
  lemma AnswersAreLastStored(s: State, es: seq<Event>, e: Event, t: nat, url: string)
    requires Inv(s) && LegalRun(s, es + [e])
    requires || e == Ask(t, url) || (e.Finish? && e.t == t && e.url == url)
             || (e == Wake(t) && LegalRun(s, es) && Run(s, es).tasks[t].url == url)
    ensures var s' := Run(s, es + [e]);
            s'.tasks[t].Answered? ==> s'.tasks[t].image == LastStored(Cached(s, url), es + [e], url)
  {
    assert (es + [e])[..|es|] == es;
    CachedIsLastStored(s, es, url);
    CachedIsLastStored(s, es + [e], url);
    RunKeepsInv(s, es);
  }

  predicate Removes(e: Event, url: string) {
    (e.Clean? && url in e.urls) || e == LoseFile(url)
  }

  predicate Stores(e: Event, url: string) { e.Finish? && e.url == url && e.outcome.Stored? }

  lemma {:induction false} StaysStored(s: State, es: seq<Event>, url: string)
    requires Inv(s) && LegalRun(s, es) && Cached(s, url).Some? && url !in s.inFlight
    requires forall i :: 0 <= i < |es| ==> !Removes(es[i], url)
    ensures Cached(Run(s, es), url) == Cached(s, url) && url !in Run(s, es).inFlight
  {
    if es != [] {
      var e, before := es[|es| - 1], Run(s, es[..|es| - 1]);
      StaysStored(s, es[..|es| - 1], url);
      RunKeepsInv(s, es[..|es| - 1]);
      CachedAfter(before, e, url);
      if e.Finish? { assert TaskOk(before, e.t); }
    }
  }

  /** Whoever still waits for a fetch that succeeded reads exactly its image, however much happens
      before, unless the image is removed first. */
  lemma WaitersReadTheFetch(s: State, f: nat, url: string, image: Image, es: seq<Event>, t: nat)
    requires Inv(s) && Legal(s, Finish(f, url, Stored(image))) && t in s.tasks && s.tasks[t] == Waiting(url, f)
    requires var s1 := Step(s, Finish(f, url, Stored(image)));
             LegalRun(s1, es) && t in Run(s1, es).tasks && Run(s1, es).tasks[t] == Waiting(url, f)
    requires forall i :: 0 <= i < |es| ==> !Removes(es[i], url)
    ensures var s2 := Run(Step(s, Finish(f, url, Stored(image))), es);
            Legal(s2, Wake(t)) && Step(s2, Wake(t)).tasks[t] == Answered(Some(image))
  {
    var s1 := Step(s, Finish(f, url, Stored(image)));
    StepKeepsInv(s, Finish(f, url, Stored(image)));
    StaysStored(s1, es, url);
    RunKeepsInv(s1, es);
    assert TaskOk(Run(s1, es), t);
    assert url !in Run(s1, es).inFlight;
  }

  function CountStores(es: seq<Event>, url: string): nat {
    if es == [] then 0 else CountStores(es[..|es| - 1], url) + if Stores(es[|es| - 1], url) then 1 else 0
  }

  function CountRemovals(es: seq<Event>, url: string): nat {
    if es == [] then 0 else CountRemovals(es[..|es| - 1], url) + if Removes(es[|es| - 1], url) then 1 else 0
  }

  /** However many clients ask, an image is fetched and stored once, and once more at most each time it
      was removed. */
  lemma {:induction false} FetchedOnce(s: State, es: seq<Event>, url: string)
    requires Inv(s) && LegalRun(s, es)
    ensures CountStores(es, url) + (if Cached(s, url).Some? then 1 else 0)
            <= CountRemovals(es, url) + if Cached(Run(s, es), url).Some? then 1 else 0
  {
    if es != [] {
      var e, before := es[|es| - 1], Run(s, es[..|es| - 1]);
      FetchedOnce(s, es[..|es| - 1], url);
      RunKeepsInv(s, es[..|es| - 1]);
      CachedAfter(before, e, url);
      if Stores(e, url) { assert TaskOk(before, e.t); }
    }
  }

  // ---- the code ------------------------------------------------------------

  datatype Reply = Hit(image: Image) | WaitFor(event: nat) | Fetch

  class Cache {
    var files: map<string, seq<byte>>
    var index: map<string, string>
    var inFlight: map<string, nat>
    var released: set<nat>
    ghost var tasks: map<nat, Phase>

    ghost function Now(): State
      reads this
    { State(files, index, inFlight, released, tasks) }

    constructor (onDisk: map<string, seq<byte>>, rows: map<string, string>)
      ensures Initial(Now()) && files == onDisk && index == rows
    { files, index, inFlight, released, tasks := onDisk, rows, map[], {}, map[]; }

    method Lookup(url: string) returns (image: Option<Image>)
      modifies this`index
      ensures Now() == LookedUp(old(Now()), url) && image == Cached(old(Now()), url)
      ensures image.Some? <==> url in old(index) && url in files
      ensures image.Some? ==> image.value == Image(files[url], old(index)[url])
      ensures index == if url in files then old(index) else old(index) - {url}
    {
      if url !in index { return None; }
      if url !in files {
        index := index - {url};
        return None;
      }
      image := Some(Image(files[url], index[url]));
    }

    method Store(url: string, image: Image)
      modifies this`files, this`index
      ensures files == old(files)[url := image.data] && index == old(index)[url := image.contentType]
    {
      files := files[url := image.data];
      index := index[url := image.contentType];
    }

    /** Up to the first await: the image is there, somebody is fetching it, or this task fetches it. */
    method GetOrFetch(t: nat, url: string) returns (r: Reply)
      requires Legal(Now(), Ask(t, url))
      modifies this
      ensures Now() == Step(old(Now()), Ask(t, url))
      ensures r.Fetch? <==> tasks[t] == Fetching(url)
      ensures r.WaitFor? ==> tasks[t] == Waiting(url, r.event)
      ensures r.Hit? ==> tasks[t] == Answered(Some(r.image))
      ensures r.Hit? <==> url in old(index) && url in files
      ensures r.Hit? ==> r.image == Image(files[url], old(index)[url])
      ensures r.WaitFor? <==> !r.Hit? && url in old(inFlight)
      ensures r.WaitFor? ==> r.event == old(inFlight)[url]
      ensures inFlight == if r.Fetch? then old(inFlight)[url := t] else old(inFlight)
      ensures files == old(files) && released == old(released)
      ensures index == if url in files then old(index) else old(index) - {url}
    {
      var cached := Lookup(url);
      if cached.Some? {
        tasks := tasks[t := Answered(cached)];
        return Hit(cached.value);
      }
      if url in inFlight {
        tasks := tasks[t := Waiting(url, inFlight[url])];
        return WaitFor(inFlight[url]);
      }
      inFlight := inFlight[url := t];
      tasks := tasks[t := Fetching(url)];
      r := Fetch;
    }

    /** The fetch is over; the marker goes and the waiters are released in every case. */
    method FinishFetch(t: nat, url: string, outcome: Outcome) returns (image: Option<Image>)
      requires Legal(Now(), Finish(t, url, outcome))
      modifies this
      ensures Now() == Step(old(Now()), Finish(t, url, outcome))
      ensures !outcome.Raised? ==> tasks[t] == Answered(image)
      ensures url !in inFlight && t in released
      ensures inFlight == old(inFlight) - {url} && released == old(released) + {t}
      ensures outcome.Stored? ==>
        && image == Some(outcome.image) && files == old(files)[url := outcome.image.data]
        && index == old(index)[url := outcome.image.contentType]
      ensures !outcome.Stored? ==> image == None && index == old(index)
      ensures outcome.Raised? ==> tasks[t] == Failed
      ensures outcome.Nothing? || outcome == Raised(None) ==> files == old(files)
      ensures outcome.Raised? && outcome.written.Some? ==> files == old(files)[url := outcome.written.value]
    {
      image := None;
      match outcome {
        case Stored(fetched) =>
          Store(url, fetched);
          image := Some(fetched);
        case Nothing =>
        case Raised(None) =>
        case Raised(Some(data)) => files := files[url := data];
      }
      tasks := tasks[t := if outcome.Raised? then Failed else Answered(image)];
      inFlight, released := inFlight - {url}, released + {t};
    }

    /** A waiter goes on and reads the cache. */
    method WakeUp(t: nat, url: string) returns (image: Option<Image>)
      requires Legal(Now(), Wake(t)) && tasks[t].url == url
      modifies this
      ensures Now() == Step(old(Now()), Wake(t)) && tasks[t] == Answered(image)
      ensures image.Some? <==> url in old(index) && url in files
      ensures image.Some? ==> image.value == Image(files[url], old(index)[url])
      ensures files == old(files) && inFlight == old(inFlight) && released == old(released)
    {
      image := Lookup(url);
      tasks := tasks[t := Answered(image)];
    }

    /** Removes the expired images, files first; a file that cannot be removed loses its row all the same. */
    method CleanupExpired(expired: seq<string>, stuck: set<string>) returns (removed: nat)
      requires Legal(Now(), Clean((set u | u in expired), stuck))
      modifies this
      ensures Now() == Step(old(Now()), Clean((set u | u in expired), stuck)) && removed == |expired|
      ensures forall u :: u in files <==> u in old(files) && (u !in expired || u in stuck)
      ensures forall u :: u in files ==> files[u] == old(files)[u]
      ensures forall u :: u in index <==> u in old(index) && u !in expired
      ensures forall u :: u in index ==> index[u] == old(index)[u]
    {
      removed := 0;
      while removed < |expired|
        invariant removed <= |expired|
        invariant files == old(files) - ((set u | u in expired[..removed]) - stuck)
        modifies this`files
      {
        var url := expired[removed];
        ghost var before := set u | u in expired[..removed];
        if url !in stuck { files := files - {url}; }
        removed := removed + 1;
        assert (set u | u in expired[..removed]) == before + {url};
      }
      assert expired[..removed] == expired;
      index := index - set u | u in expired;
    }
  }
}
