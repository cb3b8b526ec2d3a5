/** Serving a search from a broader cached one: entries derived from complete entries, entries derived
    from those, and what all of them are guaranteed to hold. */
module SupersetSearch {
  import opened Upstream
  import opened Wrappers

  /** Cache rows are keyed by normalized query and resources; `query` "" is a NULL column. */
  datatype Key = Key(query: string, resources: string)

  datatype Entry = Entry(results: seq<Item>, total: nat, query: string, resources: string) {
    predicate IsComplete() { |results| >= total }
  }

  /** What ComicVine holds under each resources string. */
  type Catalogue = map<string, set<Item>>

  function Held(cat: Catalogue, resources: string): set<Item> { if resources in cat then cat[resources] else {} }

  // ---- substrings ----------------------------------------------------------

  predicate StartsWith(text: string, part: string) { |part| <= |text| && text[..|part|] == part }

  /** `part in text`. */
  predicate Contains(text: string, part: string) {
    StartsWith(text, part) || (text != "" && Contains(text[1..], part))
  }

  lemma {:induction false} ContainsAt(text: string, part: string) returns (k: nat)
    requires Contains(text, part)
    ensures k + |part| <= |text| && text[k..k + |part|] == part
  {
    if StartsWith(text, part) {
      k := 0;
    } else {
      var j := ContainsAt(text[1..], part);
      k := j + 1;
      assert text[1..][j..j + |part|] == text[k..k + |part|];
    }
  }

  lemma {:induction false} AtIsContained(text: string, part: string, k: nat)
    requires k + |part| <= |text| && text[k..k + |part|] == part
    ensures Contains(text, part)
  {
    if k > 0 {
      assert text[1..][k - 1..k - 1 + |part|] == part;
      AtIsContained(text[1..], part, k - 1);
    }
  }

  lemma ContainsTransitive(a: string, b: string, c: string)
    requires Contains(a, b) && Contains(b, c)
    ensures Contains(a, c)
  {
    var i := ContainsAt(a, b);
    var j := ContainsAt(b, c);
    var inner := a[i..i + |b|];
    assert inner == b && inner[j..j + |c|] == c;
    var part := a[i + j..i + j + |c|];
    forall t | 0 <= t < |c| ensures part[t] == c[t] {
      assert inner[j + t] == inner[j..j + |c|][t];
      assert inner[j + t] == a[i + (j + t)];
    }
    assert part == c;
    AtIsContained(a, c, i + j);
  }

  // ---- candidates ----------------------------------------------------------

  /** The SQL filter: another non-NULL query without LIKE wildcards that is part of this one. */
  predicate Candidate(e: Entry, query: string) {
    && e.query != "" && e.query != query
    && '%' !in e.query && '_' !in e.query
    && Contains(query, e.query)
  }

  predicate Usable(e: Entry, query: string, resources: string) {
    Candidate(e, query) && e.resources == resources && e.IsComplete()
  }

  function Filter(results: seq<Item>, query: string): (r: seq<Item>)
    ensures forall i :: i in r <==> i in results && Contains(i.name, query)
  {
    if results == [] then []
    else if Contains(results[0].name, query) then [results[0]] + Filter(results[1..], query)
    else Filter(results[1..], query)
  }

  /** What is kept is kept in the order of the base, as often as the base has it. */
  lemma {:induction false} FilterInOrder(a: seq<Item>, b: seq<Item>, i: Item, query: string)
    ensures Filter(a + b, query) == Filter(a, query) + Filter(b, query)
    ensures Filter([i], query) == if Contains(i.name, query) then [i] else []
  {
    if a == [] {
      assert a + b == b;
    } else {
      assert (a + b)[0] == a[0] && (a + b)[1..] == a[1..] + b;
      FilterInOrder(a[1..], b, i, query);
    }
  }

  /** A cached search serves another one: it has all its results, asked for the same resources, and its
      query, in which no character is a wildcard, stands at place `i` of the longer one. */
  ghost predicate BroaderAt(e: Entry, i: int, query: string, resources: string) {
    && 0 <= i && i + |e.query| <= |query| && query[i..i + |e.query|] == e.query
    && 0 < |e.query| < |query| && '%' !in e.query && '_' !in e.query
    && e.resources == resources && e.total <= |e.results|
  }

  lemma UsableExactly(e: Entry, query: string, resources: string)
    ensures Usable(e, query, resources) <==> exists i :: BroaderAt(e, i, query, resources)
  {
    if Usable(e, query, resources) {
      var i := ContainsAt(query, e.query);
      assert |e.query| == |query| ==> e.query == query;
      assert BroaderAt(e, i, query, resources);
    } else if i :| BroaderAt(e, i, query, resources) {
      AtIsContained(query, e.query, i);
    }
  }

  predicate DuplicateFree(results: seq<Item>) {
    forall i, j :: 0 <= i < j < |results| && results[i].id != 0 ==> results[i].id != results[j].id
  }

  /** No ID but the missing one, 0, is in the list twice. */
  lemma DuplicateFreeExactly(results: seq<Item>)
    ensures DuplicateFree(results) <==>
      forall i, j :: 0 <= i < |results| && 0 <= j < |results| && results[i].id == results[j].id ==>
        i == j || results[i].id == 0
  {}

  // ---- the promise ---------------------------------------------------------

  /** The entry leaves out no item whose name contains its query. */
  ghost predicate LeavesNothingOut(e: Entry, cat: Catalogue) {
    forall i :: i in Held(cat, e.resources) && Contains(i.name, e.query) ==> i in e.results
  }

  /** Every complete entry with a query leaves nothing out. */
  ghost predicate Sound(entries: map<Key, Entry>, cat: Catalogue) {
    forall k :: k in entries && entries[k].query != "" && entries[k].IsComplete() ==> LeavesNothingOut(entries[k], cat)
  }

  /** Whatever is found stands for the direct search: it leaves nothing out, it holds only items of its
      base that match, and if the base holds only catalogue items it is exactly the matching ones. */
  lemma DerivedRefinesDirect(base: Entry, cat: Catalogue, query: string, resources: string)
    requires Usable(base, query, resources) && LeavesNothingOut(base, cat)
    ensures var results := Filter(base.results, query);
            var derived := Entry(results, |results|, query, resources);
            && derived.IsComplete() && LeavesNothingOut(derived, cat)
            && (forall i :: i in results ==> i in base.results && Contains(i.name, query))
            && ((forall i :: i in base.results ==> i in Held(cat, resources)) ==>
                  forall i :: i in results <==> i in Held(cat, resources) && Contains(i.name, query))
  {
    forall i | i in Held(cat, resources) && Contains(i.name, query) ensures i in base.results {
      ContainsTransitive(i.name, query, base.query);
    }
  }

  class SearchCache {
    var entries: map<Key, Entry>

    constructor ()
      ensures entries == map[]
    { entries := map[]; }

    /** Looks through the cached searches in the order `rows` the database gives them, up to the first
        usable one. */
    method FindSuperset(rows: seq<Key>, query: string, resources: string)
      returns (found: Option<Entry>, ghost base: Key, ghost at: nat)
      requires forall k :: k in entries <==> k in rows
      ensures found.Some? <==> exists k :: k in entries && Usable(entries[k], query, resources)
      ensures found.None? <==> forall k, i :: k in entries ==> !BroaderAt(entries[k], i, query, resources)
      ensures found.Some? ==> base in entries && Usable(entries[base], query, resources)
      ensures found.Some? ==> at < |rows| && rows[at] == base
      ensures found.Some? ==>
        forall i :: 0 <= i < at && rows[i] in entries ==> !Usable(entries[rows[i]], query, resources)
      ensures found.Some? ==>
        var results := Filter(entries[base].results, query);
        found.value == Entry(results, |results|, query, resources)
    {
      found, base, at := None, Key("", ""), 0;
      forall k | k in entries
        ensures Usable(entries[k], query, resources) <==> exists i :: BroaderAt(entries[k], i, query, resources)
      {
        UsableExactly(entries[k], query, resources);
      }
      var i := 0;
      while i < |rows|
        invariant 0 <= i <= |rows|
        invariant forall k :: k in rows[..i] ==> !Usable(entries[k], query, resources)
      {
        var e := entries[rows[i]];
        if Candidate(e, query) && e.resources == resources && !(|e.results| < e.total) {
          var filtered := Filter(e.results, query);
          return Some(Entry(filtered, |filtered|, query, resources)), rows[i], i;
        }
        i := i + 1;
      }
      assert rows[..i] == rows;
    }

    /** A cache miss: derives an entry from a broader search if there is one, and stores it. */
    method ServeFromSuperset(rows: seq<Key>, query: string, resources: string, ghost cat: Catalogue)
      returns (served: Option<Entry>)
      requires Sound(entries, cat) && forall k :: k in entries <==> k in rows
      modifies this
      ensures Sound(entries, cat)
      ensures served.Some? ==> entries == old(entries)[Key(query, resources) := served.value]
      ensures served.Some? ==> served.value.IsComplete() && DuplicateFree(served.value.results)
      ensures served.Some? ==> LeavesNothingOut(served.value, cat)
      ensures served.Some? ==> forall i :: i in served.value.results ==> Contains(i.name, query)
      ensures served.None? ==> entries == old(entries)
      ensures served.None? && (exists k :: k in entries && Usable(entries[k], query, resources)) ==>
        exists k :: k in entries && Usable(entries[k], query, resources)
          && !DuplicateFree(Filter(entries[k].results, query))
    {
      var found, base, _ := FindSuperset(rows, query, resources);
      served := None;
      if found.Some? && DuplicateFree(found.value.results) {
        DerivedRefinesDirect(entries[base], cat, query, resources);
        entries := entries[Key(query, resources) := found.value];
        served := found;
      }
    }

    /** Stores what ComicVine answered. Only its own completeness is ComicVine's promise. */
    method PutDirect(query: string, resources: string, results: seq<Item>, total: nat, ghost cat: Catalogue)
      requires Sound(entries, cat)
      requires query != "" && |results| >= total ==> LeavesNothingOut(Entry(results, total, query, resources), cat)
      modifies this
      ensures Sound(entries, cat)
      ensures entries == old(entries)[Key(query, resources) := Entry(results, total, query, resources)]
    {
      entries := entries[Key(query, resources) := Entry(results, total, query, resources)];
    }

    /** Eviction takes entries away at will. */
    method Evict(keys: set<Key>, ghost cat: Catalogue)
      requires Sound(entries, cat)
      modifies this
      ensures Sound(entries, cat) && entries == old(entries) - keys
    {
      entries := entries - keys;
    }
  }

  // ---- chains of derived entries -------------------------------------------

  datatype Event =
    | Direct(query: string, resources: string, results: seq<Item>, total: nat)
    | Derive(query: string, resources: string, base: Key)
    | Drop(keys: set<Key>)

  ghost predicate Legal(entries: map<Key, Entry>, e: Event, cat: Catalogue) {
    match e
    case Direct(q, r, results, total) =>
      q != "" && |results| >= total ==> LeavesNothingOut(Entry(results, total, q, r), cat)
    case Derive(q, r, base) => base in entries && Usable(entries[base], q, r)
    case Drop(_) => true
  }

  function Step(entries: map<Key, Entry>, e: Event): map<Key, Entry> {
    match e
    case Direct(q, r, results, total) => entries[Key(q, r) := Entry(results, total, q, r)]
    case Derive(q, r, base) =>
      if base in entries then
        var results := Filter(entries[base].results, q);
        entries[Key(q, r) := Entry(results, |results|, q, r)]
      else entries
    case Drop(keys) => entries - keys
  }

  ghost predicate LegalRun(entries: map<Key, Entry>, es: seq<Event>, cat: Catalogue)
    decreases |es|
  {
    es == [] || (Legal(entries, es[0], cat) && LegalRun(Step(entries, es[0]), es[1..], cat))
  }

  function Run(entries: map<Key, Entry>, es: seq<Event>): map<Key, Entry>
    decreases |es|
  {
    if es == [] then entries else Run(Step(entries, es[0]), es[1..])
  }

  /** If every complete answer ComicVine gave leaves nothing out, no derived entry does either, however
      long the chain of derivations behind it. */
  lemma {:induction false} EveryEntryIsSound(entries: map<Key, Entry>, es: seq<Event>, cat: Catalogue)
    requires Sound(entries, cat) && LegalRun(entries, es, cat)
    ensures Sound(Run(entries, es), cat)
    decreases |es|
  {
    if es != [] {
      var e := es[0];
      if e.Derive? { DerivedRefinesDirect(entries[e.base], cat, e.query, e.resources); }
      EveryEntryIsSound(Step(entries, e), es[1..], cat);
    }
  }
}
