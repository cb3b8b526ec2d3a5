/** The publisher allowlist and blocklist: three tables, the sets kept in memory, and the volumes that
    are remembered as blocked after their rows are gone. */
module Publishers {
  import opened Wrappers

  datatype Which = Allow | Block

  /** `lists` is publisher_list, `remembered` is blocked_volume, `volumes` maps stored volumes to their
      publisher. */
  datatype Tables = Tables(lists: map<nat, Which>, remembered: map<nat, nat>, volumes: map<nat, Option<nat>>) {
    function On(which: Which): set<nat> { set p | p in lists && lists[p] == which }
  }

  /** INSERT OR IGNORE of every stored volume of a publisher in `ps`. */
  function RememberStored(t: Tables, ps: set<nat>): map<nat, nat> {
    (map v | v in t.volumes && t.volumes[v].Some? && t.volumes[v].value in ps :: t.volumes[v].value) + t.remembered
  }

  /** Puts a publisher on a list, or takes it off both. */
  function PutOnList(t: Tables, p: nat, which: Option<Which>): Tables {
    var forgot := t.(remembered := map v | v in t.remembered && t.remembered[v] != p :: t.remembered[v]);
    match which
    case None => forgot.(lists := t.lists - {p})
    case Some(Allow) => forgot.(lists := t.lists[p := Allow])
    case Some(Block) => forgot.(lists := t.lists[p := Block], remembered := RememberStored(forgot, {p}))
  }

  function PutAll(t: Tables, ps: seq<nat>, which: Option<Which>): Tables {
    if ps == [] then t else PutOnList(PutAll(t, ps[..|ps| - 1], which), ps[|ps| - 1], which)
  }

  // ---- what the tables keep ------------------------------------------------

  /** Every remembered volume is remembered for a blocked publisher. */
  ghost predicate OnlyBlocked(t: Tables) {
    forall v :: v in t.remembered ==> t.remembered[v] in t.On(Block)
  }

  /** Every stored volume of a blocked publisher is remembered. */
  ghost predicate AllRemembered(t: Tables) {
    forall v :: v in t.volumes && t.volumes[v].Some? && t.volumes[v].value in t.On(Block) ==> v in t.remembered
  }

  /** Volumes keep the publisher `home` gives them. */
  ghost predicate AtHome(t: Tables, home: nat -> Option<nat>) {
    && (forall v :: v in t.volumes ==> t.volumes[v] == home(v))
    && (forall v :: v in t.remembered ==> Some(t.remembered[v]) == home(v))
  }

  lemma PutKeepsOnlyBlocked(t: Tables, p: nat, which: Option<Which>)
    requires OnlyBlocked(t)
    ensures OnlyBlocked(PutOnList(t, p, which))
  {
    var t' := PutOnList(t, p, which);
    forall v | v in t'.remembered ensures t'.remembered[v] in t'.On(Block) {
      if v in t.remembered { assert t.remembered[v] in t.On(Block); }
    }
  }

  /** Putting `p` on or off a list forgets what was remembered for it. All stored volumes of blocked
      publishers stay remembered exactly if none of another blocked publisher was remembered for `p`. */
  lemma PutKeepsAllRememberedExactly(t: Tables, p: nat, which: Option<Which>)
    requires AllRemembered(t)
    ensures AllRemembered(PutOnList(t, p, which)) <==>
      forall v ::
        (v in t.volumes && t.volumes[v].Some? && t.volumes[v].value in t.On(Block) && t.volumes[v].value != p ==>
           t.remembered[v] != p)
  {
    var t' := PutOnList(t, p, which);
    forall q | q != p ensures q in t'.On(Block) <==> q in t.On(Block) {}
    assert p in t'.On(Block) <==> which == Some(Block);
  }

  /** A volume that moved to a blocked publisher upstream, and whose old publisher is blocked later, is
      forgotten when the first is unblocked: the list then misses a stored volume. */
  lemma MovedVolumeIsForgotten()
    ensures var stored := Tables(map[], map[], map[7 := Some(1)]);
            var block2 := PutOnList(stored, 2, Some(Block));
            var moved := Upserted(block2, 7, Some(2));
            var block1 := PutOnList(moved, 1, Some(Block));
            AllRemembered(block1) && !AllRemembered(PutOnList(block1, 2, None))
  {
    var stored := Tables(map[], map[], map[7 := Some(1)]);
    var block2 := PutOnList(stored, 2, Some(Block));
    assert 2 in block2.On(Block) && block2.remembered == map[];
    var moved := Upserted(block2, 7, Some(2));
    assert moved.remembered == map[7 := 2];
    var block1 := PutOnList(moved, 1, Some(Block));
    var after := PutOnList(block1, 2, None);
    assert 1 in after.On(Block) && 7 in after.volumes && 7 !in after.remembered;
  }

  /** An upserted volume: ignored if remembered, remembered if its publisher is blocked, else stored. */
  function Upserted(t: Tables, v: nat, publisher: Option<nat>): Tables {
    if v in t.remembered then t
    else if publisher.Some? && publisher.value in t.On(Block) then t.(remembered := t.remembered[v := publisher.value])
    else t.(volumes := t.volumes[v := publisher])
  }

  /** Nothing a stored volume needs is missing, for volumes that stay with their publisher. */
  ghost predicate Complete(t: Tables, home: nat -> Option<nat>) {
    AllRemembered(t) && AtHome(t, home)
  }

  lemma PutKeepsComplete(t: Tables, p: nat, which: Option<Which>, home: nat -> Option<nat>)
    requires Complete(t, home)
    ensures Complete(PutOnList(t, p, which), home)
  {
    PutKeepsAllRememberedExactly(t, p, which);
  }

  lemma {:induction false} PutAllLists(t: Tables, ps: seq<nat>, which: Option<Which>, q: nat)
    ensures var t' := PutAll(t, ps, which);
            && t'.volumes == t.volumes
            && (q !in ps ==> (q in t'.lists <==> q in t.lists) && (q in t.lists ==> t'.lists[q] == t.lists[q]))
            && (q in ps ==> if which.None? then q !in t'.lists else q in t'.lists && t'.lists[q] == which.value)
  {
    if ps != [] { PutAllLists(t, ps[..|ps| - 1], which, q); }
  }

  /** After an import every named publisher is on the list, and after a replacement nobody else is; no
      publisher that was on neither is touched. */
  ghost predicate ImportedLists(t: Tables, t': Tables, entries: seq<nat>, which: Which, replace: bool) {
    && (forall p :: p in t'.On(which) <==> p in entries || (!replace && p in t.On(which)))
    && (forall p :: p !in entries && p !in t.On(which) ==>
          (p in t'.lists <==> p in t.lists) && (p in t'.lists ==> t'.lists[p] == t.lists[p]))
  }

  lemma ImportIsLists(t: Tables, off: seq<nat>, entries: seq<nat>, which: Which, replace: bool)
    requires forall p :: p in off <==> replace && p in t.On(which) && p !in entries
    ensures ImportedLists(t, Changed(t, Import(which, entries, off)), entries, which, replace)
  {
    var t' := Changed(t, Import(which, entries, off));
    forall p
      ensures p in t'.On(which) <==> p in entries || (!replace && p in t.On(which))
      ensures p !in entries && p !in t.On(which) ==>
        (p in t'.lists <==> p in t.lists) && (p in t'.lists ==> t'.lists[p] == t.lists[p])
    {
      PutAllLists(t, off, None, p);
      PutAllLists(PutAll(t, off, None), entries, Some(which), p);
    }
  }

  /** What an import does to the remembered volumes. One that was not remembered is now exactly if it is
      stored for a blocked publisher of the file. Allowing the publishers of the file forgets their
      volumes. Nothing else is touched, but for the publishers a replacement takes off. */
  ghost predicate ImportedMemory(t: Tables, t': Tables, entries: seq<nat>, which: Which, replace: bool) {
    t'.volumes == t.volumes && forall v :: ImportedVolume(t, t', entries, which, replace, v)
  }

  ghost predicate ImportedVolume(t: Tables, t': Tables, entries: seq<nat>, which: Which, replace: bool, v: nat) {
    && (v !in t.remembered ==>
          (v in t'.remembered <==>
             which == Block && v in t.volumes && t.volumes[v].Some? && t.volumes[v].value in entries))
    && (v !in t.remembered && v in t'.remembered ==> Some(t'.remembered[v]) == t.volumes[v])
    && (which == Allow && v in t.remembered && t.remembered[v] in entries ==> v !in t'.remembered)
    && ((which == Allow || !replace) && v in t.remembered && t.remembered[v] !in entries ==>
          v in t'.remembered && t'.remembered[v] == t.remembered[v])
  }

  lemma ImportIsMemory(t: Tables, off: seq<nat>, entries: seq<nat>, which: Which, replace: bool)
    requires OnlyBlocked(t) && forall p :: p in off ==> replace && p in t.On(which)
    ensures ImportedMemory(t, Changed(t, Import(which, entries, off)), entries, which, replace)
  {
    var t' := Changed(t, Import(which, entries, off));
    PutAllRemembered(t, off, None, 0);
    PutAllRemembered(PutAll(t, off, None), entries, Some(which), 0);
    forall v ensures ImportedVolume(t, t', entries, which, replace, v) {
      assert v in t.remembered ==> t.remembered[v] in t.On(Block);
      PutAllRemembered(t, off, None, v);
      PutAllRemembered(PutAll(t, off, None), entries, Some(which), v);
    }
  }

  lemma ImportIs(t: Tables, off: seq<nat>, entries: seq<nat>, which: Which, replace: bool)
    requires OnlyBlocked(t) && forall p :: p in off <==> replace && p in t.On(which) && p !in entries
    ensures var t' := Changed(t, Import(which, entries, off));
            ImportedLists(t, t', entries, which, replace) && ImportedMemory(t, t', entries, which, replace)
  {
    ImportIsLists(t, off, entries, which, replace);
    ImportIsMemory(t, off, entries, which, replace);
  }

  /** The first fill: a publisher that is already listed keeps its list, and one named twice is allowed. */
  function Seeded(t: Tables, allow: set<nat>, block: set<nat>): Tables {
    var listed := t.(lists := (map p | p in block :: Block) + (map p | p in allow :: Allow) + t.lists);
    listed.(remembered := RememberStored(listed, listed.On(Block)))
  }

  lemma SeedKeeps(t: Tables, allow: set<nat>, block: set<nat>, home: nat -> Option<nat>)
    requires OnlyBlocked(t)
    ensures var t' := Seeded(t, allow, block);
            && OnlyBlocked(t') && AllRemembered(t')
            && (AtHome(t, home) ==> Complete(t', home))
  {
    var t' := Seeded(t, allow, block);
    forall v | v in t'.remembered ensures t'.remembered[v] in t'.On(Block) {
      if v in t.remembered { assert t.remembered[v] in t.On(Block); }
    }
  }

  /** What putting the publishers `ps` on a list, or taking them off, does to one remembered volume. One
      remembered for another publisher stays as it is. Otherwise it is forgotten, or remembered for the
      publisher it is stored with if that one is blocked now. (For a volume remembered for one of `ps` and
      stored with another the order matters, and this says nothing.) */
  ghost predicate RemembersNow(t: Tables, t': Tables, ps: seq<nat>, which: Option<Which>, v: nat) {
    && t'.volumes == t.volumes
    && (v in t.remembered && t.remembered[v] !in ps ==>
          v in t'.remembered && t'.remembered[v] == t.remembered[v])
    && (v in t.remembered && t.remembered[v] in ps && which != Some(Block) ==> v !in t'.remembered)
    && (v !in t.remembered || (t.remembered[v] in ps && (v in t.volumes ==> t.volumes[v] == Some(t.remembered[v]))) ==>
          if which == Some(Block) && v in t.volumes && t.volumes[v].Some? && t.volumes[v].value in ps
          then v in t'.remembered && t'.remembered[v] == t.volumes[v].value
          else v !in t'.remembered)
  }

  lemma PutRemembers(t: Tables, p: nat, which: Option<Which>, v: nat)
    ensures RemembersNow(t, PutOnList(t, p, which), [p], which, v)
  {}

  lemma RemembersInTurn(t: Tables, t1: Tables, t2: Tables, ps: seq<nat>, p: nat, which: Option<Which>, v: nat)
    requires RemembersNow(t, t1, ps, which, v) && RemembersNow(t1, t2, [p], which, v)
    ensures RemembersNow(t, t2, ps + [p], which, v)
  {}

  lemma {:induction false} PutAllRemembered(t: Tables, ps: seq<nat>, which: Option<Which>, v: nat)
    ensures RemembersNow(t, PutAll(t, ps, which), ps, which, v)
  {
    if ps != [] {
      var init, p := ps[..|ps| - 1], ps[|ps| - 1];
      PutAllRemembered(t, init, which, v);
      PutRemembers(PutAll(t, init, which), p, which, v);
      RemembersInTurn(t, PutAll(t, init, which), PutAll(t, ps, which), init, p, which, v);
      assert ps == init + [p];
    }
  }

  // ---- whole histories -----------------------------------------------------

  datatype Change =
    | Put(p: nat, which: Option<Which>)
    | Import(list: Which, entries: seq<nat>, off: seq<nat>)
    | Seed(allow: set<nat>, block: set<nat>)
    | Upsert(v: nat, publisher: Option<nat>)
    | Delete(vs: set<nat>)

  function Changed(t: Tables, c: Change): Tables {
    match c
    case Put(p, which) => PutOnList(t, p, which)
    case Import(list, entries, off) => PutAll(PutAll(t, off, None), entries, Some(list))
    case Seed(allow, block) => Seeded(t, allow, block)
    case Upsert(v, publisher) => Upserted(t, v, publisher)
    case Delete(vs) => t.(volumes := t.volumes - vs)
  }

  function ChangedBy(t: Tables, cs: seq<Change>): Tables {
    if cs == [] then t else Changed(ChangedBy(t, cs[..|cs| - 1]), cs[|cs| - 1])
  }

  /** Upstream answers name the publisher `home` gives. */
  ghost predicate NobodyMoves(cs: seq<Change>, home: nat -> Option<nat>) {
    forall i :: 0 <= i < |cs| && cs[i].Upsert? ==> cs[i].publisher == home(cs[i].v)
  }

  lemma {:induction false} PutAllKeeps(t: Tables, ps: seq<nat>, which: Option<Which>, home: nat -> Option<nat>)
    requires OnlyBlocked(t)
    ensures OnlyBlocked(PutAll(t, ps, which))
    ensures Complete(t, home) ==> Complete(PutAll(t, ps, which), home)
  {
    if ps != [] {
      PutAllKeeps(t, ps[..|ps| - 1], which, home);
      var t' := PutAll(t, ps[..|ps| - 1], which);
      PutKeepsOnlyBlocked(t', ps[|ps| - 1], which);
      if Complete(t', home) { PutKeepsComplete(t', ps[|ps| - 1], which, home); }
    }
  }

  lemma UpsertKeeps(t: Tables, v: nat, publisher: Option<nat>, home: nat -> Option<nat>)
    requires OnlyBlocked(t)
    ensures OnlyBlocked(Upserted(t, v, publisher))
    ensures Complete(t, home) && publisher == home(v) ==> Complete(Upserted(t, v, publisher), home)
  {
    assert Upserted(t, v, publisher).On(Block) == t.On(Block);
  }

  lemma DeleteKeeps(t: Tables, vs: set<nat>, home: nat -> Option<nat>)
    requires OnlyBlocked(t)
    ensures var t' := t.(volumes := t.volumes - vs);
            OnlyBlocked(t') && (Complete(t, home) ==> Complete(t', home))
  {
    assert t.(volumes := t.volumes - vs).On(Block) == t.On(Block);
  }

  lemma ChangeKeeps(t: Tables, c: Change, home: nat -> Option<nat>)
    requires OnlyBlocked(t)
    ensures OnlyBlocked(Changed(t, c))
    ensures Complete(t, home) && (c.Upsert? ==> c.publisher == home(c.v)) ==> Complete(Changed(t, c), home)
  {
    match c
    case Put(p, which) =>
      PutKeepsOnlyBlocked(t, p, which);
      if Complete(t, home) { PutKeepsComplete(t, p, which, home); }
    case Import(list, entries, off) =>
      PutAllKeeps(t, off, None, home);
      PutAllKeeps(PutAll(t, off, None), entries, Some(list), home);
    case Seed(allow, block) => SeedKeeps(t, allow, block, home);
    case Upsert(v, publisher) => UpsertKeeps(t, v, publisher, home);
    case Delete(vs) => DeleteKeeps(t, vs, home);
  }

  /** After every sequence of list edits, imports, seeds, upserts and deletions, whatever is remembered is
      remembered for a blocked publisher; and if no volume ever changes its publisher, every stored
      volume of a blocked publisher is remembered. */
  lemma {:induction false} ListsHoldOverHistories(t: Tables, cs: seq<Change>, home: nat -> Option<nat>)
    requires OnlyBlocked(t)
    ensures OnlyBlocked(ChangedBy(t, cs))
    ensures Complete(t, home) && NobodyMoves(cs, home) ==> Complete(ChangedBy(t, cs), home)
  {
    if cs != [] {
      ListsHoldOverHistories(t, cs[..|cs| - 1], home);
      ChangeKeeps(ChangedBy(t, cs[..|cs| - 1]), cs[|cs| - 1], home);
    }
  }

  // ---- the code ------------------------------------------------------------

  class PublisherLists {
    var tables: Tables
    var seeded: bool
    // the sets the filters read
    var allowed: set<nat>
    var blocked: set<nat>
    var blockedVolumes: set<nat>

    /** The sets in memory mirror the tables, and nothing is remembered for a publisher that is not
        blocked. Every method keeps this, also for volumes that change their publisher. */
    ghost predicate Valid()
      reads this
    {
      Mirrors() && OnlyBlocked(tables)
    }

    ghost predicate Mirrors()
      reads this
    {
      && allowed == tables.On(Allow) && (forall p :: p in allowed <==> p in tables.lists && tables.lists[p] == Allow)
      && blocked == tables.On(Block) && (forall p :: p in blocked <==> p in tables.lists && tables.lists[p] == Block)
      && blockedVolumes == tables.remembered.Keys
    }

    constructor (volumes: map<nat, Option<nat>>)
      ensures tables == Tables(map[], map[], volumes) && !seeded && Mirrors()
      ensures Valid() && AllRemembered(tables)
    {
      tables, seeded := Tables(map[], map[], volumes), false;
      allowed, blocked, blockedVolumes := {}, {}, {};
    }

    method LoadPublisherLists()
      modifies this`allowed, this`blocked, this`blockedVolumes
      ensures Mirrors()
    {
      allowed, blocked, blockedVolumes := tables.On(Allow), tables.On(Block), tables.remembered.Keys;
    }

    /** Allowed and blocked are disjoint, in memory as in the table. */
    lemma ListsAreDisjoint()
      requires Mirrors()
      ensures allowed !! blocked
    {}

    method SetPublisherList(p: nat, which: Option<Which>, ghost home: nat -> Option<nat>)
      requires Valid()
      modifies this
      ensures Valid() && seeded == old(seeded)
      ensures old(Complete(tables, home)) ==> Complete(tables, home)
      ensures tables == PutOnList(old(tables), p, which)
      ensures p in blocked <==> which == Some(Block)
      ensures p in allowed <==> which == Some(Allow)
      ensures forall q :: q != p ==> (q in blocked <==> q in old(blocked)) && (q in allowed <==> q in old(allowed))
      ensures tables.volumes == old(tables).volumes
      ensures forall v :: v in tables.remembered <==>
        || (v in old(tables).remembered && old(tables).remembered[v] != p)
        || (which == Some(Block) && v in tables.volumes && tables.volumes[v] == Some(p))
      ensures forall v :: v in tables.remembered ==>
        if v in old(tables).remembered && old(tables).remembered[v] != p
        then tables.remembered[v] == old(tables).remembered[v] else tables.remembered[v] == p
    {
      PutKeepsOnlyBlocked(tables, p, which);
      if Complete(tables, home) { PutKeepsComplete(tables, p, which, home); }
      tables := PutOnList(tables, p, which);
      LoadPublisherLists();
    }

    /** Puts every publisher of a file on a list; with `replace`, the others come off it. `onList` is
        what the table gives for the list, in some order. */
    method ImportPublisherList(which: Which, entries: seq<nat>, onList: seq<nat>, replace: bool,
                               ghost home: nat -> Option<nat>)
      returns (removed: nat)
      requires Valid()
      requires forall p :: p in onList <==> p in tables.On(which)
      modifies this
      ensures Valid() && seeded == old(seeded)
      ensures old(Complete(tables, home)) ==> Complete(tables, home)
      ensures exists off: seq<nat> ::
        (tables == Changed(old(tables), Import(which, entries, off)) && removed == |off|
         && forall p :: p in off <==> replace && p in onList && p !in entries)
      ensures ImportedLists(old(tables), tables, entries, which, replace)
      ensures ImportedMemory(old(tables), tables, entries, which, replace)
    {
      var off: seq<nat> := [];
      if replace {
        off := NotIn(onList, entries);
      }
      removed := |off|;
      PutEach(off, None, home);
      PutEach(entries, Some(which), home);
      LoadPublisherLists();
      ImportIs(old(tables), off, entries, which, replace);
    }

    /** The publishers of a list that a file does not name. */
    static method NotIn(onList: seq<nat>, entries: seq<nat>) returns (off: seq<nat>)
      ensures forall p :: p in off <==> p in onList && p !in entries
    {
      off := [];
      var i := 0;
      while i < |onList|
        invariant 0 <= i <= |onList|
        invariant forall p :: p in off <==> p in onList[..i] && p !in entries
      {
        if onList[i] !in entries { off := off + [onList[i]]; }
        i := i + 1;
      }
      assert onList[..i] == onList;
    }

    method PutEach(ps: seq<nat>, which: Option<Which>, ghost home: nat -> Option<nat>)
      requires OnlyBlocked(tables)
      modifies this`tables
      ensures tables == PutAll(old(tables), ps, which)
      ensures OnlyBlocked(tables)
      ensures old(Complete(tables, home)) ==> Complete(tables, home)
    {
      var i := 0;
      while i < |ps|
        invariant 0 <= i <= |ps| && tables == PutAll(old(tables), ps[..i], which)
      {
        tables := PutOnList(tables, ps[i], which);
        i := i + 1;
        assert ps[..i][..i - 1] == ps[..i - 1];
      }
      assert ps[..i] == ps;
      PutAllKeeps(old(tables), ps, which, home);
    }

    /** Fills the lists the first time only. A publisher that is already listed keeps its list, and one
        named in both arguments is allowed. */
    method SeedPublisherLists(allow: set<nat>, block: set<nat>, ghost home: nat -> Option<nat>) returns (done: bool)
      requires Valid()
      modifies this
      ensures Valid() && seeded && done == !old(seeded)
      ensures old(Complete(tables, home)) ==> Complete(tables, home)
      ensures !done ==> tables == old(tables)
      ensures done ==> tables == Seeded(old(tables), allow, block) && AllRemembered(tables)
      ensures done ==> forall p :: p in tables.lists ==>
        tables.lists[p] == if p in old(tables.lists) then old(tables.lists)[p] else if p in allow then Allow else Block
      ensures done ==> tables.lists.Keys == old(tables.lists).Keys + allow + block
      ensures tables.volumes == old(tables).volumes
      ensures done ==> forall v :: v in tables.remembered <==>
        || v in old(tables).remembered
        || (v in tables.volumes && tables.volumes[v].Some? && tables.volumes[v].value in blocked)
      ensures done ==> forall v :: v in tables.remembered ==>
        if v in old(tables).remembered then tables.remembered[v] == old(tables).remembered[v]
        else Some(tables.remembered[v]) == tables.volumes[v]
    {
      if seeded { return false; }
      SeedKeeps(tables, allow, block, home);
      var t := tables.(lists := (map p | p in block :: Block) + (map p | p in allow :: Allow) + tables.lists);
      tables := t.(remembered := RememberStored(t, t.On(Block)));
      seeded := true;
      LoadPublisherLists();
      done := true;
    }

    /** A volume from upstream, through the sets in memory. */
    method UpsertVolume(v: nat, publisher: Option<nat>, ghost home: nat -> Option<nat>)
      requires Valid()
      modifies this
      ensures Valid() && seeded == old(seeded)
      ensures old(Complete(tables, home)) && publisher == home(v) ==> Complete(tables, home)
      ensures tables == Upserted(old(tables), v, publisher)
      ensures tables.lists == old(tables).lists
      ensures v in old(blockedVolumes) ==> tables == old(tables)
      ensures v !in old(blockedVolumes) && (publisher.None? || publisher.value !in old(blocked)) ==>
        tables.volumes == old(tables).volumes[v := publisher] && tables.remembered == old(tables).remembered
      ensures v !in old(blockedVolumes) && publisher.Some? && publisher.value in old(blocked) ==>
        && tables.volumes == old(tables).volumes
        && tables.remembered == old(tables).remembered[v := publisher.value]
    {
      if v in blockedVolumes { return; }
      if publisher.Some? && publisher.value in blocked {
        tables := tables.(remembered := tables.remembered[v := publisher.value]);
        blockedVolumes := blockedVolumes + {v};
      } else {
        tables := tables.(volumes := tables.volumes[v := publisher]);
      }
    }

    /** Purge and eviction take volume rows away. */
    method DeleteVolumes(vs: set<nat>, ghost home: nat -> Option<nat>)
      requires Valid()
      modifies this
      ensures Valid() && seeded == old(seeded)
      ensures old(Complete(tables, home)) ==> Complete(tables, home)
      ensures tables == old(tables).(volumes := old(tables.volumes) - vs)
    {
      tables := tables.(volumes := tables.volumes - vs);
    }
  }
}
