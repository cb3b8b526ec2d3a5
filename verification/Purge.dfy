/** The purge of blocked volumes: batches of rows, one short transaction each, with other writers
    committing between them. */
module Purge {
  import opened Wrappers

  datatype Resource = Issue(id: nat) | Volume(id: nat) | Other(name: string)

  /** `issues` maps stored issues to their volume, `covers` and `responses` map row numbers of
      comic_covers and cv_response_cache to what the row is for, `syncs` is cv_volume_issue_sync. */
  datatype Tables = Tables(issues: map<nat, Option<nat>>, covers: map<nat, nat>, responses: map<nat, Resource>,
                           syncs: set<nat>, volumes: set<nat>, blocked: set<nat>)
  {
    function BlockedIssues(): set<nat> {
      set i | i in issues && issues[i].Some? && issues[i].value in blocked
    }

    function BlockedVolumes(): set<nat> { volumes * blocked }

    /** The issue rows outside the blocked volumes. */
    function Allowed(): map<nat, Option<nat>> { issues - BlockedIssues() }
  }

  function CoversOf(t: Tables, ids: set<nat>): set<nat> { set c | c in t.covers && t.covers[c] in ids }

  function IssueResponses(t: Tables, ids: set<nat>): set<nat> {
    set r | r in t.responses && t.responses[r].Issue? && t.responses[r].id in ids
  }

  function VolumeResponses(t: Tables, ids: set<nat>): set<nat> {
    set r | r in t.responses && t.responses[r].Volume? && t.responses[r].id in ids
  }

  function DropIssues(t: Tables, ids: set<nat>): Tables {
    t.(issues := t.issues - ids, covers := t.covers - CoversOf(t, ids),
       responses := t.responses - IssueResponses(t, ids))
  }

  function DropVolumes(t: Tables, ids: set<nat>): Tables {
    t.(volumes := t.volumes - ids, syncs := t.syncs - ids, responses := t.responses - VolumeResponses(t, ids))
  }

  /** The purge as one delete. */
  function Purged(t: Tables): Tables {
    DropVolumes(DropIssues(t, t.BlockedIssues()), t.BlockedVolumes())
  }

  // ---- other writers -------------------------------------------------------

  datatype Upsert = Upsert(id: nat, volume: Option<nat>)

  /** upsert_issue, which refuses issues of blocked volumes. */
  function Upserted(t: Tables, u: Upsert): Tables {
    if u.volume.Some? && u.volume.value in t.blocked then t else t.(issues := t.issues[u.id := u.volume])
  }

  function UpsertedAll(t: Tables, us: seq<Upsert>): Tables {
    if us == [] then t else Upserted(UpsertedAll(t, us[..|us| - 1]), us[|us| - 1])
  }

  /** Each issue ends with the volume of the last upsert of it that was not refused. */
  ghost predicate LastUpsertWins(t: Tables, after: Tables, us: seq<Upsert>, i: nat) {
    || (NotStored(t, us, 0, i) && (i in after.issues <==> i in t.issues)
        && (i in after.issues ==> after.issues[i] == t.issues[i]))
    || (exists k :: 0 <= k < |us| && us[k].id == i && NotStored(t, us, k + 1, i)
                    && (us[k].volume.None? || us[k].volume.value !in t.blocked)
                    && i in after.issues && after.issues[i] == us[k].volume)
  }

  /** From place `from` on, every upsert of issue `i` names a blocked volume. */
  ghost predicate NotStored(t: Tables, us: seq<Upsert>, from: nat, i: nat) {
    forall j :: from <= j < |us| && us[j].id == i ==> us[j].volume.Some? && us[j].volume.value in t.blocked
  }

  lemma {:induction false} UpsertsInOrder(t: Tables, us: seq<Upsert>, i: nat)
    ensures UpsertedAll(t, us).blocked == t.blocked && LastUpsertWins(t, UpsertedAll(t, us), us, i)
  {
    if us != [] {
      var init, u := us[..|us| - 1], us[|us| - 1];
      UpsertsInOrder(t, init, i);
      if u.id == i && (u.volume.None? || u.volume.value !in t.blocked) {
        assert us[|us| - 1].id == i && NotStored(t, us, |us|, i);
      } else if !NotStored(t, init, 0, i) {
        var k :| 0 <= k < |init| && init[k].id == i && NotStored(t, init, k + 1, i)
                 && (init[k].volume.None? || init[k].volume.value !in t.blocked)
                 && i in UpsertedAll(t, init).issues && UpsertedAll(t, init).issues[i] == init[k].volume;
        assert us[k] == init[k] && NotStored(t, us, k + 1, i);
      }
    }
  }

  function Named(us: seq<Upsert>): set<nat> { set u | u in us :: u.id }

  lemma EqualOutside<T>(s: map<nat, T>, t: map<nat, T>, ids: set<nat>)
    ensures s - ids == t - ids <==> forall i :: i !in ids ==> (i in s <==> i in t) && (i in s ==> s[i] == t[i])
  {
    if s - ids == t - ids {
      forall i | i !in ids ensures (i in s <==> i in t) && (i in s ==> s[i] == t[i]) {
        assert i in s <==> i in s - ids;
        assert i in t <==> i in t - ids;
        if i in s { assert (s - ids)[i] == (t - ids)[i]; }
      }
    }
  }

  /** Upserts only write issue rows they name, and never add work for the purge. */
  lemma {:induction false} UpsertsNeverAddWork(t: Tables, us: seq<Upsert>)
    ensures var t' := UpsertedAll(t, us);
            && t'.BlockedIssues() <= t.BlockedIssues()
            && t'.BlockedIssues() >= t.BlockedIssues() - Named(us)
            && t' == t.(issues := t'.issues)
            && t.issues.Keys <= t'.issues.Keys
            && t'.issues - Named(us) == t.issues - Named(us)
  {
    if us != [] {
      UpsertsNeverAddWork(t, us[..|us| - 1]);
      assert us == us[..|us| - 1] + [us[|us| - 1]];
      assert us[|us| - 1].id in Named(us);
      assert Named(us[..|us| - 1]) <= Named(us);
      EqualOutside(t.issues, UpsertedAll(t, us[..|us| - 1]).issues, Named(us[..|us| - 1]));
      EqualOutside(t.issues, UpsertedAll(t, us).issues, Named(us));
    }
  }

  /** What upserts leave outside the blocked volumes depends only on what was outside them before. */
  lemma {:induction false} UpsertsOnAllowed(s: Tables, t: Tables, us: seq<Upsert>)
    requires s.Allowed() == t.Allowed() && s.blocked == t.blocked
    ensures UpsertedAll(s, us).Allowed() == UpsertedAll(t, us).Allowed()
    ensures UpsertedAll(s, us).blocked == t.blocked && UpsertedAll(t, us).blocked == t.blocked
  {
    if us != [] {
      UpsertsOnAllowed(s, t, us[..|us| - 1]);
      UpsertOnAllowed(UpsertedAll(s, us[..|us| - 1]), us[|us| - 1]);
      UpsertOnAllowed(UpsertedAll(t, us[..|us| - 1]), us[|us| - 1]);
    }
  }

  lemma UpsertOnAllowed(t: Tables, u: Upsert)
    ensures Upserted(t, u).Allowed() ==
      if u.volume.Some? && u.volume.value in t.blocked then t.Allowed() else t.Allowed()[u.id := u.volume]
  {}

  lemma {:induction false} UpsertedInTurn(t: Tables, us: seq<Upsert>, vs: seq<Upsert>)
    ensures UpsertedAll(t, us + vs) == UpsertedAll(UpsertedAll(t, us), vs)
  {
    if vs == [] {
      assert us + vs == us;
    } else {
      UpsertedInTurn(t, us, vs[..|vs| - 1]);
      assert (us + vs)[..|us + vs| - 1] == us + vs[..|vs| - 1];
    }
  }

  /** The IDs of a batch are read before its transaction starts. A batch leaves every row outside the
      blocked volumes exactly if no issue it read has been moved out of them meanwhile. */
  lemma BatchLosesExactly(t: Tables, ids: set<nat>, us: seq<Upsert>)
    requires ids <= t.BlockedIssues()
    ensures var t' := UpsertedAll(t, us);
            DropIssues(t', ids).Allowed() == t'.Allowed() <==> ids <= t'.BlockedIssues()
  {
    var t' := UpsertedAll(t, us);
    UpsertsNeverAddWork(t, us);
    var after := DropIssues(t', ids);
    if after.Allowed() == t'.Allowed() {
      forall i | i in ids ensures i in t'.BlockedIssues() {
        assert i in t'.issues && i !in after.Allowed();
      }
    }
  }

  /** Issue 5 is read as one of blocked volume 9, then stored again in volume 8, then deleted. */
  lemma MovedIssueIsLost()
    ensures var t := Tables(map[5 := Some(9)], map[], map[], {}, {}, {9});
            5 in UpsertedAll(t, [Upsert(5, Some(8))]).Allowed() &&
            5 !in DropIssues(UpsertedAll(t, [Upsert(5, Some(8))]), t.BlockedIssues()).issues
  {
    var t := Tables(map[5 := Some(9)], map[], map[], {}, {}, {9});
    var us := [Upsert(5, Some(8))];
    assert us[..0] == [] && UpsertedAll(t, us) == Upserted(t, us[0]);
    assert 5 in t.BlockedIssues();
  }

  // ---- which rows are left -------------------------------------------------

  /** The rows of the issues in `ids` are gone, with their covers and cached responses; no other is. */
  ghost predicate WithoutIssues(t: Tables, before: Tables, ids: set<nat>) {
    && (forall i :: i in t.issues <==> i in before.issues && i !in ids)
    && (forall i :: i in t.issues ==> t.issues[i] == before.issues[i])
    && (forall c :: c in t.covers <==> c in before.covers && before.covers[c] !in ids)
    && (forall c :: c in t.covers ==> t.covers[c] == before.covers[c])
    && (forall r :: r in t.responses <==>
          r in before.responses && (before.responses[r].Issue? ==> before.responses[r].id !in ids))
    && (forall r :: r in t.responses ==> t.responses[r] == before.responses[r])
    && t.syncs == before.syncs && t.volumes == before.volumes && t.blocked == before.blocked
  }

  /** The same for the rows of the volumes in `ids`, their sync marks and their cached responses. */
  ghost predicate WithoutVolumes(t: Tables, before: Tables, ids: set<nat>) {
    && (forall v :: v in t.volumes <==> v in before.volumes && v !in ids)
    && (forall v :: v in t.syncs <==> v in before.syncs && v !in ids)
    && (forall r :: r in t.responses <==>
          r in before.responses && (before.responses[r].Volume? ==> before.responses[r].id !in ids))
    && (forall r :: r in t.responses ==> t.responses[r] == before.responses[r])
    && t.issues == before.issues && t.covers == before.covers && t.blocked == before.blocked
  }

  /** Of the rows that belong to issues, exactly those of blocked volumes are gone; only for issues in
      `named`, which others wrote meanwhile, may that be otherwise. */
  ghost predicate IssuesLeft(t: Tables, before: Tables, named: set<nat>) {
    && (forall i :: i !in named ==> (i in t.issues <==> i in before.issues && i !in before.BlockedIssues()))
    && (forall i :: i !in named && i in t.issues ==> t.issues[i] == before.issues[i])
    && (forall c :: c in t.covers ==> c in before.covers && t.covers[c] == before.covers[c])
    && (forall c :: c in before.covers && c !in t.covers ==> before.covers[c] in before.BlockedIssues())
    && (forall c :: c in t.covers && t.covers[c] in before.BlockedIssues() ==> t.covers[c] in named)
    && (forall r :: r in t.responses ==> r in before.responses && t.responses[r] == before.responses[r])
    && (forall r :: r in before.responses && before.responses[r].Issue? && r !in t.responses ==>
          before.responses[r].id in before.BlockedIssues())
    && (forall r :: r in t.responses && t.responses[r].Issue? && t.responses[r].id in before.BlockedIssues() ==>
          t.responses[r].id in named)
  }

  /** With nobody else writing, exactly the rows of issues outside the blocked volumes are left. */
  ghost predicate IssuesLeftExactly(t: Tables, before: Tables) {
    && (forall i :: i in t.issues <==> i in before.issues && i !in before.BlockedIssues())
    && (forall i :: i in t.issues ==> t.issues[i] == before.issues[i])
    && (forall c :: c in t.covers <==> c in before.covers && before.covers[c] !in before.BlockedIssues())
    && (forall c :: c in t.covers ==> t.covers[c] == before.covers[c])
    && (forall r :: r in before.responses && before.responses[r].Issue? ==>
          (r in t.responses <==> before.responses[r].id !in before.BlockedIssues()))
    && (forall r :: r in t.responses ==> r in before.responses && t.responses[r] == before.responses[r])
  }

  lemma NobodyNamed(t: Tables, before: Tables)
    requires IssuesLeft(t, before, Named([]))
    ensures IssuesLeftExactly(t, before)
  {
    assert Named([]) == {};
  }

  /** No stored issue lies in a blocked volume, and no blocked volume is stored. */
  ghost predicate NoneBlocked(t: Tables) {
    && (forall i :: i in t.issues && t.issues[i].Some? ==> t.issues[i].value !in t.blocked)
    && (forall v :: v in t.volumes ==> v !in t.blocked)
  }

  lemma BlockedIssuesAre(t: Tables)
    ensures NoneBlocked(t) <==> t.BlockedIssues() == {} && t.BlockedVolumes() == {}
  {
    if t.BlockedIssues() == {} && t.BlockedVolumes() == {} {
      forall i | i in t.issues && t.issues[i].Some? ensures t.issues[i].value !in t.blocked {
        assert i !in t.BlockedIssues();
      }
      forall v | v in t.volumes ensures v !in t.blocked { assert v !in t.BlockedVolumes(); }
    }
  }

  /** Of the other rows, exactly those of blocked volumes are gone. */
  ghost predicate VolumesLeft(t: Tables, before: Tables) {
    && t.blocked == before.blocked
    && (forall v :: v in t.volumes <==> v in before.volumes && v !in before.blocked)
    && (forall v :: v in t.syncs <==> v in before.syncs && !(v in before.volumes && v in before.blocked))
    && (forall r :: r in before.responses && !before.responses[r].Issue? ==>
          (r in t.responses <==> (before.responses[r].Volume? ==>
             !(before.responses[r].id in before.volumes && before.responses[r].id in before.blocked))))
  }

  lemma DropIssuesRows(t: Tables, ids: set<nat>)
    ensures WithoutIssues(DropIssues(t, ids), t, ids)
  {}

  lemma DropVolumesRows(t: Tables, ids: set<nat>)
    ensures WithoutVolumes(DropVolumes(t, ids), t, ids)
  {}

  // ---- the code ------------------------------------------------------------

  datatype Counts = Counts(issues: nat, covers: nat, volumes: nat, responses: nat)

  /** Equal rows, but for the issues in `named`, their covers and their cached responses. */
  ghost predicate SameOutside(s: Tables, t: Tables, named: set<nat>) {
    DropIssues(s, named) == DropIssues(t, named)
  }

  lemma SameOutsideNothing(s: Tables, t: Tables)
    requires SameOutside(s, t, {})
    ensures s == t
  {
    DropNothing(s);
    DropNothing(t);
  }

  lemma DropNothing(t: Tables)
    ensures DropIssues(t, {}) == t
  {
    assert CoversOf(t, {}) == {} && IssueResponses(t, {}) == {};
  }

  /** The rows after the issues in `gone` were deleted, wherever the named issues are now. */
  ghost predicate Dropped(t: Tables, before: Tables, gone: set<nat>, named: set<nat>) {
    && t == DropIssues(before, gone).(issues := t.issues)
    && t.issues - named == before.issues - gone - named
  }

  lemma DropMore(t: Tables, before: Tables, gone: set<nat>, named: set<nat>, ids: set<nat>)
    requires Dropped(t, before, gone, named)
    ensures Dropped(DropIssues(t, ids), before, gone + ids, named)
  {
    var t' := DropIssues(t, ids);
    EqualOutside(t.issues, before.issues - gone, named);
    EqualOutside(t'.issues, before.issues - (gone + ids), named);
    assert t'.covers == DropIssues(before, gone + ids).covers;
    assert t'.responses == DropIssues(before, gone + ids).responses;
  }

  lemma DropIsEnough(t: Tables, before: Tables, gone: set<nat>, named: set<nat>)
    requires Dropped(t, before, gone, named) && gone <= before.BlockedIssues() && t.BlockedIssues() == {}
    ensures SameOutside(t, DropIssues(before, before.BlockedIssues()), named)
    ensures before.BlockedIssues() - named <= gone
  {
    EqualOutside(t.issues, before.issues - gone, named);
    forall i | i in before.BlockedIssues() && i !in named ensures i in gone {
      assert i in t.issues ==> i in t.BlockedIssues();
    }
  }

  /** Who writes beside the purge: nobody; others, but never between the SELECT of a batch and its
      transaction; or others at any time. */
  datatype Others = Nobody | Orderly | Racing

  /** How far the first loop is: `gone` is deleted, `written` was committed by others. */
  ghost predicate Deleted(t: Tables, before: Tables, gone: set<nat>, written: seq<Upsert>, others: Others) {
    && Dropped(t, before, gone, Named(written))
    && gone <= before.BlockedIssues()
    && t.BlockedIssues() <= before.BlockedIssues() - gone
    && (!others.Racing? ==> t.Allowed() == UpsertedAll(before, written).Allowed())
    && (others.Nobody? ==> written == [])
  }

  lemma NamedInTurn(us: seq<Upsert>, vs: seq<Upsert>)
    ensures Named(us + vs) == Named(us) + Named(vs)
  {
    forall i | i in Named(us) + Named(vs) ensures i in Named(us + vs) {
      var u :| (u in us || u in vs) && u.id == i;
      assert u in us + vs;
    }
  }

  lemma NothingDeleted(t: Tables, others: Others)
    ensures Deleted(t, t, {}, [], others)
  {
    assert DropIssues(t, {}) == t;
  }

  lemma DeletedAfterUpserts(t: Tables, before: Tables, gone: set<nat>, written: seq<Upsert>, us: seq<Upsert>,
                            others: Others)
    requires Deleted(t, before, gone, written, others) && (others.Nobody? ==> us == [])
    ensures Deleted(UpsertedAll(t, us), before, gone, written + us, others)
  {
    UpsertsNeverAddWork(t, us);
    NamedInTurn(written, us);
    var t' := UpsertedAll(t, us);
    EqualOutside(t.issues, t'.issues, Named(us));
    EqualOutside(t.issues, before.issues - gone, Named(written));
    EqualOutside(t'.issues, before.issues - gone, Named(written) + Named(us));
    if !others.Racing? {
      UpsertedInTurn(before, written, us);
      UpsertsNeverAddWork(before, written);
      UpsertsOnAllowed(t, UpsertedAll(before, written), us);
    }
  }

  lemma DeletedAfterBatch(t: Tables, before: Tables, gone: set<nat>, written: seq<Upsert>, ids: set<nat>,
                          others: Others)
    requires Deleted(t, before, gone, written, others)
    requires ids <= before.BlockedIssues() - gone && (!others.Racing? ==> ids <= t.BlockedIssues())
    ensures Deleted(DropIssues(t, ids), before, gone + ids, written, others)
  {
    DropMore(t, before, gone, Named(written), ids);
    assert DropIssues(t, ids).BlockedIssues() == t.BlockedIssues() - ids;
    if !others.Racing? { assert DropIssues(t, ids).Allowed() == t.Allowed(); }
  }

  lemma AllDeleted(t: Tables, before: Tables, gone: set<nat>, written: seq<Upsert>, others: Others)
    requires Deleted(t, before, gone, written, others) && t.BlockedIssues() == {}
    ensures SameOutside(t, DropIssues(before, before.BlockedIssues()), Named(written))
    ensures Named(written) !! before.BlockedIssues() ==> gone == before.BlockedIssues()
  {
    DropIsEnough(t, before, gone, Named(written));
  }

  /** `t` with the volume rows of `t1`. */
  function Restored(t: Tables, t1: Tables): Tables {
    t.(volumes := t1.volumes, syncs := t1.syncs, responses := t1.responses)
  }

  /** How far the second loop is, which started in `t1`: the volumes in `goneVolumes` are deleted. */
  ghost predicate VolumesDeleted(t: Tables, t1: Tables, goneVolumes: set<nat>,
                                 before: Tables, gone: set<nat>, written: seq<Upsert>, others: Others)
  {
    && Deleted(Restored(t, t1), before, gone, written, others)
    && t == DropVolumes(Restored(t, t1), goneVolumes)
    && goneVolumes <= t1.BlockedVolumes()
    && t.BlockedVolumes() == t1.BlockedVolumes() - goneVolumes
    && t.BlockedIssues() <= t1.BlockedIssues()
  }

  lemma {:induction false} UpsertsRestored(t: Tables, t1: Tables, us: seq<Upsert>)
    ensures Restored(UpsertedAll(t, us), t1) == UpsertedAll(Restored(t, t1), us)
  {
    if us != [] { UpsertsRestored(t, t1, us[..|us| - 1]); }
  }

  lemma NoVolumesDeleted(t: Tables, before: Tables, gone: set<nat>, written: seq<Upsert>, others: Others)
    requires Deleted(t, before, gone, written, others)
    ensures VolumesDeleted(t, t, {}, before, gone, written, others)
  {
    assert Restored(t, t) == t;
    assert DropVolumes(t, {}) == t;
  }

  lemma VolumesAfterUpserts(t: Tables, t1: Tables, goneVolumes: set<nat>, us: seq<Upsert>,
                            before: Tables, gone: set<nat>, written: seq<Upsert>, others: Others)
    requires VolumesDeleted(t, t1, goneVolumes, before, gone, written, others) && (others.Nobody? ==> us == [])
    ensures VolumesDeleted(UpsertedAll(t, us), t1, goneVolumes, before, gone, written + us, others)
    ensures UpsertedAll(t, us) == t.(issues := UpsertedAll(t, us).issues)
  {
    UpsertsRestored(t, t1, us);
    DeletedAfterUpserts(Restored(t, t1), before, gone, written, us, others);
    UpsertsNeverAddWork(t, us);
  }

  lemma VolumesAfterBatch(t: Tables, t1: Tables, goneVolumes: set<nat>, ids: set<nat>,
                          before: Tables, gone: set<nat>, written: seq<Upsert>, others: Others)
    requires VolumesDeleted(t, t1, goneVolumes, before, gone, written, others) && ids <= t.BlockedVolumes()
    ensures VolumesDeleted(DropVolumes(t, ids), t1, goneVolumes + ids, before, gone, written, others)
  {
    var r, t' := Restored(t, t1), DropVolumes(t, ids);
    assert Restored(t', t1) == r;
    assert t'.volumes == DropVolumes(r, goneVolumes + ids).volumes;
    assert t'.syncs == DropVolumes(r, goneVolumes + ids).syncs;
    assert t'.responses == DropVolumes(r, goneVolumes + ids).responses;
    assert t'.BlockedVolumes() == t.BlockedVolumes() - ids;
  }

  /** Both loops together are the one delete, but for the issues others wrote. */
  lemma BothLoops(t: Tables, t1: Tables, goneVolumes: set<nat>, before: Tables, gone: set<nat>, written: seq<Upsert>,
                  others: Others)
    requires t1.BlockedIssues() == {} && t1.BlockedVolumes() == before.BlockedVolumes()
    requires VolumesDeleted(t, t1, goneVolumes, before, gone, written, others) && t.BlockedVolumes() == {}
    ensures && t.BlockedIssues() == {} && goneVolumes == before.BlockedVolumes()
            && IssuesLeft(t, before, Named(written)) && VolumesLeft(t, before)
            && SameOutside(t, Purged(before), Named(written))
            && (!others.Racing? ==> t.issues == UpsertedAll(before, written).Allowed())
            && (Named(written) !! before.BlockedIssues() ==> gone == before.BlockedIssues())
  {
    var r := Restored(t, t1);
    forall v | v in t1.BlockedVolumes() ensures v in goneVolumes { assert v !in t.BlockedVolumes(); }
    assert r.BlockedIssues() == t.BlockedIssues();
    FirstLoop(r, before, gone, written, others);
    DropVolumesRows(r, goneVolumes);
    SameVolumesDropped(r, DropIssues(before, before.BlockedIssues()), t1.BlockedVolumes(), Named(written));
  }

  lemma NothingPurged(t: Tables, t1: Tables, before: Tables, gone: set<nat>, goneVolumes: set<nat>,
                      written: seq<Upsert>, others: Others)
    requires VolumesDeleted(t, t1, goneVolumes, before, gone, written, others) && |gone| == |goneVolumes| == 0
    ensures t == before.(issues := t.issues)
  {
    DropNothing(before);
    assert DropVolumes(Restored(t, t1), {}) == Restored(t, t1);
  }

  lemma WhatIsGone(t: Tables, before: Tables, gone: set<nat>, written: seq<Upsert>, others: Others)
    requires Deleted(t, before, gone, written, others)
    ensures forall c :: c in t.covers <==> c in before.covers && before.covers[c] !in gone
    ensures t.BlockedIssues() == {} ==> before.BlockedIssues() - gone <= Named(written)
  {
    if t.BlockedIssues() == {} { DropIsEnough(t, before, gone, Named(written)); }
  }

  lemma FirstLoop(t: Tables, before: Tables, gone: set<nat>, written: seq<Upsert>, others: Others)
    requires Deleted(t, before, gone, written, others) && t.BlockedIssues() == {}
    ensures SameOutside(t, DropIssues(before, before.BlockedIssues()), Named(written))
    ensures IssuesLeft(t, before, Named(written)) && VolumesKept(t, before)
    ensures !others.Racing? ==> t.issues == UpsertedAll(before, written).Allowed()
    ensures Named(written) !! before.BlockedIssues() ==> gone == before.BlockedIssues()
  {
    AllDeleted(t, before, gone, written, others);
    DropIssuesRows(before, gone);
    EqualOutside(t.issues, before.issues - gone, Named(written));
    assert t.issues - {} == t.issues;
  }

  /** What does not belong to an issue is as it was. */
  ghost predicate VolumesKept(t: Tables, before: Tables) {
    && t.volumes == before.volumes && t.syncs == before.syncs && t.blocked == before.blocked
    && (forall r :: r in before.responses && !before.responses[r].Issue? ==> r in t.responses)
  }

  lemma SameVolumesDropped(s: Tables, t: Tables, ids: set<nat>, named: set<nat>)
    requires SameOutside(s, t, named)
    ensures SameOutside(DropVolumes(s, ids), DropVolumes(t, ids), named)
  {
    DropsCommute(s, ids, named);
    DropsCommute(t, ids, named);
  }

  lemma DropsCommute(t: Tables, volumes: set<nat>, issues: set<nat>)
    ensures DropIssues(DropVolumes(t, volumes), issues) == DropVolumes(DropIssues(t, issues), volumes)
  {
    assert DropIssues(DropVolumes(t, volumes), issues).responses
        == DropVolumes(DropIssues(t, issues), volumes).responses;
  }

  class Database {
    var tables: Tables
    /** What the other writers commit before the IDs of the n-th batch are read, and between reading them
        and deleting the rows. */
    const between: seq<seq<Upsert>>
    const racing: seq<seq<Upsert>>
    var batches: nat
    ghost var written: seq<Upsert>

    constructor (t: Tables, early: seq<seq<Upsert>>, late: seq<seq<Upsert>>)
      ensures tables == t && between == early && racing == late && batches == 0 && written == []
    { tables, between, racing, batches, written := t, early, late, 0, []; }

    ghost predicate Writes(others: Others) {
      && (!others.Racing? ==> forall n :: 0 <= n < |racing| ==> racing[n] == [])
      && (others.Nobody? ==> forall n :: 0 <= n < |between| ==> between[n] == [])
    }

    function Early(): seq<Upsert>
      reads this`batches
    { if batches < |between| then between[batches] else [] }

    function Late(): seq<Upsert>
      reads this`batches
    { if batches < |racing| then racing[batches] else [] }

    method OthersWrite(us: seq<Upsert>)
      modifies this`tables, this`written
      ensures tables == UpsertedAll(old(tables), us) && written == old(written) + us
      ensures forall i :: LastUpsertWins(old(tables), tables, us, i)
      ensures tables == old(tables).(issues := tables.issues)
    {
      written := written + us;
      var i := 0;
      while i < |us|
        invariant 0 <= i <= |us| && tables == UpsertedAll(old(tables), us[..i])
        modifies this`tables
      {
        var u := us[i];
        assert us[..i + 1][..i] == us[..i];
        if !(u.volume.Some? && u.volume.value in tables.blocked) {
          tables := tables.(issues := tables.issues[u.id := u.volume]);
        }
        i := i + 1;
      }
      assert us[..i] == us;
      UpsertsNeverAddWork(old(tables), us);
      forall i ensures LastUpsertWins(old(tables), tables, us, i) { UpsertsInOrder(old(tables), us, i); }
    }

    method DeleteIssues(ids: set<nat>) returns (issues: nat, covers: nat, responses: nat)
      requires ids <= tables.issues.Keys
      modifies this`tables
      ensures tables == DropIssues(old(tables), ids)
      ensures WithoutIssues(tables, old(tables), ids)
      ensures issues == |ids|
      ensures covers + |tables.covers| == |old(tables).covers|
      ensures responses + |tables.responses| == |old(tables).responses|
    {
      var c, r := CoversOf(tables, ids), IssueResponses(tables, ids);
      RowsLeft(tables.covers, c);
      tables := tables.(covers := tables.covers - c);
      RowsLeft(tables.responses, r);
      tables := tables.(responses := tables.responses - r);
      tables := tables.(issues := tables.issues - ids);
      issues, covers, responses := |ids|, |c|, |r|;
    }

    method DeleteVolumes(ids: set<nat>) returns (volumes: nat, responses: nat)
      requires ids <= tables.volumes
      modifies this`tables
      ensures tables == DropVolumes(old(tables), ids)
      ensures WithoutVolumes(tables, old(tables), ids)
      ensures volumes == |ids|
      ensures responses + |tables.responses| == |old(tables).responses|
    {
      var r := VolumeResponses(tables, ids);
      RowsLeft(tables.responses, r);
      tables := tables.(responses := tables.responses - r);
      tables := tables.(syncs := tables.syncs - ids);
      tables := tables.(volumes := tables.volumes - ids);
      volumes, responses := |ids|, |r|;
    }

    /** One batch, with the commits before and after its transaction. */
    method PurgeBatch(ids: set<nat>, ghost t0: Tables, ghost gone: set<nat>, ghost others: Others)
      returns (issues: nat, covers: nat, responses: nat)
      requires Writes(others) && Deleted(tables, t0, gone, written, others) && ids <= tables.BlockedIssues()
      modifies this
      ensures ids <= t0.BlockedIssues() - gone
      ensures Deleted(tables, t0, gone + ids, written, others)
      ensures issues == |ids|
      ensures covers + |tables.covers| == |old(tables).covers|
      ensures responses + |tables.responses| == |old(tables).responses|
    {
      UpsertsNeverAddWork(tables, Late());
      DeletedAfterUpserts(tables, t0, gone, written, Late(), others);
      OthersWrite(Late());
      assert !others.Racing? ==> tables == old(tables);
      DeletedAfterBatch(tables, t0, gone, written, ids, others);
      issues, covers, responses := DeleteIssues(ids);
      batches := batches + 1;
      DeletedAfterUpserts(tables, t0, gone + ids, written, Early(), others);
      UpsertsNeverAddWork(tables, Early());
      OthersWrite(Early());
    }

    /** Deletes the issues of blocked volumes batch by batch; `gone` are those it deleted. */
    method PurgeIssues(batch: int, ghost others: Others)
      returns (issues: nat, covers: nat, responses: nat, ghost gone: set<nat>)
      requires Writes(others) && written == []
      modifies this
      ensures Deleted(tables, old(tables), gone, written, others)
      ensures issues == |gone|
      ensures covers + |tables.covers| == |old(tables).covers|
      ensures responses + |tables.responses| == |old(tables).responses|
      ensures batch != 0 ==> tables.BlockedIssues() == {}
      ensures gone <= old(tables).BlockedIssues()
      ensures batch != 0 ==> old(tables).BlockedIssues() - gone <= Named(written)
      ensures forall c :: c in tables.covers <==> c in old(tables).covers && old(tables).covers[c] !in gone
      ensures batch == 0 ==> issues == 0
    {
      issues, covers, responses, gone := 0, 0, 0, {};
      ghost var t0 := tables;
      NothingDeleted(tables, others);
      DeletedAfterUpserts(tables, t0, {}, written, Early(), others);
      UpsertsNeverAddWork(tables, Early());
      OthersWrite(Early());
      ghost var coversAtStart, responsesAtStart := |tables.covers|, |tables.responses|;
      var ids := Select(tables.BlockedIssues(), batch);
      while ids != {}
        invariant Deleted(tables, t0, gone, written, others)
        invariant ids <= tables.BlockedIssues()
        invariant batch != 0 && ids == {} ==> tables.BlockedIssues() == {}
        invariant batch == 0 ==> ids == {} && issues == 0
        invariant issues == |gone|
        invariant covers + |tables.covers| == coversAtStart
        invariant responses + |tables.responses| == responsesAtStart
        decreases t0.BlockedIssues() - gone
      {
        var i, c, r := PurgeBatch(ids, t0, gone, others);
        issues, covers, responses := issues + i, covers + c, responses + r;
        gone := gone + ids;
        ids := Select(tables.BlockedIssues(), batch);
      }
      WhatIsGone(tables, t0, gone, written, others);
    }

    method PurgeVolumeBatch(ids: set<nat>, ghost t1: Tables, ghost goneVolumes: set<nat>,
                            ghost t0: Tables, ghost gone: set<nat>, ghost others: Others)
      returns (volumes: nat, responses: nat)
      requires Writes(others) && ids <= tables.BlockedVolumes()
      requires VolumesDeleted(tables, t1, goneVolumes, t0, gone, written, others)
      modifies this
      ensures VolumesDeleted(tables, t1, goneVolumes + ids, t0, gone, written, others)
      ensures ids <= t1.BlockedVolumes() - goneVolumes
      ensures tables.covers == old(tables).covers
      ensures volumes == |ids|
      ensures responses + |tables.responses| == |old(tables).responses|
    {
      VolumesAfterUpserts(tables, t1, goneVolumes, Late(), t0, gone, written, others);
      OthersWrite(Late());
      VolumesAfterBatch(tables, t1, goneVolumes, ids, t0, gone, written, others);
      volumes, responses := DeleteVolumes(ids);
      batches := batches + 1;
      VolumesAfterUpserts(tables, t1, goneVolumes + ids, Early(), t0, gone, written, others);
      OthersWrite(Early());
    }

    /** The same for the rows of the volumes. */
    method PurgeVolumes(batch: int, ghost t0: Tables, ghost gone: set<nat>, ghost others: Others)
      returns (volumes: nat, responses: nat, ghost goneVolumes: set<nat>)
      requires Writes(others) && Deleted(tables, t0, gone, written, others)
      modifies this
      ensures VolumesDeleted(tables, old(tables), goneVolumes, t0, gone, written, others)
      ensures batch != 0 ==> tables.BlockedVolumes() == {}
      ensures batch == 0 ==> volumes == 0
      ensures tables.covers == old(tables).covers
      ensures volumes == |goneVolumes|
      ensures responses + |tables.responses| == |old(tables).responses|
    {
      volumes, responses, goneVolumes := 0, 0, {};
      ghost var t1, responsesAtStart := tables, |tables.responses|;
      NoVolumesDeleted(t1, t0, gone, written, others);
      var ids := Select(tables.BlockedVolumes(), batch);
      while ids != {}
        invariant VolumesDeleted(tables, t1, goneVolumes, t0, gone, written, others)
        invariant ids <= tables.BlockedVolumes() && tables.covers == t1.covers
        invariant ids == {} && batch != 0 ==> tables.BlockedVolumes() == {}
        invariant batch == 0 ==> ids == {} && volumes == 0
        invariant volumes == |goneVolumes|
        invariant responses + |tables.responses| == responsesAtStart
        decreases t1.BlockedVolumes() - goneVolumes
      {
        var v, r := PurgeVolumeBatch(ids, t1, goneVolumes, t0, gone, others);
        volumes, responses, goneVolumes := volumes + v, responses + r, goneVolumes + ids;
        ids := Select(tables.BlockedVolumes(), batch);
      }
    }

    /** Whatever the batch size, and whatever issues other writers store meanwhile: no row of a blocked
        volume is left, and the tables are those the one delete leaves, but for the issues the others
        named. With no race even those are as if the others had written first. */
    method PurgeBlocked(batch: int, ghost others: Others) returns (out: Counts)
      requires Writes(others) && written == []
      modifies this
      ensures tables.blocked == old(tables).blocked
      ensures batch != 0 ==> tables.BlockedIssues() == {} && tables.BlockedVolumes() == {}
      ensures batch != 0 ==> SameOutside(tables, Purged(old(tables)), Named(written))
      ensures batch != 0 && !others.Racing? ==> tables.issues == UpsertedAll(old(tables), written).Allowed()
      ensures batch != 0 && others.Nobody? ==> tables == Purged(old(tables))
      ensures batch != 0 ==> NoneBlocked(tables)
      ensures batch != 0 ==> IssuesLeft(tables, old(tables), Named(written)) && VolumesLeft(tables, old(tables))
      ensures batch != 0 && others.Nobody? ==> IssuesLeftExactly(tables, old(tables))
      ensures batch == 0 ==> out.issues == 0 && out.volumes == 0 && tables == old(tables).(issues := tables.issues)
      ensures out.issues <= |old(tables).BlockedIssues()|
      ensures batch != 0 && Named(written) !! old(tables).BlockedIssues() ==>
        out.issues == |old(tables).BlockedIssues()|
      ensures batch != 0 ==> out.volumes == |old(tables).BlockedVolumes()|
      ensures out.covers + |tables.covers| == |old(tables).covers|
      ensures out.responses + |tables.responses| == |old(tables).responses|
    {
      ghost var t0 := tables;
      var issues, covers, responses, gone := PurgeIssues(batch, others);
      ghost var t1 := tables;
      var volumes, more, goneVolumes := PurgeVolumes(batch, t0, gone, others);
      out := Counts(issues, covers, volumes, responses + more);
      SizesAgree(gone, t0.BlockedIssues());
      if batch == 0 {
        NothingPurged(tables, t1, t0, gone, goneVolumes, written, others);
      } else {
        BlockedIssuesAre(tables);
        BothLoops(tables, t1, goneVolumes, t0, gone, written, others);
        if others.Nobody? {
          SameOutsideNothing(tables, Purged(t0));
          NobodyNamed(tables, t0);
        }
      }
    }
  }

  lemma SizesAgree(part: set<nat>, whole: set<nat>)
    requires part <= whole
    ensures |part| <= |whole|
  {
    assert whole == part + (whole - part);
  }

  lemma RowsLeft<T>(m: map<nat, T>, rows: set<nat>)
    requires rows <= m.Keys
    ensures |m - rows| == |m| - |rows|
  {
    assert (m - rows).Keys == m.Keys - rows;
  }

  /** SELECT id ... LIMIT batch: any rows, at most `batch` of them; a negative limit is none. */
  method Select(work: set<nat>, batch: int) returns (ids: set<nat>)
    ensures ids <= work && |ids| == if 0 <= batch < |work| then batch else |work|
    ensures batch == 0 ==> ids == {}
  {
    ids := {};
    var left := work;
    while left != {} && |ids| != batch
      invariant ids <= work && left == work - ids && |ids| + |left| == |work|
      invariant batch >= 0 ==> |ids| <= batch
      decreases left
    {
      var id :| id in left;
      ids, left := ids + {id}, left - {id};
    }
  }
}
