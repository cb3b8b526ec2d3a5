/** Volume lookups answered from the local issue list: when the list may be trusted, how it is
    refreshed, and that the local answer is the upstream answer. The catalogue is fixed. */
module VolumeIssues {
  import opened Upstream
  import opened Wrappers

  const SYNC_TTL := 24 * 3600
  const REFRESH_MAX_ISSUES := 300
  const PAGE_SIZE := 100
  const LISTING_LIMIT := 10_000

  datatype Issue = Issue(id: nat, volume: nat, number: string)

  ghost predicate Catalogue(up: seq<Issue>) {
    && (forall i :: 0 <= i < |up| ==> up[i].id != 0)
    && Distinct(up)
  }

  /** The upstream issues of a volume, in ComicVine's order. */
  function OfVolume(up: seq<Issue>, v: nat): (r: seq<Issue>)
    ensures |r| <= |up|
  {
    if up == [] then []
    else if up[0].volume == v then [up[0]] + OfVolume(up[1..], v)
    else OfVolume(up[1..], v)
  }

  lemma {:induction false} OfVolumeMembers(up: seq<Issue>, v: nat, i: Issue)
    ensures i in OfVolume(up, v) <==> i in up && i.volume == v
  {
    if up != [] { OfVolumeMembers(up[1..], v, i); }
  }

  ghost predicate Distinct(s: seq<Issue>) {
    forall i, j :: 0 <= i < j < |s| ==> s[i].id != s[j].id
  }

  function Ids(s: seq<Issue>): set<nat> { set i | i in s :: i.id }

  lemma IdsCons(s: seq<Issue>)
    requires s != []
    ensures Ids(s) == {s[0].id} + Ids(s[1..])
  {
    forall i | i in s ensures i == s[0] || i in s[1..] {}
  }

  lemma {:induction false} DistinctIds(s: seq<Issue>)
    requires Distinct(s)
    ensures |Ids(s)| == |s|
  {
    if s != [] {
      var rest := s[1..];
      assert Distinct(rest);
      DistinctIds(rest);
      IdsCons(s);
      forall i | i in rest ensures i.id != s[0].id {
        var k :| 0 <= k < |rest| && rest[k] == i;
        assert s[k + 1] == i;
      }
      assert s[0].id !in Ids(rest);
    }
  }

  lemma {:induction false} OfVolumeDistinct(up: seq<Issue>, v: nat)
    requires Catalogue(up)
    ensures Distinct(OfVolume(up, v))
  {
    if up != [] {
      var s := OfVolume(up[1..], v);
      OfVolumeDistinct(up[1..], v);
      forall i | 0 <= i < |s| ensures s[i].id != up[0].id {
        OfVolumeMembers(up[1..], v, s[i]);
        var k :| 0 <= k < |up[1..]| && up[1..][k] == s[i];
        assert up[k + 1] == s[i];
      }
    }
  }

  /** A part of a volume that counts as many issues as the volume is the volume. */
  lemma CountedPartIsWhole(part: set<nat>, whole: set<nat>)
    requires part <= whole && |whole| <= |part|
    ensures part == whole
  {
    if !(whole <= part) {
      var x :| x in whole && x !in part;
      SubsetSize(part, whole - {x});
    }
  }

  lemma SubsetSize(a: set<nat>, b: set<nat>)
    requires a <= b
    ensures |a| <= |b|
  {
    assert b == a + (b - a);
  }

  // ---- issue numbers -------------------------------------------------------

  predicate Space(c: char) { c == ' ' || c == '\t' || c == '\n' || c == '\r' }

  predicate IsDigit(c: char) { '0' <= c <= '9' }

  function StripLeft(s: string): string { if s != "" && Space(s[0]) then StripLeft(s[1..]) else s }

  function StripRight(s: string): string {
    if s != "" && Space(s[|s| - 1]) then StripRight(s[..|s| - 1]) else s
  }

  function Strip(s: string): string { StripRight(StripLeft(s)) }

  function DropHashes(s: string): string { if s != "" && s[0] == '#' then DropHashes(s[1..]) else s }

  function Lower(s: string): (r: string)
    ensures |r| == |s|
  {
    seq(|s|, i requires 0 <= i < |s| => if 'A' <= s[i] <= 'Z' then s[i] - 'A' + 'a' else s[i])
  }

  /** Zeros in front of another digit go. */
  function DropZeros(s: string): string {
    if |s| > 1 && s[0] == '0' && IsDigit(s[1]) then DropZeros(s[1..]) else s
  }

  function Normalize(number: string): string { DropZeros(Lower(Strip(DropHashes(Strip(number))))) }

  predicate All(s: string, what: char -> bool) { forall i :: 0 <= i < |s| ==> what(s[i]) }

  predicate Blanks(s: string) { All(s, Space) }

  predicate Hashes(s: string) { All(s, c => c == '#') }

  predicate Zeros(s: string) { All(s, c => c == '0') }

  predicate StartsWithDigit(s: string) { s != "" && IsDigit(s[0]) }

  /** " # 001", "#1", "01" and "1" are one number: in front of a digit any blanks, hashes, blanks and zeros
      change nothing. */
  lemma PaddingIsIgnored(b1: string, hashes: string, b2: string, zeros: string, s: string)
    requires Blanks(b1) && Hashes(hashes) && Blanks(b2) && Zeros(zeros) && StartsWithDigit(s)
    ensures Normalize(b1 + (hashes + (b2 + (zeros + s)))) == Normalize(s)
  {
    NormalizePadded(b1, hashes, b2, zeros + s);
    NormalizePadded("", "", "", s);
    assert "" + ("" + ("" + s)) == s;
    StripRightHead(zeros, s);
    LowerDigits(zeros, StripRight(s));
    ZerosDropped(zeros, Lower(StripRight(s)));
  }

  lemma NormalizePadded(b1: string, hashes: string, b2: string, t: string)
    requires Blanks(b1) && Hashes(hashes) && Blanks(b2) && StartsWithDigit(t)
    ensures Normalize(b1 + (hashes + (b2 + t))) == DropZeros(Lower(StripRight(t)))
  {
    Stripped(b1, hashes, b2, t);
  }

  lemma LowerDigits(zeros: string, s: string)
    requires Zeros(zeros)
    ensures Lower(zeros + s) == zeros + Lower(s)
  {}

  /** What is left of a padded text that starts with a digit. */
  lemma Stripped(b1: string, hashes: string, b2: string, t: string)
    requires Blanks(b1) && Hashes(hashes) && Blanks(b2) && StartsWithDigit(t)
    ensures Strip(DropHashes(Strip(b1 + (hashes + (b2 + t))))) == StripRight(t)
    ensures StartsWithDigit(StripRight(t))
  {
    var core := StripRight(t);
    StripRightHead("", t);
    assert "" + t == t && "" + core == core;
    StripLeftBlanks(b1, hashes + (b2 + t));
    if hashes == "" {
      assert hashes + (b2 + t) == b2 + t;
      StripLeftBlanks(b2, t);
      StrippedCore("", t);
      assert "" + core == core;
    } else {
      StripHashed(hashes, b2, t);
      StrippedCore(b2, t);
    }
  }

  lemma StrippedCore(blanks: string, t: string)
    requires Blanks(blanks) && StartsWithDigit(t)
    ensures StartsWithDigit(StripRight(t)) && DropHashes(StripRight(t)) == StripRight(t)
    ensures Strip(blanks + StripRight(t)) == StripRight(t)
  {
    var core := StripRight(t);
    StripRightHead("", t);
    assert "" + t == t && "" + core == core;
    StripRightDone(t);
    StripLeftBlanks(blanks, core);
  }

  lemma StripHashed(hashes: string, blanks: string, t: string)
    requires hashes != "" && Hashes(hashes) && Blanks(blanks) && StartsWithDigit(t)
    ensures DropHashes(Strip(hashes + (blanks + t))) == blanks + StripRight(t)
  {
    var core := StripRight(t);
    assert hashes[0] == '#' && StripLeft(hashes + (blanks + t)) == hashes + (blanks + t);
    SeqAssoc(hashes, blanks, t);
    StripRightHead(hashes + blanks, t);
    SeqAssoc(hashes, blanks, core);
    assert (blanks + core)[0] != '#';
    DropHashesAll(hashes, blanks + core);
  }

  lemma {:induction false} StripLeftBlanks(blanks: string, s: string)
    requires Blanks(blanks)
    ensures StripLeft(blanks + s) == StripLeft(s)
  {
    if blanks == "" {
      assert blanks + s == s;
    } else {
      assert (blanks + s)[1..] == blanks[1..] + s && Space(blanks[0]);
      StripLeftBlanks(blanks[1..], s);
    }
  }

  lemma {:induction false} DropHashesAll(hashes: string, s: string)
    requires Hashes(hashes) && s != "" && s[0] != '#'
    ensures DropHashes(hashes + s) == s
  {
    if hashes == "" {
      assert hashes + s == s;
    } else {
      assert (hashes + s)[1..] == hashes[1..] + s && hashes[0] == '#';
      DropHashesAll(hashes[1..], s);
    }
  }

  lemma {:induction false} ZerosDropped(zeros: string, s: string)
    requires Zeros(zeros) && StartsWithDigit(s)
    ensures DropZeros(zeros + s) == DropZeros(s)
  {
    if zeros == "" {
      assert zeros + s == s;
    } else {
      assert (zeros + s)[1..] == zeros[1..] + s && zeros[0] == '0';
      ZerosDropped(zeros[1..], s);
    }
  }

  /** A leading zero changes nothing exactly if another digit follows. */
  lemma ZeroDropped(t: string)
    ensures DropZeros(Lower("0" + t)) == DropZeros(Lower(t)) <==> t != "" && '0' <= t[0] <= '9'
  {
    assert Lower("0" + t) == "0" + Lower(t);
    assert ("0" + Lower(t))[1..] == Lower(t);
    if !StartsWithDigit(t) { assert DropZeros("0" + Lower(t)) == "0" + Lower(t) && DropZeros(Lower(t)) == Lower(t); }
  }

  lemma {:induction false} StripRightHead(head: string, s: string)
    requires s != "" && !Space(s[0])
    ensures StripRight(head + s) == head + StripRight(s)
    ensures StripRight(s) != "" && StripRight(s)[0] == s[0]
  {
    if Space(s[|s| - 1]) {
      assert |s| > 1;
      assert (head + s)[..|head + s| - 1] == head + s[..|s| - 1];
      StripRightHead(head, s[..|s| - 1]);
    }
  }

  lemma {:induction false} StripRightDone(s: string)
    ensures StripRight(StripRight(s)) == StripRight(s)
  {
    if s != "" && Space(s[|s| - 1]) { StripRightDone(s[..|s| - 1]); }
  }

  /** The two texts differ at most in the case of letters. */
  predicate SameButCase(s: string, t: string) {
    |s| == |t| && forall i :: 0 <= i < |s| ==> SameLetter(s[i], t[i]) || SameLetter(t[i], s[i])
  }

  /** `d` is `c`, or the small letter of the capital `c`. */
  predicate SameLetter(c: char, d: char) { c == d || ('A' <= c <= 'Z' && d == c - 'A' + 'a') }

  /** "1A" and "1a" are one number. */
  lemma CaseIsIgnored(s: string, t: string)
    requires SameButCase(s, t)
    ensures Normalize(s) == Normalize(t)
  {
    assert Lower(s) == Lower(t);
    NormalizeLower(s);
    NormalizeLower(t);
  }

  lemma NormalizeLower(s: string)
    ensures Normalize(s) == DropZeros(Strip(DropHashes(Strip(Lower(s)))))
  {
    LowerStrip(s);
    LowerDropHashes(Strip(s));
    LowerStrip(DropHashes(Strip(s)));
  }

  lemma LowerStrip(s: string)
    ensures Lower(Strip(s)) == Strip(Lower(s))
  {
    LowerStripLeft(s);
    LowerStripRight(StripLeft(s));
  }

  lemma {:induction false} LowerStripLeft(s: string)
    ensures Lower(StripLeft(s)) == StripLeft(Lower(s))
  {
    if s != "" {
      assert Lower(s)[1..] == Lower(s[1..]);
      LowerStripLeft(s[1..]);
    }
  }

  lemma {:induction false} LowerStripRight(s: string)
    ensures Lower(StripRight(s)) == StripRight(Lower(s))
  {
    if s != "" {
      assert Lower(s)[..|s| - 1] == Lower(s[..|s| - 1]);
      LowerStripRight(s[..|s| - 1]);
    }
  }

  lemma {:induction false} LowerDropHashes(s: string)
    ensures Lower(DropHashes(s)) == DropHashes(Lower(s))
  {
    if s != "" {
      assert Lower(s)[1..] == Lower(s[1..]);
      LowerDropHashes(s[1..]);
    }
  }

  /** A number as a catalogue prints it: no capitals, no blank or hash at the ends, no padding zero. */
  predicate Plain(s: string) {
    && s != "" && !Space(s[0]) && s[0] != '#' && !Space(s[|s| - 1])
    && (forall i :: 0 <= i < |s| ==> !('A' <= s[i] <= 'Z'))
    && (|s| > 1 && s[0] == '0' ==> !IsDigit(s[1]))
  }

  /** Plain numbers stay as they are, so different ones stay different. */
  lemma PlainStaysPlain(s: string)
    requires Plain(s)
    ensures Normalize(s) == s
  {
    assert StripLeft(s) == s && StripRight(s) == s && DropHashes(s) == s;
    assert Lower(s) == s;
  }

  // ---- the local list ------------------------------------------------------

  /** A page of a volume's list. */
  function Ask(up: seq<Issue>, v: nat, offset: nat, fate: Fate): Reply<Issue> {
    PageAt(OfVolume(up, v), offset, PAGE_SIZE, fate)
  }

  lemma AskIsUpstream(up: seq<Issue>, v: nat, offset: nat, fate: Fate)
    requires offset <= |OfVolume(up, v)| && Ask(up, v, offset, fate).Page?
    ensures var data, all := Ask(up, v, offset, fate), OfVolume(up, v);
            && data.total == |all| && offset + |data.results| == Min(offset + PAGE_SIZE, |all|)
            && all[..offset + |data.results|] == all[..offset] + data.results
            && (offset < |all| ==> data.results != [])
            && forall i :: i in data.results ==> i in up
  {
    forall i | i in Ask(up, v, offset, fate).results ensures i in up {
      assert i in OfVolume(up, v);
      OfVolumeMembers(up, v, i);
    }
  }

  datatype Refresh = Complete | Skipped | Refused

  /** Every stored issue is an upstream one. */
  ghost predicate Honest(up: seq<Issue>, issues: map<nat, Issue>) {
    forall id :: id in issues ==> issues[id] in up && issues[id].id == id
  }

  /** Every upstream issue of the volume is stored. */
  ghost predicate HasAll(up: seq<Issue>, issues: map<nat, Issue>, v: nat) {
    forall i :: i in up && i.volume == v ==> i.id in issues && issues[i.id] == i
  }

  lemma StillHasAll(up: seq<Issue>, before: map<nat, Issue>, after: map<nat, Issue>)
    requires forall id :: id in before ==> id in after && after[id] == before[id]
    ensures forall v :: HasAll(up, before, v) ==> HasAll(up, after, v)
  {}

  class VolumeCache {
    var issues: map<nat, Issue>
    var syncedAt: map<nat, int>
    var counts: map<nat, nat>   // count_of_issues of the stored volumes

    /** What every writer keeps: only upstream rows, a sync mark only on a whole volume, and counts as
        ComicVine reports them. */
    ghost predicate Valid(up: seq<Issue>)
      reads this
    {
      && Catalogue(up)
      && Honest(up, issues)
      && (forall v :: v in syncedAt ==> HasAll(up, issues, v))
      && (forall v :: v in counts ==> counts[v] == 0 || counts[v] == |OfVolume(up, v)|)
    }

    constructor ()
      ensures issues == map[] && syncedAt == map[] && counts == map[]
    { issues, syncedAt, counts := map[], map[], map[]; }

    function LocalIds(v: nat): set<nat>
      reads this
    { set id | id in issues && issues[id].volume == v }

    /** The local list of `v` can be trusted as complete at `now`. */
    predicate VolumeIssuesComplete(v: nat, now: int)
      reads this
    {
      Counted(v) || (v in syncedAt && syncedAt[v] > now - SYNC_TTL)
    }

    /** The volume is known and as many issues are stored as it has. */
    predicate Counted(v: nat)
      reads this
    {
      v in counts && counts[v] != 0 && |LocalIds(v)| >= counts[v]
    }

    /** A count makes a volume trusted exactly if every upstream issue of the volume is stored, and a sync
        mark does for 24 hours. */
    lemma TrustedExactly(up: seq<Issue>, v: nat, now: int)
      requires Valid(up)
      ensures VolumeIssuesComplete(v, now) <==>
        || (v in counts && counts[v] != 0 && HasAll(up, issues, v))
        || (v in syncedAt && now < syncedAt[v] + 86_400)
    {
      if v in counts && counts[v] != 0 && HasAll(up, issues, v) {
        var all := OfVolume(up, v);
        OfVolumeDistinct(up, v);
        DistinctIds(all);
        forall id | id in Ids(all) ensures id in LocalIds(v) {
          var i :| i in all && i.id == id;
          OfVolumeMembers(up, v, i);
        }
        SubsetSize(Ids(all), LocalIds(v));
      } else if Counted(v) {
        CountedIsWhole(up, v);
      }
    }

    /** Trust is deserved. */
    lemma TrustedIsWhole(up: seq<Issue>, v: nat, now: int)
      requires Valid(up) && VolumeIssuesComplete(v, now)
      ensures HasAll(up, issues, v)
    {
      if v !in syncedAt { CountedIsWhole(up, v); }
    }

    lemma CountedIsWhole(up: seq<Issue>, v: nat)
      requires Valid(up) && Counted(v)
      ensures HasAll(up, issues, v)
    {
      var all := OfVolume(up, v);
      OfVolumeDistinct(up, v);
      DistinctIds(all);
      forall id | id in LocalIds(v) ensures id in Ids(all) { OfVolumeMembers(up, v, issues[id]); }
      CountedPartIsWhole(LocalIds(v), Ids(all));
      forall i | i in up && i.volume == v ensures i.id in issues && issues[i.id] == i {
        OfVolumeMembers(up, v, i);
        assert i.id in LocalIds(v);
        SameId(up, i, issues[i.id]);
      }
    }

    /** Stores the issues of a page that are not stored yet. */
    method InsertNewIssues(up: seq<Issue>, page: seq<Issue>)
      requires Valid(up) && forall i :: i in page ==> i in up
      modifies this`issues
      ensures Valid(up)
      ensures forall id :: id in old(issues) ==> id in issues && issues[id] == old(issues)[id]
      ensures issues.Keys == old(issues).Keys + Ids(page)
    {
      var existing := issues.Keys;
      var k := 0;
      while k < |page|
        invariant 0 <= k <= |page| && Honest(up, issues)
        invariant forall id :: id in existing ==> id in issues && issues[id] == old(issues)[id]
        invariant issues.Keys == existing + Ids(page[..k])
      {
        assert page[k] in up;
        IdsNext(page, k);
        if page[k].id !in existing { issues := issues[page[k].id := page[k]]; }
        k := k + 1;
      }
      assert page[..k] == page;
      StillHasAll(up, old(issues), issues);
    }

    /** A volume response says how many issues the volume has. */
    method StoreCount(up: seq<Issue>, v: nat)
      requires Valid(up)
      modifies this`counts
      ensures Valid(up) && counts == old(counts)[v := |OfVolume(up, v)|]
    {
      counts := counts[v := |OfVolume(up, v)|];
    }

    /** One request for the list; a page that comes is stored. */
    method AskAndStore(up: seq<Issue>, v: nat, offset: nat, fate: Fate, ghost asked: nat, ghost before: set<nat>)
      returns (data: Reply<Issue>)
      requires Valid(up) && offset == Read(up, v, asked) && Got(issues.Keys, before, up, v, asked)
      modifies this`issues
      ensures Valid(up) && data == Ask(up, v, offset, fate)
      ensures forall id :: id in old(issues) ==> id in issues && issues[id] == old(issues)[id]
      ensures !data.Page? ==> issues == old(issues)
      ensures data.NotFound? ==> OfVolume(up, v) == []
      ensures data.Page? ==>
        && data.total == |OfVolume(up, v)| && offset + |data.results| == Read(up, v, asked + 1)
        && (offset < data.total ==> data.results != [])
      ensures Got(issues.Keys, before, up, v, if fate.Answer? then asked + 1 else asked)
    {
      data := Ask(up, v, offset, fate);
      if data.Page? {
        AskIsUpstream(up, v, offset, fate);
        ReadNext(up, v, asked);
        InsertNewIssues(up, data.results);
        IdsConcat(OfVolume(up, v)[..offset], data.results);
      }
    }

    /** The volume is whole: every issue ComicVine lists has been offered to the store. */
    method MarkSynced(up: seq<Issue>, v: nat, markTime: int)
      requires Valid(up) && Ids(OfVolume(up, v)) <= issues.Keys
      modifies this`syncedAt
      ensures Valid(up) && HasAll(up, issues, v) && syncedAt == old(syncedAt)[v := markTime]
    {
      AllIdsAreEnough(up, issues, v);
      syncedAt := syncedAt[v := markTime];
    }

    /** Pages through the list of a volume. `fate(n)` decides the n-th request; the first `asked` were
        answered, and what they brought is stored. */
    method FetchList(up: seq<Issue>, v: nat, fate: nat -> Fate) returns (r: Refresh, ghost asked: nat)
      requires Valid(up)
      modifies this`issues
      ensures Valid(up) && Answered(fate, asked)
      ensures forall id :: id in old(issues) ==> id in issues && issues[id] == old(issues)[id]
      ensures Got(issues.Keys, old(issues).Keys, up, v, asked)
      ensures r == Complete ==> Ids(OfVolume(up, v)) <= issues.Keys && |OfVolume(up, v)| <= 300
      ensures asked > 1 ==> (asked - 1) * 100 < |OfVolume(up, v)|
      ensures r == Refused ==> fate(asked).Refuse?
      ensures r == Skipped ==> fate(asked).Fail? || |OfVolume(up, v)| > REFRESH_MAX_ISSUES
    {
      NothingRead(up, v);
      asked := 0;
      var offset, n := 0, 0;
      while true
        invariant 0 <= offset == Read(up, v, n) && asked == n && Valid(up)
        invariant Answered(fate, n)
        invariant forall id :: id in old(issues) ==> id in issues && issues[id] == old(issues)[id]
        invariant Got(issues.Keys, old(issues).Keys, up, v, n)
        invariant n > 0 ==> n * 100 < |OfVolume(up, v)| <= 300
        decreases |OfVolume(up, v)| - offset
      {
        var data := AskAndStore(up, v, offset, fate(n), n, old(issues).Keys);
        if data.RateLimited? { return Refused, n; }
        if data.Error? { return Skipped, n; }
        n, asked := n + 1, n + 1;
        if data.NotFound? { break; }
        if data.total > REFRESH_MAX_ISSUES { return Skipped, n; }
        offset := offset + |data.results|;
        if data.results == [] || offset >= data.total { break; }
      }
      GotAll(issues.Keys, old(issues).Keys, up, v, n);
      r := Complete;
    }

    /** Makes sure the whole list of a volume is stored, unless it can be trusted already. */
    method RefreshVolumeIssues(up: seq<Issue>, v: nat, now: int, markTime: int, fate: nat -> Fate, ghost lock: Lock)
      returns (r: Refresh, ghost asked: nat)
      requires Valid(up)
      modifies this`issues, this`syncedAt
      ensures Valid(up) && Answered(fate, asked)
      ensures forall id :: id in old(issues) ==> id in issues && issues[id] == old(issues)[id]
      ensures Got(issues.Keys, old(issues).Keys, up, v, asked)
      ensures r == Complete ==> HasAll(up, issues, v)
      ensures r == Complete && !old(VolumeIssuesComplete(v, now)) ==> |OfVolume(up, v)| <= 300
      ensures syncedAt == if r == Complete && !old(VolumeIssuesComplete(v, now))
                          then old(syncedAt)[v := markTime] else old(syncedAt)
      ensures old(VolumeIssuesComplete(v, now)) ==> r == Complete && asked == 0
      ensures r == Refused ==> fate(asked).Refuse?
      ensures r == Skipped ==> fate(asked).Fail? || |OfVolume(up, v)| > REFRESH_MAX_ISSUES
      // for the lock of the volume it is one Acquire and, unless the list is trusted, one Mark or GiveUp
      ensures lock.holder.None? && lock.now <= now <= markTime && lock.syncedAt == MarkOf(old(syncedAt), v) ==>
        var turns := RefreshTurns(now, old(Counted(v)), old(VolumeIssuesComplete(v, now)), r, markTime);
        LegalTurns(lock, turns) && TakeAll(lock, turns).syncedAt == MarkOf(syncedAt, v)
    {
      NothingRead(up, v);
      if lock.holder.None? && lock.now <= now <= markTime && lock.syncedAt == MarkOf(syncedAt, v) {
        var trusted := VolumeIssuesComplete(v, now);
        forall result
          ensures var turns := RefreshTurns(now, Counted(v), trusted, result, markTime);
                  && LegalTurns(lock, turns)
                  && TakeAll(lock, turns).syncedAt
                       == MarkOf(if result == Complete && !trusted then syncedAt[v := markTime] else syncedAt, v)
        { RefreshIsTurns(lock, syncedAt, v, now, Counted(v), result, markTime); }
      }
      if VolumeIssuesComplete(v, now) {
        TrustedIsWhole(up, v, now);
        return Complete, 0;
      }
      if v in counts && counts[v] > REFRESH_MAX_ISSUES { return Skipped, 0; }
      r, asked := FetchList(up, v, fate);
      if r == Complete { MarkSynced(up, v, markTime); }
    }
  }

  /** How many of a volume's issues the first `asked` pages hold. */
  function Read(up: seq<Issue>, v: nat, asked: nat): (k: nat)
    ensures k <= |OfVolume(up, v)|
  {
    Min(asked * PAGE_SIZE, |OfVolume(up, v)|)
  }

  /** Besides `before`, exactly the issues of the first `asked` pages are stored. */
  ghost predicate Got(keys: set<nat>, before: set<nat>, up: seq<Issue>, v: nat, asked: nat) {
    keys == before + Ids(OfVolume(up, v)[..Read(up, v, asked)])
  }

  lemma GotAll(keys: set<nat>, before: set<nat>, up: seq<Issue>, v: nat, asked: nat)
    requires Got(keys, before, up, v, asked) && Read(up, v, asked) == |OfVolume(up, v)|
    ensures Ids(OfVolume(up, v)) <= keys
  {
    assert OfVolume(up, v)[..|OfVolume(up, v)|] == OfVolume(up, v);
  }

  lemma ReadNext(up: seq<Issue>, v: nat, asked: nat)
    ensures Read(up, v, asked + 1) == Min(Read(up, v, asked) + PAGE_SIZE, |OfVolume(up, v)|)
  {}

  lemma NothingRead(up: seq<Issue>, v: nat)
    ensures Read(up, v, 0) == 0 && forall keys :: Got(keys, keys, up, v, 0)
  {
    assert Ids(OfVolume(up, v)[..0]) == {};
  }

  lemma IdsConcat(a: seq<Issue>, b: seq<Issue>)
    ensures Ids(a + b) == Ids(a) + Ids(b)
  {
    forall id | id in Ids(a) + Ids(b) ensures id in Ids(a + b) {
      var i :| (i in a || i in b) && i.id == id;
      assert i in a + b;
    }
  }

  lemma IdsNext(page: seq<Issue>, k: nat)
    requires k < |page|
    ensures Ids(page[..k + 1]) == Ids(page[..k]) + {page[k].id}
  {
    assert page[..k + 1] == page[..k] + [page[k]];
    IdsConcat(page[..k], [page[k]]);
    assert page[k] in [page[k]];
  }

  lemma AllIdsAreEnough(up: seq<Issue>, issues: map<nat, Issue>, v: nat)
    requires Catalogue(up) && Honest(up, issues) && Ids(OfVolume(up, v)) <= issues.Keys
    ensures HasAll(up, issues, v)
  {
    forall i | i in up && i.volume == v ensures i.id in issues && issues[i.id] == i {
      OfVolumeMembers(up, v, i);
      assert i.id in Ids(OfVolume(up, v));
      SameId(up, i, issues[i.id]);
    }
  }

  lemma SameId(up: seq<Issue>, a: Issue, b: Issue)
    requires Catalogue(up) && a in up && b in up && a.id == b.id
    ensures a == b
  {
    var i :| 0 <= i < |up| && up[i] == a;
    var j :| 0 <= j < |up| && up[j] == b;
    assert i == j;
  }

  // ---- the local answer ----------------------------------------------------

  /** `rows` lists the stored issues of `v` once each, in whatever order the query gives them. */
  ghost predicate Lists(rows: seq<Issue>, issues: map<nat, Issue>, v: nat) {
    && Distinct(rows)
    && (forall i :: i in rows <==> i.id in issues && issues[i.id] == i && i.volume == v)
  }

  predicate Matches(i: Issue, number: Option<string>) {
    number.None? || Normalize(i.number) == Normalize(number.value)
  }

  function Matching(rows: seq<Issue>, number: Option<string>): (r: seq<Issue>)
    ensures forall i :: i in r <==> i in rows && Matches(i, number)
  {
    if rows == [] then []
    else if Matches(rows[0], number) then [rows[0]] + Matching(rows[1..], number)
    else Matching(rows[1..], number)
  }

  /** `get_volume_issues(limit=10_000)`, then the number filter. */
  function LocalAnswer(rows: seq<Issue>, number: Option<string>): seq<Issue> {
    Matching(rows[..Min(LISTING_LIMIT, |rows|)], number)
  }

  /** The answer keeps the order of the listing and every row that matches, as often as it is listed. */
  lemma {:induction false} MatchingInOrder(a: seq<Issue>, b: seq<Issue>, number: Option<string>, i: Issue)
    ensures Matching(a + b, number) == Matching(a, number) + Matching(b, number)
    ensures Matching([i], number) == if Matches(i, number) then [i] else []
  {
    if a == [] {
      assert a + b == b;
    } else {
      assert (a + b)[0] == a[0] && (a + b)[1..] == a[1..] + b;
      MatchingInOrder(a[1..], b, number, i);
    }
  }

  lemma WholeListing(up: seq<Issue>, issues: map<nat, Issue>, v: nat, rows: seq<Issue>)
    requires Catalogue(up) && Honest(up, issues) && HasAll(up, issues, v) && Lists(rows, issues, v)
    ensures forall i :: i in rows <==> i in up && i.volume == v
    ensures |rows| == |OfVolume(up, v)|
  {
    var all := OfVolume(up, v);
    forall i ensures i in rows <==> i in all { OfVolumeMembers(up, v, i); }
    forall i ensures i in rows <==> i in up && i.volume == v { OfVolumeMembers(up, v, i); }
    OfVolumeDistinct(up, v);
    DistinctIds(all);
    DistinctIds(rows);
    assert Ids(rows) == Ids(all);
  }

  /** For a volume the cache holds whole, the local answer to a volume or volume-and-number lookup is
      exactly the upstream issues with that number, if and only if none of them is cut off by the listing
      limit. */
  lemma LocalAnswerIsUpstream(up: seq<Issue>, issues: map<nat, Issue>, v: nat, rows: seq<Issue>, number: Option<string>)
    requires Catalogue(up) && Honest(up, issues) && HasAll(up, issues, v) && Lists(rows, issues, v)
    ensures (forall i :: i in LocalAnswer(rows, number) <==> i in up && i.volume == v && Matches(i, number))
       <==> forall k :: LISTING_LIMIT <= k < |rows| ==> !Matches(rows[k], number)
    ensures |OfVolume(up, v)| == |rows|
  {
    WholeListing(up, issues, v, rows);
    var kept := rows[..Min(LISTING_LIMIT, |rows|)];
    forall k | LISTING_LIMIT <= k < |rows| ensures rows[k] in rows && rows[k] !in kept {}
    forall j | 0 <= j < |kept| ensures rows[j] in kept { assert kept[j] == rows[j]; }
    forall i | i in rows && i !in kept ensures exists k :: LISTING_LIMIT <= k < |rows| && rows[k] == i {
      var k :| 0 <= k < |rows| && rows[k] == i;
    }
  }

  /** A volume with `n` issues, all of number 1. */
  function Crowd(n: nat): seq<Issue> { seq(n, i requires 0 <= i < n => Issue(i + 1, 1, "1")) }

  function Stored(n: nat): map<nat, Issue> { map id: nat | 1 <= id <= n :: Issue(id, 1, "1") }

  lemma CrowdIsListed(n: nat)
    ensures Catalogue(Crowd(n)) && Honest(Crowd(n), Stored(n)) && HasAll(Crowd(n), Stored(n), 1)
    ensures Lists(Crowd(n), Stored(n), 1)
  {
    var up, issues := Crowd(n), Stored(n);
    forall id | id in issues ensures issues[id] in up { assert up[id - 1] == issues[id]; }
    forall i | i in up ensures i.id in issues && issues[i.id] == i && i.volume == 1 {
      var k :| 0 <= k < n && up[k] == i;
    }
  }

  /** With more than 10,000 issues stored and trusted, the lookup of number 1, like the one without a
      number, misses a matching issue. */
  lemma CutIssueIsMissed(n: nat)
    requires n > LISTING_LIMIT
    ensures var up, issues := Crowd(n), Stored(n);
            && Catalogue(up) && Honest(up, issues) && HasAll(up, issues, 1) && Lists(up, issues, 1)
            && up[LISTING_LIMIT] in up && Matches(up[LISTING_LIMIT], Some("1"))
            && up[LISTING_LIMIT] !in LocalAnswer(up, Some("1")) && up[LISTING_LIMIT] !in LocalAnswer(up, None)
  {
    CrowdIsListed(n);
    var kept := Crowd(n)[..LISTING_LIMIT];
    forall k | 0 <= k < |kept| ensures kept[k] != Crowd(n)[LISTING_LIMIT] {
      assert kept[k].id == k + 1;
    }
  }

  /** Without a number the answer is complete exactly if the volume has at most 10,000 issues. */
  lemma WholeVolumeAnswerExact(up: seq<Issue>, issues: map<nat, Issue>, v: nat, rows: seq<Issue>)
    requires Catalogue(up) && Honest(up, issues) && HasAll(up, issues, v) && Lists(rows, issues, v)
    ensures (forall i :: i in LocalAnswer(rows, None) <==> i in up && i.volume == v)
       <==> |OfVolume(up, v)| <= LISTING_LIMIT
  {
    LocalAnswerIsUpstream(up, issues, v, rows, None);
    if |rows| > LISTING_LIMIT { assert Matches(rows[LISTING_LIMIT], None); }
    assert forall i :: Matches(i, None);
  }

  // ---- concurrent refreshes of one volume ----------------------------------

  /** The lock's holder (with the time of its check), the sync mark, the clock, and the times of all
      refreshes that were marked. */
  datatype Lock = Lock(holder: Option<int>, syncedAt: Option<int>, now: int, marks: seq<int>)

  datatype Turn =
    | Acquire(at: int, counted: bool)  // takes the lock and checks; `counted`: complete by its count
    | Mark(at: int)                    // every page arrived
    | GiveUp(at: int)                  // refused, failed or too large

  predicate LegalTurn(s: Lock, t: Turn) {
    s.now <= t.at && (t.Acquire? <==> s.holder.None?)
  }

  function Take(s: Lock, t: Turn): Lock {
    match t
    case Acquire(at, counted) =>
      if counted || (s.syncedAt.Some? && s.syncedAt.value > at - SYNC_TTL) then s.(now := at)
      else s.(now := at, holder := Some(at))
    case Mark(at) => Lock(None, Some(at), at, s.marks + [at])
    case GiveUp(at) => s.(now := at, holder := None)
  }

  ghost predicate LockInv(s: Lock) {
    && (forall i :: 0 <= i < |s.marks| ==> s.marks[i] <= s.now)
    && (forall i, j :: 0 <= i < j < |s.marks| ==> s.marks[j] - s.marks[i] >= SYNC_TTL)
    && s.syncedAt == (if s.marks == [] then None else Some(s.marks[|s.marks| - 1]))
    && (s.holder.Some? ==> s.holder.value <= s.now)
    && (s.holder.Some? ==> forall i :: 0 <= i < |s.marks| ==> s.marks[i] <= s.holder.value - SYNC_TTL)
  }

  predicate LegalTurns(s: Lock, ts: seq<Turn>)
    decreases |ts|
  {
    ts == [] || (LegalTurn(s, ts[0]) && LegalTurns(Take(s, ts[0]), ts[1..]))
  }

  function TakeAll(s: Lock, ts: seq<Turn>): Lock
    decreases |ts|
  {
    if ts == [] then s else TakeAll(Take(s, ts[0]), ts[1..])
  }

  lemma {:induction false} TurnsKeepInv(s: Lock, ts: seq<Turn>)
    requires LockInv(s) && LegalTurns(s, ts)
    ensures LockInv(TakeAll(s, ts))
    decreases |ts|
  {
    if ts != [] { TurnsKeepInv(Take(s, ts[0]), ts[1..]); }
  }

  /** The sync mark of one volume. */
  function MarkOf(syncedAt: map<nat, int>, v: nat): Option<int> {
    if v in syncedAt then Some(syncedAt[v]) else None
  }

  /** The turns of one refresh that checks at `now`: it holds the lock until it marks or gives up, unless
      the list can be trusted already. */
  function RefreshTurns(now: int, counted: bool, trusted: bool, r: Refresh, end: int): seq<Turn> {
    [Acquire(now, counted)] + if trusted then [] else if r == Complete then [Mark(end)] else [GiveUp(end)]
  }

  /** What `VolumeCache.RefreshVolumeIssues` ensures about the sync mark is those turns. */
  lemma RefreshIsTurns(s: Lock, before: map<nat, int>, v: nat, now: int, counted: bool, r: Refresh, end: int)
    requires s.holder.None? && s.now <= now <= end && s.syncedAt == MarkOf(before, v)
    ensures var trusted := counted || (v in before && before[v] > now - SYNC_TTL);
            var turns := RefreshTurns(now, counted, trusted, r, end);
            && LegalTurns(s, turns)
            && var s' := TakeAll(s, turns);
            && s'.holder.None?
            && s'.syncedAt == MarkOf(if r == Complete && !trusted then before[v := end] else before, v)
            && s'.marks == s.marks + if r == Complete && !trusted then [end] else []
  {
    var trusted := counted || (v in before && before[v] > now - SYNC_TTL);
    var turns := RefreshTurns(now, counted, trusted, r, end);
    var s1 := Take(s, Acquire(now, counted));
    if trusted {
      assert turns == [Acquire(now, counted)] && turns[1..] == [];
      assert TakeAll(s, turns) == TakeAll(s1, []) == s1;
    } else {
      var last := if r == Complete then Mark(end) else GiveUp(end);
      assert turns == [Acquire(now, counted), last] && turns[1..] == [last] && [last][1..] == [];
      assert TakeAll(s, turns) == TakeAll(s1, [last]) == TakeAll(Take(s1, last), []) == Take(s1, last);
    }
  }

  /** However many requests ask for one volume at once, successful refreshes are a TTL apart. */
  lemma OneRefreshPerTtl(now: int, ts: seq<Turn>, i: nat, j: nat)
    requires LegalTurns(Lock(None, None, now, []), ts)
    requires i < j < |TakeAll(Lock(None, None, now, []), ts).marks|
    ensures var marks := TakeAll(Lock(None, None, now, []), ts).marks; marks[j] - marks[i] >= SYNC_TTL
  {
    TurnsKeepInv(Lock(None, None, now, []), ts);
  }
}
