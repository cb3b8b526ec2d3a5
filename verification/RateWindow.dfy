/** Sequences of call times and how many of them fall into a window. */
module RateWindow {
  const HOUR := 3600.0

  ghost predicate Sorted(s: seq<real>) {
    forall i, j :: 0 <= i < j < |s| ==> s[i] <= s[j]
  }

  ghost predicate NoneAfter(s: seq<real>, t: real) {
    forall i :: 0 <= i < |s| ==> s[i] <= t
  }

  /** The stamps later than `cutoff`, in their order. */
  function After(s: seq<real>, cutoff: real): (r: seq<real>)
    ensures |r| <= |s|
  {
    if s == [] then []
    else if cutoff < s[0] then [s[0]] + After(s[1..], cutoff)
    else After(s[1..], cutoff)
  }

  lemma {:induction false} AfterMember(s: seq<real>, cutoff: real, x: real)
    ensures x in After(s, cutoff) <==> x in s && cutoff < x
  {
    if s != [] { AfterMember(s[1..], cutoff, x); }
  }

  /** Every later stamp is kept as often as it occurs, and nothing else. */
  lemma {:induction false} AfterMultiplicity(s: seq<real>, cutoff: real, x: real)
    ensures multiset(After(s, cutoff))[x] == if cutoff < x then multiset(s)[x] else 0
  {
    if s != [] {
      AfterMultiplicity(s[1..], cutoff, x);
      assert s == [s[0]] + s[1..];
    }
  }

  /** How many stamps are not yet an hour old at `t`. */
  function ActiveCalls(s: seq<real>, t: real): nat { |set i | 0 <= i < |s| && t < s[i] + HOUR| }

  lemma {:induction false} AfterCounts(s: seq<real>, t: real)
    ensures |After(s, t - HOUR)| == ActiveCalls(s, t)
  {
    if s != [] {
      var init, last := s[..|s| - 1], s[|s| - 1];
      AfterCounts(init, t);
      assert s == init + [last];
      AfterConcat(init, [last], t - HOUR);
      var all, most := (set i | 0 <= i < |s| && t < s[i] + HOUR), (set i | 0 <= i < |init| && t < init[i] + HOUR);
      assert all == most + if t < last + HOUR then {|s| - 1} else {};
    }
  }

  /** What is left once the front of the deque has been popped while it is not later than `cutoff`. */
  function Pruned(s: seq<real>, cutoff: real): (r: seq<real>)
    ensures r == [] || cutoff < r[0]
  {
    if s == [] || cutoff < s[0] then s else Pruned(s[1..], cutoff)
  }

  lemma {:induction false} AfterIsSuffix(s: seq<real>, cutoff: real) returns (k: nat)
    requires Sorted(s)
    ensures k <= |s| && After(s, cutoff) == s[k..] == Pruned(s, cutoff)
    ensures Sorted(After(s, cutoff))
    ensures forall i :: 0 <= i < k ==> s[i] <= cutoff
    ensures forall i :: k <= i < |s| ==> cutoff < s[i]
  {
    if s == [] {
      k := 0;
    } else if cutoff < s[0] {
      var j := AfterIsSuffix(s[1..], cutoff);
      k := 0;
      assert j == 0 by { assert |s| > 1 ==> s[1..][0] == s[1]; }
      assert s == [s[0]] + s[1..];
    } else {
      var j := AfterIsSuffix(s[1..], cutoff);
      k := j + 1;
      assert s[1..][j..] == s[k..];
      forall i | 0 <= i < k ensures s[i] <= cutoff {
        if i > 0 { assert s[i] == s[1..][i - 1]; }
      }
      forall i | k <= i < |s| ensures cutoff < s[i] {
        assert s[i] == s[1..][i - 1];
      }
    }
  }

  lemma {:induction false} AfterAfter(s: seq<real>, c: real, d: real)
    requires c <= d
    ensures After(After(s, c), d) == After(s, d)
  {
    if s != [] {
      AfterAfter(s[1..], c, d);
      if c < s[0] {
        var r := After(s[1..], c);
        assert After(s, c) == [s[0]] + r;
        assert ([s[0]] + r)[1..] == r && ([s[0]] + r)[0] == s[0];
      }
    }
  }

  lemma {:induction false} AfterConcat(s: seq<real>, t: seq<real>, c: real)
    ensures After(s + t, c) == After(s, c) + After(t, c)
  {
    if s == [] {
      assert s + t == t;
    } else {
      AfterConcat(s[1..], t, c);
      assert (s + t)[1..] == s[1..] + t && (s + t)[0] == s[0];
      assert [s[0]] + (After(s[1..], c) + After(t, c)) == ([s[0]] + After(s[1..], c)) + After(t, c);
    }
  }

  lemma {:induction false} AfterNone(s: seq<real>, c: real)
    requires NoneAfter(s, c)
    ensures After(s, c) == []
  {
    if s != [] {
      assert s[0] <= c;
      AfterNone(s[1..], c);
    }
  }

  /** Agreement beyond one cutoff is agreement beyond every later one. */
  lemma AgreeLater(s: seq<real>, t: seq<real>, c: real, d: real)
    requires After(s, c) == After(t, c) && c <= d
    ensures After(s, d) == After(t, d)
  {
    AfterAfter(s, c, d);
    AfterAfter(t, c, d);
  }

  /** Pruning one side and appending to both keeps the agreement. */
  lemma AgreeAppend(s: seq<real>, t: seq<real>, x: seq<real>, c: real, d: real)
    requires After(s, c) == After(t, c) && c <= d
    ensures After(After(s, c) + x, d) == After(t + x, d)
  {
    AgreeLater(s, t, c, d);
    AfterAfter(s, c, d);
    AfterConcat(After(s, c), x, d);
    AfterConcat(t, x, d);
  }

  /** A stable insertion sort, for a list read from a file that need not be in order. */
  function Insert(x: real, s: seq<real>): (r: seq<real>)
    ensures multiset(r) == multiset{x} + multiset(s)
  {
    if s == [] || x <= s[0] then [x] + s
    else
      assert s == [s[0]] + s[1..];
      [s[0]] + Insert(x, s[1..])
  }

  function SortReals(s: seq<real>): (r: seq<real>)
    ensures multiset(r) == multiset(s)
  {
    if s == [] then []
    else
      assert s == [s[0]] + s[1..];
      Insert(s[0], SortReals(s[1..]))
  }

  lemma {:induction false} InsertSorted(x: real, s: seq<real>)
    requires Sorted(s)
    ensures Sorted(Insert(x, s))
  {
    if s != [] && s[0] < x {
      InsertSorted(x, s[1..]);
      var r := Insert(x, s[1..]);
      forall i | 0 <= i < |r| ensures s[0] <= r[i] {
        assert r[i] in multiset(r);
        assert r[i] == x || r[i] in s[1..];
      }
    }
  }

  lemma {:induction false} SortedAfterSort(s: seq<real>)
    ensures Sorted(SortReals(s))
    ensures Sorted(s) ==> SortReals(s) == s
  {
    if s != [] {
      SortedAfterSort(s[1..]);
      InsertSorted(s[0], SortReals(s[1..]));
    }
  }

  // ---- granted slots -------------------------------------------------------

  /** Who asked for an hourly slot: the classes of callers differ in what they check first. */
  datatype Caller = Backfill | Pending | Live | Direct

  /** One hourly slot handed out, on the window named `key`. */
  datatype Grant = Grant(at: real, key: string, who: Caller)

  const EVERYONE: set<Caller> := {Backfill, Pending, Live, Direct}

  /** Slots of `key` handed to callers in `who` at a time in (lo, hi]. */
  function Count(h: seq<Grant>, key: string, who: set<Caller>, lo: real, hi: real): nat {
    if h == [] then 0
    else
      var g := h[|h| - 1];
      Count(h[..|h| - 1], key, who, lo, hi)
      + if g.key == key && g.who in who && lo < g.at <= hi then 1 else 0
  }

  function Stamps(h: seq<Grant>, key: string): seq<real> {
    if h == [] then []
    else
      var g := h[|h| - 1];
      Stamps(h[..|h| - 1], key) + if g.key == key then [g.at] else []
  }

  lemma CountAppend(h: seq<Grant>, g: Grant, key: string, who: set<Caller>, lo: real, hi: real)
    ensures Count(h + [g], key, who, lo, hi) == Count(h, key, who, lo, hi)
      + if g.key == key && g.who in who && lo < g.at <= hi then 1 else 0
  {
    assert (h + [g])[..|h|] == h;
  }

  lemma StampsAppend(h: seq<Grant>, g: Grant, key: string)
    ensures Stamps(h + [g], key) == Stamps(h, key) + if g.key == key then [g.at] else []
  {
    assert (h + [g])[..|h|] == h;
  }

  /** A larger class of callers and a wider window count at least as much. */
  lemma {:induction false} CountMonotone(h: seq<Grant>, key: string, who: set<Caller>, all: set<Caller>,
                                         lo: real, hi: real, lo': real, hi': real)
    requires who <= all && lo' <= lo
    requires forall g :: g in h && g.at <= hi ==> g.at <= hi'
    ensures Count(h, key, who, lo, hi) <= Count(h, key, all, lo', hi')
  {
    if h != [] { CountMonotone(h[..|h| - 1], key, who, all, lo, hi, lo', hi'); }
  }

  /** Counting every caller up to a time no grant exceeds is measuring the active stamps. */
  lemma {:induction false} CountIsActive(h: seq<Grant>, key: string, lo: real, hi: real)
    requires forall g :: g in h ==> g.at <= hi
    ensures Count(h, key, EVERYONE, lo, hi) == |After(Stamps(h, key), lo)|
  {
    if h != [] {
      var g := h[|h| - 1];
      assert g in h;
      assert g.who in EVERYONE by {
        match g.who { case Backfill => case Pending => case Live => case Direct => }
      }
      CountIsActive(h[..|h| - 1], key, lo, hi);
      var last := if g.key == key then [g.at] else [];
      AfterConcat(Stamps(h[..|h| - 1], key), last, lo);
      assert After(last, lo) == if g.key == key && lo < g.at then [g.at] else [];
    }
  }

  lemma {:induction false} StampsBounded(h: seq<Grant>, key: string, t: real)
    requires forall g :: g in h ==> g.at <= t
    ensures NoneAfter(Stamps(h, key), t)
  {
    if h != [] { StampsBounded(h[..|h| - 1], key, t); }
  }

  lemma {:induction false} StampsSplit(h: seq<Grant>, n: nat, key: string)
    requires n <= |h|
    ensures Stamps(h, key) == Stamps(h[..n], key) + Stamps(h[n..], key)
  {
    if n == |h| {
      assert h[..n] == h && h[n..] == [];
    } else {
      var p := h[..|h| - 1];
      StampsSplit(p, n, key);
      assert p[..n] == h[..n];
      assert h[n..][..|h[n..]| - 1] == p[n..];
    }
  }

  lemma {:induction false} StampMember(h: seq<Grant>, i: nat)
    requires i < |h|
    ensures h[i].at in Stamps(h, h[i].key)
  {
    if i < |h| - 1 {
      StampMember(h[..|h| - 1], i);
      assert h[..|h| - 1][i] == h[i];
    }
  }
}
