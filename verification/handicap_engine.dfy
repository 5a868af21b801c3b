/**
 * The handicap engine of the golf card: per-round handicap differentials,
 * the newest-first ordering of rounds, and the handicap summary (the
 * qualification tier, the 20 most recent rounds, the best 8 differentials,
 * and their mean scaled by 0.96 and rounded to one decimal place).
 *
 * Numbers are exact reals; `Math.round(x)` is `Floor(x + 0.5)`.
 */
module HandicapEngine {
  import opened Wrappers
  import opened GolfTypes

  const DefaultSlope: real := 113.0
  const DefaultCourseRating: real := 72.0
  const HandicapDifferentialFactor: real := 0.96

  /** Rounds counted towards the handicap: the most recent 20. */
  const WindowSize: nat := 20
  /** Differentials averaged: the best 8 of the window. */
  const BestCount: nat := 8
  /** Round counts at which the handicap becomes official, resp. initial. */
  const OfficialMinimum: nat := 20
  const InitialMinimum: nat := 5

  function Min(a: nat, b: nat): nat {
    if a <= b then a else b
  }

  // ---------------------------------------------------------------------------
  // Per-round differential

  /** `v || d` for an optional number: absent and zero both fall back to `d`. */
  function OrDefault(v: Option<real>, d: real): real {
    if v.None? || v.value == 0.0 then d else v.value
  }

  /** A nine-hole score is doubled to stand for eighteen holes. */
  function AdjustedScore(p: GolfRoundProperties): real {
    if p.holes == "9" then p.score * 2.0 else p.score
  }

  function EffectiveSlope(p: GolfRoundProperties): real {
    OrDefault(p.slope, DefaultSlope)
  }

  function EffectiveRating(p: GolfRoundProperties): real {
    OrDefault(p.courseRating, DefaultCourseRating)
  }

  /**
   * The handicap differential of one round: how far the adjusted score is
   * above the course rating, scaled to a course of average slope.
   */
  function CalculateHandicapDifferential(r: GolfRound): (d: real)
    ensures d * EffectiveSlope(r.properties)
         == (AdjustedScore(r.properties) - EffectiveRating(r.properties)) * DefaultSlope
    ensures EffectiveSlope(r.properties) > 0.0 ==>
              (d > 0.0 <==> AdjustedScore(r.properties) > EffectiveRating(r.properties))
  {
    var p := r.properties;
    (AdjustedScore(p) - EffectiveRating(p)) * (DefaultSlope / EffectiveSlope(p))
  }

  /** A nine-hole round counts exactly like an eighteen-hole round of twice the score. */
  lemma NineHoleScoreDoubled(r: GolfRound)
    requires r.properties.holes == "9"
    ensures CalculateHandicapDifferential(r)
         == CalculateHandicapDifferential(
              r.(properties := r.properties.(holes := "18", score := 2.0 * r.properties.score)))
  {
  }

  /** Any other `holes` value leaves the score as it is. */
  lemma OtherHolesScoreUnchanged(r: GolfRound)
    requires r.properties.holes != "9"
    ensures AdjustedScore(r.properties) == r.properties.score
  {
  }

  /** A round with no (or zero) slope and course rating is scored against 113 and 72. */
  lemma DefaultsApplied(r: GolfRound)
    requires r.properties.slope.None? || r.properties.slope.value == 0.0
    requires r.properties.courseRating.None? || r.properties.courseRating.value == 0.0
    ensures CalculateHandicapDifferential(r) == AdjustedScore(r.properties) - 72.0
  {
  }

  // ---------------------------------------------------------------------------
  // Newest-first ordering of rounds

  function DateOf(r: GolfRound): int {
    r.properties.date
  }

  predicate NewestFirst(s: seq<GolfRound>) {
    forall i, j :: 0 <= i < j < |s| ==> DateOf(s[i]) >= DateOf(s[j])
  }

  /** Inserts `x` before the first round of `s` that is not newer than it. */
  function InsertByDate(x: GolfRound, s: seq<GolfRound>): (r: seq<GolfRound>)
    requires NewestFirst(s)
    ensures NewestFirst(r)
    ensures multiset(r) == multiset(s) + multiset{x}
    ensures |r| == |s| + 1
    ensures r[0] == x || (|s| > 0 && r[0] == s[0])
  {
    if |s| == 0 || DateOf(x) >= DateOf(s[0]) then
      [x] + s
    else
      assert s == [s[0]] + s[1..];
      [s[0]] + InsertByDate(x, s[1..])
  }

  /**
   * `sortGolfRoundsByDate`: the same rounds, newest first. Rounds of the same
   * day keep their input order (`SortIsStable`), as the stable sort of the
   * source does.
   */
  function SortGolfRoundsByDate(rounds: seq<GolfRound>): (r: seq<GolfRound>)
    ensures NewestFirst(r)
    ensures multiset(r) == multiset(rounds)
    ensures |r| == |rounds|
  {
    if |rounds| == 0 then []
    else
      assert rounds == [rounds[0]] + rounds[1..];
      InsertByDate(rounds[0], SortGolfRoundsByDate(rounds[1..]))
  }

  /** Rounds already newest first are left exactly as they are. */
  lemma {:induction false} SortKeepsSorted(rounds: seq<GolfRound>)
    requires NewestFirst(rounds)
    ensures SortGolfRoundsByDate(rounds) == rounds
  {
    if |rounds| > 0 {
      assert NewestFirst(rounds[1..]);
      SortKeepsSorted(rounds[1..]);
      assert rounds == [rounds[0]] + rounds[1..];
    }
  }

  /** The rounds of `s` played on day `d`, in their order in `s`. */
  function OnDay(s: seq<GolfRound>, d: int): seq<GolfRound> {
    if |s| == 0 then []
    else (if DateOf(s[0]) == d then [s[0]] else []) + OnDay(s[1..], d)
  }

  /** Inserting `x` puts it ahead of every round of its own day already there. */
  lemma {:induction false} InsertKeepsDays(x: GolfRound, s: seq<GolfRound>, d: int)
    requires NewestFirst(s)
    ensures OnDay(InsertByDate(x, s), d) == (if DateOf(x) == d then [x] else []) + OnDay(s, d)
    decreases |s|
  {
    if |s| == 0 || DateOf(x) >= DateOf(s[0]) {
      OnDayCons(x, s, d);
    } else {
      InsertPastHead(x, s);
      var rest := InsertByDate(x, s[1..]);
      InsertKeepsDays(x, s[1..], d);
      OnDayCons(s[0], rest, d);
      var own := if DateOf(x) == d then [x] else [];
      var head := if DateOf(s[0]) == d then [s[0]] else [];
      assert DateOf(x) == d ==> head == [];
      assert OnDay(InsertByDate(x, s), d) == head + (own + OnDay(s[1..], d));
      assert OnDay(s, d) == head + OnDay(s[1..], d);
      AppendAssoc(head, own, OnDay(s[1..], d));
      AppendAssoc(own, head, OnDay(s[1..], d));
    }
  }

  lemma OnDayCons(x: GolfRound, s: seq<GolfRound>, d: int)
    ensures OnDay([x] + s, d) == (if DateOf(x) == d then [x] else []) + OnDay(s, d)
  {
    assert ([x] + s)[1..] == s;
  }

  /**
   * The sort is stable: the rounds of each day come out in the order they
   * came in, so which of several same-day rounds falls out of the window is
   * decided by the input order.
   */
  lemma {:induction false} SortIsStable(rounds: seq<GolfRound>, d: int)
    ensures OnDay(SortGolfRoundsByDate(rounds), d) == OnDay(rounds, d)
    decreases |rounds|
  {
    if |rounds| > 0 {
      SortIsStable(rounds[1..], d);
      InsertKeepsDays(rounds[0], SortGolfRoundsByDate(rounds[1..]), d);
    }
  }

  /** The newest round sorts first: no round is newer than it. */
  lemma NewestIsFirst(rounds: seq<GolfRound>)
    requires |rounds| > 0
    ensures var s := SortGolfRoundsByDate(rounds);
            s[0] in rounds && forall r :: r in rounds ==> DateOf(r) <= DateOf(s[0])
  {
    var s := SortGolfRoundsByDate(rounds);
    SameElements(s, rounds);
    assert s[0] in s;
    forall r | r in rounds
      ensures DateOf(r) <= DateOf(s[0])
    {
      var k :| 0 <= k < |s| && s[k] == r;
    }
  }

  function Last20Rounds(rounds: seq<GolfRound>): (w: seq<GolfRound>)
    ensures |w| == Min(WindowSize, |rounds|)
    ensures NewestFirst(w)
    ensures multiset(w) <= multiset(rounds)
    ensures forall x, y :: x in multiset(rounds) - multiset(w) && y in w ==> DateOf(x) <= DateOf(y)
  {
    var s := SortGolfRoundsByDate(rounds);
    PrefixNewerThanRest(s, Min(WindowSize, |s|));
    s[..Min(WindowSize, |s|)]
  }

  /** In a newest-first sequence, every round of a prefix is at least as new as every round after it. */
  lemma PrefixNewerThanRest(s: seq<GolfRound>, k: nat)
    requires NewestFirst(s) && k <= |s|
    ensures multiset(s[..k]) <= multiset(s)
    ensures forall x, y :: x in multiset(s) - multiset(s[..k]) && y in s[..k] ==> DateOf(x) <= DateOf(y)
  {
    var front, back := s[..k], s[k..];
    assert multiset(s) == multiset(front) + multiset(back) by {
      assert s == front + back;
    }
    forall x, y | x in back && y in front
      ensures DateOf(x) <= DateOf(y)
    {
      var j :| 0 <= j < |back| && back[j] == x;
      var i :| 0 <= i < k && front[i] == y;
      assert s[k + j] == x && s[i] == y;
    }
    assert forall x :: x in multiset(s) - multiset(front) ==> x in back;
  }

  // ---------------------------------------------------------------------------
  // Best differentials

  function Differentials(w: seq<GolfRound>): (ds: seq<real>)
    ensures |ds| == |w|
    ensures forall i :: 0 <= i < |w| ==> ds[i] == CalculateHandicapDifferential(w[i])
  {
    if |w| == 0 then [] else [CalculateHandicapDifferential(w[0])] + Differentials(w[1..])
  }

  predicate Ascending(s: seq<real>) {
    forall i, j :: 0 <= i < j < |s| ==> s[i] <= s[j]
  }

  function InsertAscending(x: real, s: seq<real>): (r: seq<real>)
    requires Ascending(s)
    ensures Ascending(r)
    ensures multiset(r) == multiset(s) + multiset{x}
    ensures |r| == |s| + 1
    ensures r[0] == x || (|s| > 0 && r[0] == s[0])
  {
    if |s| == 0 || x <= s[0] then
      [x] + s
    else
      assert s == [s[0]] + s[1..];
      [s[0]] + InsertAscending(x, s[1..])
  }

  /** The differentials in ascending order (best first). */
  function SortAscending(ds: seq<real>): (r: seq<real>)
    ensures Ascending(r)
    ensures multiset(r) == multiset(ds)
    ensures |r| == |ds|
  {
    if |ds| == 0 then []
    else
      assert ds == [ds[0]] + ds[1..];
      InsertAscending(ds[0], SortAscending(ds[1..]))
  }

  /**
   * The best (lowest) eight differentials: as many as there are, up to
   * eight, each no greater than any differential left out.
   */
  function BestDifferentials(ds: seq<real>): (sel: seq<real>)
    ensures |sel| == Min(BestCount, |ds|)
    ensures multiset(sel) <= multiset(ds)
    ensures forall i, y :: 0 <= i < |sel| && y in multiset(ds) - multiset(sel) ==> sel[i] <= y
    ensures |ds| <= BestCount ==> multiset(sel) == multiset(ds)
  {
    var s := SortAscending(ds);
    var k := Min(BestCount, |s|);
    PrefixBelowRest(s, k);
    assert k == |s| ==> s[..k] == s;
    s[..k]
  }

  /** In an ascending sequence, every element of a prefix is at most every element after it. */
  lemma PrefixBelowRest(s: seq<real>, k: nat)
    requires Ascending(s) && k <= |s|
    ensures multiset(s[..k]) <= multiset(s)
    ensures forall i, y :: 0 <= i < k && y in multiset(s) - multiset(s[..k]) ==> s[i] <= y
  {
    assert s == s[..k] + s[k..];
    assert multiset(s) - multiset(s[..k]) == multiset(s[k..]);
    forall i, y | 0 <= i < k && y in multiset(s[k..])
      ensures s[i] <= y
    {
      var j :| 0 <= j < |s[k..]| && s[k..][j] == y;
      assert s[k + j] == y;
    }
  }

  // ---------------------------------------------------------------------------
  // Averaging and rounding

  function Sum(ds: seq<real>): real {
    if |ds| == 0 then 0.0 else ds[0] + Sum(ds[1..])
  }

  /** `x` is a whole number of tenths. */
  predicate IsTenth(x: real) {
    (x * 10.0).Floor as real == x * 10.0
  }

  /** `Math.round(x * 10) / 10`: the nearest tenth, halves rounded up. */
  function RoundToTenth(x: real): (r: real)
    ensures x - 0.05 < r <= x + 0.05
    ensures IsTenth(r)
  {
    ((x * 10.0 + 0.5).Floor as real) / 10.0
  }

  /**
   * A multiple of a tenth within half a tenth of `x` (the upper end
   * included) is the rounded value: the contract of `RoundToTenth` pins it.
   */
  lemma RoundToTenthUnique(x: real, y: real)
    requires IsTenth(y)
    requires x - 0.05 < y <= x + 0.05
    ensures y == RoundToTenth(x)
  {
    var n := (y * 10.0).Floor;
    assert n as real <= x * 10.0 + 0.5 < n as real + 1.0;
    assert (x * 10.0 + 0.5).Floor == n;
  }

  /** The differentials averaged: the best eight of the twenty most recent rounds. */
  function BestOf(rounds: seq<GolfRound>): (best: seq<real>)
    ensures |best| == Min(BestCount, Min(WindowSize, |rounds|))
  {
    BestDifferentials(Differentials(Last20Rounds(rounds)))
  }

  /**
   * `calculateHandicap`. The tier is decided by the number of rounds; the
   * value by the best eight differentials of the twenty most recent rounds.
   */
  function CalculateHandicap(rounds: seq<GolfRound>): (res: HandicapResult)
    ensures res.official <==> |rounds| >= OfficialMinimum
    ensures res.initial <==> InitialMinimum <= |rounds| < OfficialMinimum
    ensures !(res.official && res.initial)
    ensures res.handicap.None? <==> |rounds| == 0
    ensures |rounds| > 0 ==> IsTenth(res.handicap.value)
    ensures |rounds| > 0 ==> |BestOf(rounds)| > 0
    ensures |rounds| > 0 ==>
              ScaledMean(BestOf(rounds)) - 0.05 < res.handicap.value <= ScaledMean(BestOf(rounds)) + 0.05
  {
    var official := |rounds| >= OfficialMinimum;
    var initial := !official && |rounds| >= InitialMinimum;
    HandicapResult(official, initial, HandicapIndex(BestOf(rounds)))
  }

  /**
   * The mean of the selected differentials times 0.96, rounded to the
   * nearest tenth; None (NaN) when nothing is selected.
   */
  function HandicapIndex(best: seq<real>): (h: Option<real>)
    ensures h.None? <==> |best| == 0
    ensures h.Some? ==> IsTenth(h.value)
    ensures h.Some? ==> ScaledMean(best) - 0.05 < h.value <= ScaledMean(best) + 0.05
  {
    if |best| == 0 then None
    else Some(RoundToTenth(ScaledMean(best)))
  }

  /** The mean of the selected differentials times 0.96, before rounding. */
  function ScaledMean(best: seq<real>): real
    requires |best| > 0
  {
    Sum(best) / (|best| as real) * HandicapDifferentialFactor
  }

  /**
   * The handicap of a non-empty list of rounds is 0.96 times the mean of
   * the best differentials, rounded half up to a tenth.
   */
  lemma HandicapIsRoundedScaledMean(rounds: seq<GolfRound>)
    requires |rounds| > 0
    ensures CalculateHandicap(rounds).handicap == Some(RoundToTenth(ScaledMean(BestOf(rounds))))
  {
    RoundToTenthUnique(ScaledMean(BestOf(rounds)), CalculateHandicap(rounds).handicap.value);
  }

  // ---------------------------------------------------------------------------
  // Sequence facts

  /** Splitting a sequence around position `k`. */
  lemma RemoveAt<T>(b: seq<T>, k: nat)
    requires k < |b|
    ensures b == b[..k] + [b[k]] + b[k + 1..]
    ensures multiset(b[..k] + b[k + 1..]) == multiset(b) - multiset{b[k]}
  {
    assert b == b[..k] + [b[k]] + b[k + 1..];
  }

  /** Dropping the head of a sequence. */
  lemma DropHead<T>(a: seq<T>)
    requires |a| > 0
    ensures a == [a[0]] + a[1..]
    ensures multiset(a[1..]) == multiset(a) - multiset{a[0]}
  {
    assert a == [a[0]] + a[1..];
  }

  /** Sequences with the same multiset hold the same elements. */
  lemma SameElements<T>(a: seq<T>, b: seq<T>)
    requires multiset(a) == multiset(b)
    ensures forall x :: x in a <==> x in b
  {
    forall x
      ensures x in a <==> x in b
    {
      assert x in a <==> x in multiset(a);
      assert x in b <==> x in multiset(b);
    }
  }

  // ---------------------------------------------------------------------------
  // Only the twenty most recent rounds count

  /** The tail of a newest-first list is newest first. */
  lemma NewestFirstTail(s: seq<GolfRound>)
    requires |s| > 0 && NewestFirst(s)
    ensures NewestFirst(s[1..])
  {
    assert forall i :: 0 <= i < |s| - 1 ==> s[1..][i] == s[i + 1];
  }

  /** A round older than the head of a newest-first list is inserted into its tail. */
  lemma InsertPastHead(x: GolfRound, s: seq<GolfRound>)
    requires |s| > 0 && NewestFirst(s) && DateOf(x) < DateOf(s[0])
    ensures NewestFirst(s[1..])
    ensures InsertByDate(x, s) == [s[0]] + InsertByDate(x, s[1..])
  {
    NewestFirstTail(s);
  }

  /** Inserting a round that is not older than anything in `b` leaves `b` at the end. */
  lemma {:induction false} InsertBeforeOlder(x: GolfRound, a: seq<GolfRound>, b: seq<GolfRound>)
    requires NewestFirst(a + b)
    requires NewestFirst(a)
    requires forall y :: y in b ==> DateOf(y) < DateOf(x)
    ensures InsertByDate(x, a + b) == InsertByDate(x, a) + b
    decreases |a|
  {
    if |a| == 0 {
      assert a + b == b;
      InsertIntoOlder(x, b);
    } else if DateOf(x) < DateOf(a[0]) {
      InsertPastCommonHead(x, a, b);
      InsertBeforeOlder(x, a[1..], b);
      AppendAssoc([a[0]], InsertByDate(x, a[1..]), b);
    } else {
      InsertAtCommonHead(x, a, b);
    }
  }

  /** A round not older than the common head of `a` and `a + b` goes in front of both. */
  lemma InsertAtCommonHead(x: GolfRound, a: seq<GolfRound>, b: seq<GolfRound>)
    requires |a| > 0 && NewestFirst(a + b) && NewestFirst(a) && DateOf(x) >= DateOf(a[0])
    ensures InsertByDate(x, a + b) == InsertByDate(x, a) + b
  {
    assert (a + b)[0] == a[0];
    assert InsertByDate(x, a + b) == [x] + (a + b);
    AppendAssoc([x], a, b);
  }

  /** A round newer than everything in a newest-first list goes in front of it. */
  lemma InsertIntoOlder(x: GolfRound, b: seq<GolfRound>)
    requires NewestFirst(b)
    requires forall y :: y in b ==> DateOf(y) < DateOf(x)
    ensures InsertByDate(x, b) == [x] + b
  {
    if |b| > 0 {
      assert b[0] in b;
    }
  }

  /** Inserting past the common head of `a` and `a + b` continues in their tails. */
  lemma InsertPastCommonHead(x: GolfRound, a: seq<GolfRound>, b: seq<GolfRound>)
    requires |a| > 0 && NewestFirst(a + b) && NewestFirst(a) && DateOf(x) < DateOf(a[0])
    ensures NewestFirst(a[1..] + b) && NewestFirst(a[1..])
    ensures InsertByDate(x, a + b) == [a[0]] + InsertByDate(x, a[1..] + b)
    ensures InsertByDate(x, a) == [a[0]] + InsertByDate(x, a[1..])
  {
    var ab := a + b;
    assert ab[0] == a[0];
    assert ab[1..] == a[1..] + b;
    InsertPastHead(x, ab);
    InsertPastHead(x, a);
  }

  lemma AppendAssoc<T>(p: seq<T>, q: seq<T>, r: seq<T>)
    ensures p + (q + r) == (p + q) + r
  {
  }

  /** The rounds of `s` newer than day `d`, in their order in `s`. */
  function NewerThan(s: seq<GolfRound>, d: int): (r: seq<GolfRound>)
    ensures forall y :: y in r ==> DateOf(y) > d
    ensures |r| <= |s|
  {
    if |s| == 0 then []
    else (if DateOf(s[0]) > d then [s[0]] else []) + NewerThan(s[1..], d)
  }

  /** The rounds of `s` played on day `d` or before, in their order in `s`. */
  function NotNewerThan(s: seq<GolfRound>, d: int): (r: seq<GolfRound>)
    ensures forall y :: y in r ==> DateOf(y) <= d
    ensures |r| + |NewerThan(s, d)| == |s|
  {
    if |s| == 0 then []
    else (if DateOf(s[0]) <= d then [s[0]] else []) + NotNewerThan(s[1..], d)
  }

  /** A round older than everything in `a` is inserted past all of `a`. */
  lemma {:induction false} InsertAfterNewer(x: GolfRound, a: seq<GolfRound>, b: seq<GolfRound>)
    requires NewestFirst(a + b) && NewestFirst(b)
    requires forall y :: y in a ==> DateOf(x) < DateOf(y)
    ensures InsertByDate(x, a + b) == a + InsertByDate(x, b)
    decreases |a|
  {
    if |a| == 0 {
      assert a + b == b;
    } else {
      var ab := a + b;
      assert ab[0] == a[0];
      assert ab[1..] == a[1..] + b;
      assert a[0] in a;
      InsertPastHead(x, ab);
      assert forall y :: y in a[1..] ==> y in a;
      InsertAfterNewer(x, a[1..], b);
      AppendAssoc([a[0]], a[1..], InsertByDate(x, b));
      assert [a[0]] + a[1..] == a;
    }
  }

  /**
   * Sorting any input gives the rounds newer than day `d`, sorted, followed
   * by the others, sorted: the two groups never interleave.
   */
  lemma {:induction false} SortSplitsAtDay(zs: seq<GolfRound>, d: int)
    ensures SortGolfRoundsByDate(zs) == SortGolfRoundsByDate(NewerThan(zs, d)) + SortGolfRoundsByDate(NotNewerThan(zs, d))
    decreases |zs|
  {
    if |zs| > 0 {
      SortSplitsAtDay(zs[1..], d);
      if DateOf(zs[0]) > d {
        SplitNewerHead(zs, d);
      } else {
        SplitOlderHead(zs, d);
      }
    }
  }

  /** One step of `SortSplitsAtDay` when the head is newer than `d`. */
  lemma SplitNewerHead(zs: seq<GolfRound>, d: int)
    requires |zs| > 0 && DateOf(zs[0]) > d
    requires SortGolfRoundsByDate(zs[1..])
          == SortGolfRoundsByDate(NewerThan(zs[1..], d)) + SortGolfRoundsByDate(NotNewerThan(zs[1..], d))
    ensures SortGolfRoundsByDate(zs) == SortGolfRoundsByDate(NewerThan(zs, d)) + SortGolfRoundsByDate(NotNewerThan(zs, d))
  {
    var z, n, o := zs[0], NewerThan(zs[1..], d), NotNewerThan(zs[1..], d);
    var sn, so := SortGolfRoundsByDate(n), SortGolfRoundsByDate(o);
    assert SortGolfRoundsByDate(zs) == InsertByDate(z, sn + so) by {
      SortHead(zs);
    }
    assert InsertByDate(z, sn + so) == InsertByDate(z, sn) + so by {
      SameElements(so, o);
      InsertBeforeOlder(z, sn, so);
    }
    assert NewerThan(zs, d) == [z] + n && NotNewerThan(zs, d) == o by {
      assert NotNewerThan(zs, d) == [] + o;
    }
    SortCons(z, n);
  }

  /** One step of `SortSplitsAtDay` when the head is `d` or older. */
  lemma SplitOlderHead(zs: seq<GolfRound>, d: int)
    requires |zs| > 0 && DateOf(zs[0]) <= d
    requires SortGolfRoundsByDate(zs[1..])
          == SortGolfRoundsByDate(NewerThan(zs[1..], d)) + SortGolfRoundsByDate(NotNewerThan(zs[1..], d))
    ensures SortGolfRoundsByDate(zs) == SortGolfRoundsByDate(NewerThan(zs, d)) + SortGolfRoundsByDate(NotNewerThan(zs, d))
  {
    var z, n, o := zs[0], NewerThan(zs[1..], d), NotNewerThan(zs[1..], d);
    var sn, so := SortGolfRoundsByDate(n), SortGolfRoundsByDate(o);
    assert SortGolfRoundsByDate(zs) == InsertByDate(z, sn + so) by {
      SortHead(zs);
    }
    assert InsertByDate(z, sn + so) == sn + InsertByDate(z, so) by {
      SameElements(sn, n);
      InsertAfterNewer(z, sn, so);
    }
    assert NewerThan(zs, d) == n && NotNewerThan(zs, d) == [z] + o by {
      assert NewerThan(zs, d) == [] + n;
    }
    SortCons(z, o);
  }

  /** The sort inserts the head of its input into the sorted rest. */
  lemma SortHead(zs: seq<GolfRound>)
    requires |zs| > 0
    ensures SortGolfRoundsByDate(zs) == InsertByDate(zs[0], SortGolfRoundsByDate(zs[1..]))
  {
  }

  lemma SortCons(z: GolfRound, s: seq<GolfRound>)
    ensures SortGolfRoundsByDate([z] + s) == InsertByDate(z, SortGolfRoundsByDate(s))
  {
    assert ([z] + s)[1..] == s;
  }

  /**
   * With at least twenty rounds newer than day `d`, the rounds of day `d`
   * and before change nothing, wherever they stand in the input and however
   * low their differentials are.
   */
  lemma OlderRoundsIgnored(zs: seq<GolfRound>, d: int)
    requires |NewerThan(zs, d)| >= WindowSize
    ensures CalculateHandicap(zs) == CalculateHandicap(NewerThan(zs, d))
  {
    WindowIgnoresOlder(zs, d);
    SameWindowSameResult(zs, NewerThan(zs, d));
  }

  /** The window of `OlderRoundsIgnored`: the twenty newest of the rounds newer than `d`. */
  lemma WindowIgnoresOlder(zs: seq<GolfRound>, d: int)
    requires |NewerThan(zs, d)| >= WindowSize
    ensures Last20Rounds(zs) == Last20Rounds(NewerThan(zs, d))
  {
    SortSplitsAtDay(zs, d);
    var s := SortGolfRoundsByDate(NewerThan(zs, d));
    var t := SortGolfRoundsByDate(NotNewerThan(zs, d));
    WindowIsSortedPrefix(zs);
    WindowIsSortedPrefix(NewerThan(zs, d));
    PrefixOfAppend(s, t, WindowSize);
  }

  /** The window is the first twenty rounds of the sorted input. */
  lemma WindowIsSortedPrefix(rounds: seq<GolfRound>)
    ensures Last20Rounds(rounds) == SortGolfRoundsByDate(rounds)[..Min(WindowSize, |rounds|)]
  {
  }

  lemma PrefixOfAppend<T>(s: seq<T>, t: seq<T>, k: nat)
    requires k <= |s|
    ensures (s + t)[..k] == s[..k]
  {
  }

  /** The result depends only on the tier the round count falls in and on the window. */
  lemma SameWindowSameResult(xs: seq<GolfRound>, ys: seq<GolfRound>)
    requires Last20Rounds(xs) == Last20Rounds(ys)
    requires |xs| >= OfficialMinimum <==> |ys| >= OfficialMinimum
    requires |xs| >= InitialMinimum <==> |ys| >= InitialMinimum
    ensures CalculateHandicap(xs) == CalculateHandicap(ys)
  {
  }

  // ---------------------------------------------------------------------------
  // Up to twenty rounds, the input order does not matter

  /** Two ascending sequences with the same elements are the same sequence. */
  lemma {:induction false} AscendingUnique(p: seq<real>, q: seq<real>)
    requires Ascending(p) && Ascending(q)
    requires multiset(p) == multiset(q)
    ensures p == q
    decreases |p|
  {
    assert |p| == |multiset(p)| == |multiset(q)| == |q|;
    if |p| > 0 {
      HeadIsLeast(p, q[0]);
      HeadIsLeast(q, p[0]);
      var head := p[0];
      assert q[0] == head;
      DropHead(p);
      DropHead(q);
      var rest := multiset(p) - multiset{head};
      assert multiset(p[1..]) == rest;
      assert multiset(q[1..]) == rest;
      AscendingTail(p);
      AscendingTail(q);
      AscendingUnique(p[1..], q[1..]);
    }
  }

  /** The head of an ascending sequence is no greater than any of its elements. */
  lemma HeadIsLeast(s: seq<real>, x: real)
    requires Ascending(s) && x in multiset(s)
    ensures s[0] <= x
  {
    assert x in s;
    var k :| 0 <= k < |s| && s[k] == x;
  }

  lemma AscendingTail(s: seq<real>)
    requires |s| > 0 && Ascending(s)
    ensures Ascending(s[1..])
  {
    assert forall i :: 0 <= i < |s| - 1 ==> s[1..][i] == s[i + 1];
  }

  lemma {:induction false} DifferentialsAppend(a: seq<GolfRound>, b: seq<GolfRound>)
    ensures Differentials(a + b) == Differentials(a) + Differentials(b)
  {
    var whole, parts := Differentials(a + b), Differentials(a) + Differentials(b);
    forall i | 0 <= i < |whole|
      ensures whole[i] == parts[i]
    {
      if i < |a| {
        assert (a + b)[i] == a[i];
      } else {
        assert (a + b)[i] == b[i - |a|];
      }
    }
  }

  /** Rearranging rounds rearranges their differentials the same way. */
  lemma {:induction false} DifferentialsPermutation(a: seq<GolfRound>, b: seq<GolfRound>)
    requires multiset(a) == multiset(b)
    ensures multiset(Differentials(a)) == multiset(Differentials(b))
    decreases |a|
  {
    assert |a| == |multiset(a)| == |multiset(b)| == |b|;
    if |a| > 0 {
      var x := a[0];
      assert x in multiset(b);
      var k :| 0 <= k < |b| && b[k] == x;
      var rest := b[..k] + b[k + 1..];
      RemoveAt(b, k);
      DropHead(a);
      var others := multiset(a) - multiset{x};
      assert multiset(a[1..]) == others;
      assert multiset(rest) == others;
      DifferentialsPermutation(a[1..], rest);
      DifferentialsWithout(b, k);
      DifferentialsWithout(a, 0);
      assert a[..0] + a[1..] == a[1..];
    }
  }

  /** The differentials of `b` are those of `b` without position `k`, plus that round's. */
  lemma DifferentialsWithout(b: seq<GolfRound>, k: nat)
    requires k < |b|
    ensures multiset(Differentials(b))
         == multiset(Differentials(b[..k] + b[k + 1..])) + multiset{CalculateHandicapDifferential(b[k])}
  {
    RemoveAt(b, k);
    DifferentialsAppend(b[..k] + [b[k]], b[k + 1..]);
    DifferentialsAppend(b[..k], [b[k]]);
    DifferentialsAppend(b[..k], b[k + 1..]);
    var d0, d1 := Differentials(b[..k]), Differentials(b[k + 1..]);
    var dk := CalculateHandicapDifferential(b[k]);
    assert Differentials([b[k]]) == [dk];
    assert Differentials(b) == d0 + [dk] + d1;
    assert multiset(d0 + [dk] + d1) == multiset(d0 + d1) + multiset{dk};
  }

  /** The result depends only on the tier and on the differentials of the window, in any order. */
  lemma SameDifferentialsSameResult(xs: seq<GolfRound>, ys: seq<GolfRound>)
    requires multiset(Differentials(Last20Rounds(xs))) == multiset(Differentials(Last20Rounds(ys)))
    requires |xs| >= OfficialMinimum <==> |ys| >= OfficialMinimum
    requires |xs| >= InitialMinimum <==> |ys| >= InitialMinimum
    ensures CalculateHandicap(xs) == CalculateHandicap(ys)
  {
    SameBest(Differentials(Last20Rounds(xs)), Differentials(Last20Rounds(ys)));
    SameBestSameResult(xs, ys);
  }

  lemma SameBestSameResult(xs: seq<GolfRound>, ys: seq<GolfRound>)
    requires BestOf(xs) == BestOf(ys)
    requires |xs| >= OfficialMinimum <==> |ys| >= OfficialMinimum
    requires |xs| >= InitialMinimum <==> |ys| >= InitialMinimum
    ensures CalculateHandicap(xs) == CalculateHandicap(ys)
  {
  }

  /** The best differentials depend only on the differentials present, not their order. */
  lemma SameBest(dx: seq<real>, dy: seq<real>)
    requires multiset(dx) == multiset(dy)
    ensures BestDifferentials(dx) == BestDifferentials(dy)
  {
    AscendingUnique(SortAscending(dx), SortAscending(dy));
  }

  /** For at most twenty rounds the handicap does not depend on the order they come in. */
  lemma OrderIndependent(xs: seq<GolfRound>, ys: seq<GolfRound>)
    requires |xs| <= WindowSize
    requires multiset(xs) == multiset(ys)
    ensures CalculateHandicap(xs) == CalculateHandicap(ys)
  {
    assert |xs| == |multiset(xs)| == |multiset(ys)| == |ys|;
    var sx := SortGolfRoundsByDate(xs);
    var sy := SortGolfRoundsByDate(ys);
    assert Last20Rounds(xs) == sx[..|sx|] == sx;
    assert Last20Rounds(ys) == sy[..|sy|] == sy;
    DifferentialsPermutation(sx, sy);
    SameDifferentialsSameResult(xs, ys);
  }

  // ---------------------------------------------------------------------------
  // Value of the handicap

  lemma {:induction false} SumAppend(a: seq<real>, b: seq<real>)
    ensures Sum(a + b) == Sum(a) + Sum(b)
    decreases |a|
  {
    if |a| > 0 {
      assert (a + b)[1..] == a[1..] + b;
      SumAppend(a[1..], b);
    } else {
      assert a + b == b;
    }
  }

  /** The sum does not depend on the order of the summands. */
  lemma {:induction false} SumPermutation(a: seq<real>, b: seq<real>)
    requires multiset(a) == multiset(b)
    ensures Sum(a) == Sum(b)
    decreases |a|
  {
    assert |a| == |multiset(a)| == |multiset(b)| == |b|;
    if |a| > 0 {
      assert a[0] in multiset(b);
      var k :| 0 <= k < |b| && b[k] == a[0];
      var rest := b[..k] + b[k + 1..];
      RemoveAt(b, k);
      DropHead(a);
      SumPermutation(a[1..], rest);
      SumAppend(b[..k] + [b[k]], b[k + 1..]);
      SumAppend(b[..k], [b[k]]);
      SumAppend(b[..k], b[k + 1..]);
    }
  }

  /** The handicap index depends only on which differentials are selected, not their order. */
  lemma HandicapIndexPermutation(a: seq<real>, b: seq<real>)
    requires multiset(a) == multiset(b)
    ensures HandicapIndex(a) == HandicapIndex(b)
  {
    assert |a| == |multiset(a)| == |multiset(b)| == |b|;
    SumPermutation(a, b);
    if |a| > 0 {
      var n := |a| as real;
      assert Sum(a) / n * HandicapDifferentialFactor == Sum(b) / n * HandicapDifferentialFactor;
    }
  }

  /**
   * With one to eight rounds every round is used: the handicap is the
   * rounded 0.96 times the mean differential of all of them, in any order.
   */
  lemma FewRoundsUseAll(rounds: seq<GolfRound>)
    requires |rounds| <= BestCount
    ensures CalculateHandicap(rounds).handicap == HandicapIndex(Differentials(rounds))
  {
    var s := SortGolfRoundsByDate(rounds);
    assert Last20Rounds(rounds) == s[..|s|] == s;
    DifferentialsPermutation(s, rounds);
    HandicapIndexPermutation(BestOf(rounds), Differentials(rounds));
  }

  lemma {:induction false} SumBounds(ds: seq<real>, lo: real, hi: real)
    requires forall i :: 0 <= i < |ds| ==> lo <= ds[i] <= hi
    ensures (|ds| as real) * lo <= Sum(ds) <= (|ds| as real) * hi
    decreases |ds|
  {
    if |ds| > 0 {
      SumBounds(ds[1..], lo, hi);
    }
  }

  /** A mean lies between the bounds of what it averages. */
  lemma MeanBounds(total: real, n: real, lo: real, hi: real)
    requires n > 0.0
    requires n * lo <= total <= n * hi
    ensures lo <= total / n <= hi
  {
    var m := total / n;
    assert m * n == total;
    assert (m - lo) * n >= 0.0;
    assert (hi - m) * n >= 0.0;
  }

  /** The handicap index of differentials within [lo, hi] is within rounding distance of [0.96 lo, 0.96 hi]. */
  lemma HandicapIndexBounded(best: seq<real>, lo: real, hi: real)
    requires |best| > 0
    requires forall i :: 0 <= i < |best| ==> lo <= best[i] <= hi
    ensures HandicapDifferentialFactor * lo - 0.05 < HandicapIndex(best).value <= HandicapDifferentialFactor * hi + 0.05
  {
    SumBounds(best, lo, hi);
    MeanBounds(Sum(best), |best| as real, lo, hi);
  }

  /**
   * When every round's differential lies in [lo, hi], the handicap lies
   * within rounding distance of [0.96 lo, 0.96 hi].
   */
  lemma HandicapBounded(rounds: seq<GolfRound>, lo: real, hi: real)
    requires |rounds| > 0
    requires forall r :: r in rounds ==> lo <= CalculateHandicapDifferential(r) <= hi
    ensures HandicapDifferentialFactor * lo - 0.05 < CalculateHandicap(rounds).handicap.value
                                                 <= HandicapDifferentialFactor * hi + 0.05
  {
    var ds := Differentials(Last20Rounds(rounds));
    var best := BestDifferentials(ds);
    assert |ds| > 0;
    assert |best| > 0;
    WindowBounded(rounds, lo, hi);
    SelectionBounded(ds, lo, hi);
    HandicapIndexBounded(best, lo, hi);
    assert CalculateHandicap(rounds).handicap == HandicapIndex(BestDifferentials(ds));
  }

  /** Bounds on every round's differential hold for the window's differentials. */
  lemma WindowBounded(rounds: seq<GolfRound>, lo: real, hi: real)
    requires forall r :: r in rounds ==> lo <= CalculateHandicapDifferential(r) <= hi
    ensures forall i :: 0 <= i < |Differentials(Last20Rounds(rounds))| ==>
              lo <= Differentials(Last20Rounds(rounds))[i] <= hi
  {
    var w := Last20Rounds(rounds);
    var ds := Differentials(w);
    forall i | 0 <= i < |ds|
      ensures lo <= ds[i] <= hi
    {
      assert w[i] in multiset(w);
      assert w[i] in multiset(rounds);
    }
  }

  /** Bounds on the differentials hold for the selected ones. */
  lemma SelectionBounded(ds: seq<real>, lo: real, hi: real)
    requires forall i :: 0 <= i < |ds| ==> lo <= ds[i] <= hi
    ensures forall i :: 0 <= i < |BestDifferentials(ds)| ==> lo <= BestDifferentials(ds)[i] <= hi
  {
    var best := BestDifferentials(ds);
    forall i | 0 <= i < |best|
      ensures lo <= best[i] <= hi
    {
      assert best[i] in multiset(best);
      assert best[i] in multiset(ds);
      var k :| 0 <= k < |ds| && ds[k] == best[i];
    }
  }
}
