/**
 * The handicap card: which label and warning it shows for a handicap
 * summary, the possessive form of the player's name, the sign put in front
 * of the handicap, and which round it reports as the latest.
 */
module HandicapCard {
  import opened Wrappers
  import opened Strings
  import opened GolfTypes
  import HandicapEngine

  /** `renderPlayerName`: a name ending in "s" takes "'", any other "'s"; no name gives "Player's". */
  function PlayerName(firstname: Option<string>): (r: string)
    ensures firstname.None? || firstname == Some("") ==> r == "Player's"
    ensures Truthy(firstname) && EndsWith(firstname.value, "s") ==> r == firstname.value + "'"
    ensures Truthy(firstname) && !EndsWith(firstname.value, "s") ==> r == firstname.value + "'s"
  {
    match firstname
    case Some(name) =>
      if name == "" then "Player's"
      else if name[|name| - 1] == 's' then name + "'" else name + "'s"
    case None => "Player's"
  }


  /** The possessive always ends in an apostrophe or in "'s", and starts with the name. */
  lemma PossessiveShape(firstname: Option<string>)
    ensures var r := PlayerName(firstname);
            EndsWith(r, "'") || EndsWith(r, "'s")
    ensures Truthy(firstname) ==> StartsWith(PlayerName(firstname), firstname.value)
  {
    var r := PlayerName(firstname);
    assert r[|r| - 1] == '\'' || r[|r| - 2..] == "'s";
    if Truthy(firstname) {
      StartsWithAppend(firstname.value, r[|firstname.value|..]);
    }
  }

  /**
   * The sign shown before the handicap: "-" for a value above zero, "+"
   * otherwise, zero included. A handicap that is NaN (None) compares false
   * and so also gets "+".
   */
  function SignPrefix(h: Option<real>): (r: string)
    ensures r == "-" <==> h.Some? && h.value > 0.0
    ensures r in {"-", "+"}
  {
    if h.Some? && h.value > 0.0 then "-" else "+"
  }

  /**
   * The sign follows the rounds: when every round scores at least a tenth of
   * a stroke over the course's standard the card shows "-", and when no round
   * does worse than the standard it shows "+".
   */
  lemma SignFollowsDifferentials(rounds: seq<GolfRound>)
    requires |rounds| > 0
    ensures (forall r :: r in rounds ==> HandicapEngine.CalculateHandicapDifferential(r) >= 0.1) ==>
              SignPrefix(HandicapEngine.CalculateHandicap(rounds).handicap) == "-"
    ensures (forall r :: r in rounds ==> HandicapEngine.CalculateHandicapDifferential(r) <= 0.0) ==>
              SignPrefix(HandicapEngine.CalculateHandicap(rounds).handicap) == "+"
  {
    var h := HandicapEngine.CalculateHandicap(rounds).handicap;
    if forall r :: r in rounds ==> HandicapEngine.CalculateHandicapDifferential(r) >= 0.1 {
      assert h.value > 0.0 by {
        HandicapEngine.HandicapBounded(rounds, 0.1, MaxDifferential(rounds));
      }
    }
    if forall r :: r in rounds ==> HandicapEngine.CalculateHandicapDifferential(r) <= 0.0 {
      assert h.value <= 0.05 by {
        HandicapEngine.HandicapBounded(rounds, MinDifferential(rounds), 0.0);
      }
      TenthNearZero(h.value);
    }
  }

  /** A whole number of tenths that is at most half a tenth is not above zero. */
  lemma TenthNearZero(x: real)
    requires HandicapEngine.IsTenth(x) && x <= 0.05
    ensures x <= 0.0
  {
    assert (x * 10.0).Floor <= 0;
  }

  /** The largest differential among the rounds. */
  function MaxDifferential(rounds: seq<GolfRound>): (m: real)
    requires |rounds| > 0
    ensures forall r :: r in rounds ==> HandicapEngine.CalculateHandicapDifferential(r) <= m
  {
    var d := HandicapEngine.CalculateHandicapDifferential(rounds[0]);
    if |rounds| == 1 then d
    else
      var rest := MaxDifferential(rounds[1..]);
      assert forall r :: r in rounds ==> r == rounds[0] || r in rounds[1..];
      if d < rest then rest else d
  }

  /** The smallest differential among the rounds. */
  function MinDifferential(rounds: seq<GolfRound>): (m: real)
    requires |rounds| > 0
    ensures forall r :: r in rounds ==> m <= HandicapEngine.CalculateHandicapDifferential(r)
  {
    var d := HandicapEngine.CalculateHandicapDifferential(rounds[0]);
    if |rounds| == 1 then d
    else
      var rest := MinDifferential(rounds[1..]);
      assert forall r :: r in rounds ==> r == rounds[0] || r in rounds[1..];
      if rest < d then rest else d
  }

  /** Which statistic heading and status warning the card shows. */
  datatype StatContent =
    | Official(heading: string)
    | Initial(heading: string, warning: string)
    | Tracking(heading: string, warning: string)

  const OfficialWarning: string := "A minimum of 20 rounds must be recorded to calculate an official handicap."
  const InitialWarning: string := "A minimum of 5 rounds must be recorded to calculate an initial handicap."

  /**
   * `renderStatContent`: the official label, the initial label with the
   * 20-round warning, or the tracking label with the 5-round warning. Before
   * a summary exists (None) the card shows the tracking content.
   */
  function RenderStatContent(handicap: Option<HandicapResult>, firstname: Option<string>): (c: StatContent)
    ensures c.Official? <==> handicap.Some? && handicap.value.official
    ensures c.Initial? <==> handicap.Some? && !handicap.value.official && handicap.value.initial
    ensures c.Official? ==> c.heading == PlayerName(firstname) + " Official Handicap"
    ensures c.Initial? ==> c.heading == PlayerName(firstname) + " Initial Handicap" && c.warning == OfficialWarning
    ensures c.Tracking? ==> c.heading == "Handicap Tracking Towards" && c.warning == InitialWarning
  {
    if !(handicap.Some? && handicap.value.official) then
      if handicap.Some? && handicap.value.initial then
        Initial(PlayerName(firstname) + " Initial Handicap", OfficialWarning)
      else
        Tracking("Handicap Tracking Towards", InitialWarning)
    else
      Official(PlayerName(firstname) + " Official Handicap")
  }

  /** For a computed summary, the content follows the number of rounds: 20+, 5 to 19, fewer than 5. */
  lemma ContentByRoundCount(rounds: seq<GolfRound>, firstname: Option<string>)
    ensures var c := RenderStatContent(Some(HandicapEngine.CalculateHandicap(rounds)), firstname);
            && (c.Official? <==> |rounds| >= 20)
            && (c.Initial? <==> 5 <= |rounds| < 20)
            && (c.Tracking? <==> |rounds| < 5)
  {
  }

  /**
   * The latest round after the effect runs: the first round in newest-first
   * order when there is one, which is the first round of the newest day in
   * the order received; otherwise the round shown before, unchanged.
   */
  function LatestRound(rounds: seq<GolfRound>, previous: Option<GolfRound>): (r: Option<GolfRound>)
    ensures |rounds| == 0 ==> r == previous
    ensures |rounds| > 0 ==> r.Some? && r.value in rounds
    ensures |rounds| > 0 ==> forall x :: x in rounds ==> x.properties.date <= r.value.properties.date
    ensures |rounds| > 0 ==> var day := HandicapEngine.OnDay(rounds, r.value.properties.date);
                             |day| > 0 && r.value == day[0]
  {
    var sorted := HandicapEngine.SortGolfRoundsByDate(rounds);
    if |sorted| > 0 then
      HandicapEngine.NewestIsFirst(rounds);
      HandicapEngine.SortIsStable(rounds, sorted[0].properties.date);
      assert HandicapEngine.OnDay(sorted, sorted[0].properties.date)[0] == sorted[0];
      Some(sorted[0])
    else previous
  }

  /** Of several rounds played on the newest day, the one that came first in the list is reported. */
  lemma LatestTieGoesToFirst(a: GolfRound, b: GolfRound)
    requires a.properties.date == b.properties.date
    ensures LatestRound([a, b], None) == Some(a)
  {
    assert [a, b][1..] == [b];
    assert [b][1..] == [];
  }
}
