/**
 * The rounds card: a table and a score chart over the first twenty rounds
 * in the order received, each followed by a label counting the rounds shown.
 */
module GolfRoundsCard {
  import opened Wrappers
  import opened Strings
  import opened GolfTypes
  import HandicapEngine

  /** The most rounds the table and the chart show. */
  const DisplayLimit: nat := 20

  /** `golfRounds.slice(0, 20)`: the first twenty rounds, in the order received. */
  function Shown(rounds: seq<GolfRound>): (w: seq<GolfRound>)
    ensures |w| == HandicapEngine.Min(|rounds|, DisplayLimit)
    ensures forall i :: 0 <= i < |w| ==> w[i] == rounds[i]
  {
    if |rounds| <= DisplayLimit then rounds else rounds[..DisplayLimit]
  }

  /** Rounds that arrive newest first are exactly the twenty the handicap is computed from. */
  lemma ShownIsHandicapWindow(rounds: seq<GolfRound>)
    requires HandicapEngine.NewestFirst(rounds)
    ensures Shown(rounds) == HandicapEngine.Last20Rounds(rounds)
  {
    HandicapEngine.SortKeepsSorted(rounds);
  }

  // ---------------------------------------------------------------------------
  // The chart

  /** The chart series a round belongs to. */
  function SeriesLabel(holes: string): (r: string)
    ensures r == "9 hole rounds" <==> holes == "9"
    ensures r == "18 hole rounds" <==> holes != "9"
  {
    if holes == "9" then "9 hole rounds" else "18 hole rounds"
  }

  /**
   * `parseInt(String(score))`: the score with its fractional part dropped,
   * toward zero.
   */
  function TruncateScore(x: real): (r: int)
    ensures x >= 0.0 ==> r as real <= x < r as real + 1.0
    ensures x < 0.0 ==> r as real - 1.0 < x <= r as real
  {
    if x >= 0.0 then x.Floor else -((-x).Floor)
  }

  /** A whole score is charted as it is. */
  lemma WholeScoreCharted(n: int)
    ensures TruncateScore(n as real) == n
  {
  }

  /** One point of the score chart. */
  datatype TrendPoint = TrendPoint(date: int, series: string, score: int)

  /** `getScoreTrends`: one point per shown round, in the same order. */
  function ScoreTrends(rounds: seq<GolfRound>): (pts: seq<TrendPoint>)
    ensures |pts| == |Shown(rounds)|
    ensures forall i :: 0 <= i < |pts| ==>
              pts[i] == TrendPoint(rounds[i].properties.date, SeriesLabel(rounds[i].properties.holes),
                                   TruncateScore(rounds[i].properties.score))
  {
    TrendsOf(Shown(rounds))
  }

  function TrendsOf(w: seq<GolfRound>): (pts: seq<TrendPoint>)
    ensures |pts| == |w|
    ensures forall i :: 0 <= i < |w| ==>
              pts[i] == TrendPoint(w[i].properties.date, SeriesLabel(w[i].properties.holes),
                                   TruncateScore(w[i].properties.score))
  {
    if |w| == 0 then []
    else
      [TrendPoint(w[0].properties.date, SeriesLabel(w[0].properties.holes), TruncateScore(w[0].properties.score))]
      + TrendsOf(w[1..])
  }

  // ---------------------------------------------------------------------------
  // The count label

  const CountPrefix: string := "Showing the last "

  /** `renderGolfRoundsCountLabel` for `n` rounds received. */
  function CountLabel(n: nat): (text: string)
    ensures StartsWith(text, CountPrefix)
    ensures EndsWith(text, (if n > 1 then " rounds played" else " round played"))
  {
    var digits := NatToDecimal(HandicapEngine.Min(n, DisplayLimit));
    var suffix := " round" + (if n > 1 then "s" else "") + " played";
    assert suffix == (if n > 1 then " rounds played" else " round played");
    assert (CountPrefix + digits + suffix)[..|CountPrefix|] == CountPrefix;
    assert (CountPrefix + digits + suffix)[|CountPrefix + digits|..] == suffix;
    CountPrefix + digits + suffix
  }

  /**
   * The label reads "Showing the last ", then min(n, 20) in decimal, then
   * " rounds played" when more than one round was received and
   * " round played" otherwise.
   */
  lemma CountLabelReadsBack(n: nat)
    ensures exists digits: string, suffix: string ::
              && CountLabel(n) == CountPrefix + digits + suffix
              && IsDigits(digits) && |digits| > 0 && (|digits| == 1 || digits[0] != '0')
              && DecimalValue(digits) == HandicapEngine.Min(n, DisplayLimit)
              && (suffix == " rounds played" <==> n > 1)
              && (suffix == " round played" <==> n <= 1)
  {
    var digits := NatToDecimal(HandicapEngine.Min(n, DisplayLimit));
    DecimalRoundTrip(HandicapEngine.Min(n, DisplayLimit));
    var suffix := " round" + (if n > 1 then "s" else "") + " played";
    assert CountLabel(n) == CountPrefix + digits + suffix;
    assert n > 1 ==> suffix == " rounds played";
    assert n <= 1 ==> suffix == " round played";
  }

  /** The label depends only on how many rounds are shown: it always matches the table. */
  lemma CountLabelMatchesShown(rounds: seq<GolfRound>)
    ensures CountLabel(|rounds|) == CountLabel(|Shown(rounds)|)
  {
  }

  // ---------------------------------------------------------------------------
  // The table

  /** A table cell as shown. */
  datatype Cell = Text(text: string) | Number(value: real) | Dash

  /** The holes cell: the stored text, "N/A" when it is empty. */
  function HolesCell(holes: string): (c: Cell)
    ensures c == Text("N/A") <==> holes == "" || holes == "N/A"
    ensures holes != "" ==> c == Text(holes)
  {
    if holes == "" then Text("N/A") else Text(holes)
  }

  /** The rating and slope cells: the number, "-" when it is missing or zero. */
  function OptionalNumberCell(v: Option<real>): (c: Cell)
    ensures c.Dash? <==> v.None? || v.value == 0.0
    ensures c.Number? ==> c.value == v.value && c.value != 0.0
  {
    if v.None? || v.value == 0.0 then Dash else Number(v.value)
  }

  /**
   * The table shows the rating and slope the handicap is computed with: a
   * dash exactly where the engine falls back to the default (72 and 113),
   * and otherwise the very number the engine uses.
   */
  lemma CellsShowEffectiveValues(p: GolfRoundProperties)
    ensures OptionalNumberCell(p.courseRating).Dash? ==> HandicapEngine.EffectiveRating(p) == HandicapEngine.DefaultCourseRating
    ensures OptionalNumberCell(p.courseRating).Number? ==> HandicapEngine.EffectiveRating(p) == OptionalNumberCell(p.courseRating).value
    ensures OptionalNumberCell(p.slope).Dash? ==> HandicapEngine.EffectiveSlope(p) == HandicapEngine.DefaultSlope
    ensures OptionalNumberCell(p.slope).Number? ==> HandicapEngine.EffectiveSlope(p) == OptionalNumberCell(p.slope).value
  {
  }

  /**
   * The holes cell reads "9" exactly for the rounds the chart puts in the
   * nine-hole series, and those are the rounds whose score the engine doubles.
   */
  lemma HolesCellAgreesWithChart(p: GolfRoundProperties)
    ensures HolesCell(p.holes) == Text("9") <==> SeriesLabel(p.holes) == "9 hole rounds"
    ensures HolesCell(p.holes) == Text("9") ==> HandicapEngine.AdjustedScore(p) == 2.0 * p.score
    ensures HolesCell(p.holes) != Text("9") ==> HandicapEngine.AdjustedScore(p) == p.score
  {
  }

  datatype TableRow = TableRow(id: string, course: string, score: real, holes: Cell, rating: Cell, slope: Cell)

  function RowOf(r: GolfRound): TableRow {
    TableRow(r.id, r.properties.course, r.properties.score, HolesCell(r.properties.holes),
             OptionalNumberCell(r.properties.courseRating), OptionalNumberCell(r.properties.slope))
  }

  function RowsOf(w: seq<GolfRound>): (rows: seq<TableRow>)
    ensures |rows| == |w|
    ensures forall i :: 0 <= i < |w| ==> rows[i] == RowOf(w[i])
  {
    if |w| == 0 then [] else [RowOf(w[0])] + RowsOf(w[1..])
  }

  /** What the card renders: the table rows, the chart points and the count label. */
  datatype View = View(rows: seq<TableRow>, trends: seq<TrendPoint>, countLabel: string)

  /** `GolfRounds`: nothing when hidden, otherwise the table, the chart and the label. */
  function Render(showGolfRounds: bool, rounds: seq<GolfRound>): (v: Option<View>)
    ensures v.None? <==> !showGolfRounds
    ensures v.Some? ==> |v.value.rows| == |v.value.trends| == HandicapEngine.Min(|rounds|, DisplayLimit)
    ensures v.Some? ==> v.value.countLabel == CountLabel(|rounds|)
  {
    if !showGolfRounds then None
    else Some(View(RowsOf(Shown(rounds)), ScoreTrends(rounds), CountLabel(|rounds|)))
  }

  /** Row `i` of the table and point `i` of the chart describe the same round, the `i`-th received. */
  lemma TableAndChartAgree(rounds: seq<GolfRound>, i: nat)
    requires i < HandicapEngine.Min(|rounds|, DisplayLimit)
    ensures var v := Render(true, rounds).value;
            && v.rows[i].id == rounds[i].id
            && v.rows[i].course == rounds[i].properties.course
            && v.trends[i].date == rounds[i].properties.date
            && (v.trends[i].series == "9 hole rounds" <==> rounds[i].properties.holes == "9")
  {
  }
}
