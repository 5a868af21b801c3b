/**
 * The records the golf cards exchange: a round as stored in the CRM and the
 * handicap summary computed from a list of rounds.
 */
module GolfTypes {
  import opened Wrappers

  /**
   * One round's properties. `date` is the day the round was played as an
   * integer day key (later days have larger keys); `holes` is the text the
   * CRM stores ("9" or "18"); `slope` and `courseRating` are optional.
   */
  datatype GolfRoundProperties = GolfRoundProperties(
    course: string,
    score: real,
    date: int,
    holes: string,
    slope: Option<real>,
    courseRating: Option<real>)

  datatype GolfRound = GolfRound(id: string, properties: GolfRoundProperties)

  /**
   * The handicap summary. `handicap` is None where the computation yields
   * NaN (an empty list of rounds averages 0 / 0).
   */
  datatype HandicapResult = HandicapResult(official: bool, initial: bool, handicap: Option<real>)
}
