/** The normalized game record shared by the serverless function, the score cache,
    the standings engine and the live tracker. */
module Games {
  import opened Wrappers

  /** A JSON scalar as it appears in a game record. Numbers are integers: fractional
      scores, NaN and infinities do not occur in the model. */
  datatype Scalar = Undefined | Null | Num(n: int) | Str(s: string) {

    /** JavaScript truthiness of the value. */
    predicate Truthy() {
      match this
      case Undefined => false
      case Null => false
      case Num(n) => n != 0
      case Str(s) => s != []
    }

    /** `Number.isFinite`: true exactly for numbers. */
    predicate IsFinite() {
      Num?
    }
  }

  /** A game record `{ id, home, away, homeScore, awayScore, status, winner, quarter,
      clock }`. A missing team code is the empty string; a missing winner is None. */
  datatype Game = Game(
    home: string,
    away: string,
    winner: Option<string>,
    status: string,
    homeScore: Scalar,
    awayScore: Scalar,
    quarter: Scalar,
    clock: Scalar,
    id: Scalar)

  /** JavaScript truthiness of an optional string: null and "" are both falsy. */
  predicate IsTruthy(s: Option<string>) {
    s.Some? && s.value != []
  }
}
