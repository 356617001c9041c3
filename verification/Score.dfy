/** Priority scores: the constants and the request rules (score.go and the service layer).

    Scores are `real`: the source uses float64, whose rounding is not modelled. */
module Score {

  datatype Option<+T> = None | Some(value: T)

  const MAX: real := 9007199254740992.0
  const MIN: real := 0.0
  const UNDEFINED: real := -1.0

  function Min(a: int, b: int): int {
    if a < b then a else b
  }

  predicate InBounds(score: real) {
    MIN <= score <= MAX
  }

  /** Scores that may sit in storage or in a lock pool. */
  predicate Storable(score: real) {
    InBounds(score) || score == UNDEFINED
  }

  function Clamp(score: real): (r: real)
    ensures InBounds(r)
    ensures forall other :: InBounds(other) ==> Distance(score, r) <= Distance(score, other)
  {
    if score < MIN then MIN else if score > MAX then MAX else score
  }

  ghost function Distance(a: real, b: real): real {
    if a < b then b - a else a - b
  }

  function AddScore(requested: real, nowMs: int): real {
    if requested == 0.0 then nowMs as real
    else if requested < MIN then MIN
    else if requested > MAX then MAX
    else requested
  }

  function PullMaxScore(requested: real): Option<real> {
    if requested == 0.0 then None
    else if requested > MAX then Some(MAX)
    else if requested < MIN then Some(MIN)
    else Some(requested)
  }

  function PullMinScore(requested: real): Option<real> {
    if requested == 0.0 then None
    else if requested > MAX then Some(MAX)
    else if requested <= MIN then Some(MIN)
    else Some(requested)
  }

  /** The score an Ack sends to the queue layer. */
  function AckScore(requested: real, scoreSubtract: real, lockMs: int, nowMs: int): real {
    if requested != 0.0 then requested
    else if lockMs == 0 then Clamp(nowMs as real - scoreSubtract)
    else UNDEFINED
  }

  /** The score a Nack sends to the queue layer. */
  function NackScore(requested: real, lockMs: int): real {
    if requested != 0.0 then requested
    else if lockMs == 0 then MIN
    else UNDEFINED
  }

  predicate InRange(score: real, min: Option<real>, max: Option<real>) {
    && (min.Some? ==> min.value <= score)
    && (max.Some? ==> score <= max.value)
  }

  /** Clamping a pull bound to [MIN, MAX] changes which in-range scores pass only for a bound
      outside the range met by a score at that end; a zero bound stands for "no bound". */
  lemma PullBoundsKeepMeaning(bound: real, score: real)
    requires InBounds(score)
    ensures (InRange(score, PullMinScore(bound), None) <==> bound == 0.0 || bound <= score)
            <==> !(bound > MAX && score == MAX)
    ensures (InRange(score, None, PullMaxScore(bound)) <==> bound == 0.0 || score <= bound)
            <==> !(bound < MIN && score == MIN)
  {
  }
}
