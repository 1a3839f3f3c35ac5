/** Whether a previous observation is too old to be returned (`numDaysBetween`,
    `isObsTooOld`). Instants are integer milliseconds; the current instant is a parameter. */
module Staleness {

  /** An observation whose FinalisedDate is more than this many days from now is last season's. */
  const MaxDaysAllowedForPreviousObs: int := 30

  const MillisPerDay: int := 1000 * 60 * 60 * 24

  function Abs(x: int): (a: nat)
    ensures a == x || a == -x
  {
    if x < 0 then -x else x
  }

  /** `numDaysBetween`: the exact (fractional) number of days separating two instants. */
  function NumDaysBetween(d1: int, d2: int): (days: real)
    ensures days >= 0.0
    ensures days == 0.0 <==> d1 == d2
  {
    (Abs(d1 - d2) as real) / (MillisPerDay as real)
  }

  /** `isObsTooOld`, decided on whole milliseconds: more than 30 days either side of now. */
  function IsObsTooOld(finalisedDate: int, now: int): (tooOld: bool)
    ensures tooOld <==> NumDaysBetween(now, finalisedDate) > MaxDaysAllowedForPreviousObs as real
  {
    Abs(now - finalisedDate) > MaxDaysAllowedForPreviousObs * MillisPerDay
  }

  /** A finalised date in the future is judged like one in the past. */
  lemma TooOldIsSymmetric(now: int, offset: int)
    ensures IsObsTooOld(now - offset, now) == IsObsTooOld(now + offset, now)
  {
  }

  /** Exactly 30 days is still current; one millisecond more, on either side, is stale. */
  lemma ThirtyDayBoundary(now: int)
    ensures !IsObsTooOld(now - 30 * MillisPerDay, now)
    ensures !IsObsTooOld(now + 30 * MillisPerDay, now)
    ensures IsObsTooOld(now - 30 * MillisPerDay - 1, now)
    ensures IsObsTooOld(now + 30 * MillisPerDay + 1, now)
  {
  }
}
