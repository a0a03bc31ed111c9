/** Timestamps and the day arithmetic of js/learning.js (`normalizeDate`,
    `addDays`). A timestamp is a count of milliseconds on a local-time line
    whose days are all 24 hours long; the calendar, time zones and
    daylight-saving shifts are abstracted away. */
module DateMath {

  type Timestamp = int

  const MsPerDay: int := 86_400_000

  /** The local calendar day a timestamp falls on (days since the epoch,
      rounding towards the past). */
  function Day(t: Timestamp): int {
    t / MsPerDay
  }

  /** `normalizeDate`: local midnight at the start of `t`'s day. */
  function NormalizeDate(t: Timestamp): (r: Timestamp)
    ensures r <= t < r + MsPerDay
    ensures r % MsPerDay == 0
    ensures Day(r) == Day(t)
  {
    Day(t) * MsPerDay
  }

  /** `addDays`: the same time of day, `n` calendar days later (earlier for negative `n`). */
  function AddDays(t: Timestamp, n: int): (r: Timestamp)
    ensures Day(r) == Day(t) + n
    ensures r - NormalizeDate(r) == t - NormalizeDate(t)
  {
    t + n * MsPerDay
  }

  /** Normalised timestamps compare exactly as their days do. */
  lemma NormalizedOrder(a: Timestamp, b: Timestamp)
    ensures NormalizeDate(a) <= NormalizeDate(b) <==> Day(a) <= Day(b)
  {
  }

  /** Normalising is idempotent. */
  lemma NormalizeIdempotent(t: Timestamp)
    ensures NormalizeDate(NormalizeDate(t)) == NormalizeDate(t)
  {
  }

  /** Two timestamps fall on the same day iff they share a midnight. */
  lemma SameDayIffSameMidnight(a: Timestamp, b: Timestamp)
    ensures Day(a) == Day(b) <==> NormalizeDate(a) == NormalizeDate(b)
  {
  }
}
