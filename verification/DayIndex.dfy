/** Finding the table entry of a moment from the starts of the days in one time zone. */
module DayIndex {
  import opened DateLut

  const DAY: int := 86400
  const HOUR: int := 3600

  /** Midnight in UTC at the start of entry i. */
  function Midnight(i: int): int {
    (i - EPOCH) * DAY
  }

  /** Day starts in order, in a time zone whose offset from UTC is between -12 and +14 hours. */
  ghost predicate DayStarts(dates: seq<int>) {
    && |dates| == SIZE
    && (forall i, j | 0 <= i < j < SIZE :: dates[i] < dates[j])
    && (forall i | 0 <= i < SIZE :: Midnight(i) - 14 * HOUR <= dates[i] <= Midnight(i) + 12 * HOUR)
  }

  /** `findIndex`; integer division truncates towards zero. */
  function FindIndex(dates: seq<int>, t: int): int
    requires |dates| == SIZE
  {
    var quotient := if t >= 0 then t / DAY else -(-t / DAY);
    var guess := quotient + EPOCH - (if t < 0 then 1 else 0);
    if guess < 0 then 0
    else if guess >= SIZE then SIZE - 1
    else if t >= dates[guess] then
      if guess + 1 >= SIZE || t < dates[guess + 1] then guess else guess + 1
    else if guess != 0 then guess - 1
    else 0
  }

  /** Three candidates are enough: the result is the last day that starts no later than
      t, or the first entry when t is before the table. */
  lemma FindIndexExact(dates: seq<int>, t: int)
    requires DayStarts(dates)
    ensures var r := FindIndex(dates, t);
      && 0 <= r < SIZE
      && (forall i | 0 < i <= r :: dates[i] <= t)
      && (forall i | r < i < SIZE :: t < dates[i])
      && (t >= dates[0] ==> dates[r] <= t)
  {
  }

  /** The day starts of a zone that is always the same number of seconds ahead of UTC. */
  ghost predicate FixedOffset(dates: seq<int>, offset: int) {
    |dates| == 131072 && forall i | 0 <= i < |dates| :: dates[i] == 86400 * (i - 16436) - offset
  }

  /** Such a zone is covered exactly from 12 hours behind to 14 hours ahead. */
  lemma FixedOffsetCovered(dates: seq<int>, offset: int)
    requires FixedOffset(dates, offset)
    ensures DayStarts(dates) <==> -43200 <= offset <= 50400
  {
    assert dates[0] == 86400 * (0 - 16436) - offset;
  }

  /** There the index is the number of whole local days since the epoch, held within the table. */
  lemma FindFixedOffset(dates: seq<int>, offset: int, t: int)
    requires FixedOffset(dates, offset) && -43200 <= offset <= 50400
    ensures var day := (t + offset) / 86400 + 16436;
      FindIndex(dates, t) == if day < 0 then 0 else if day > 131071 then 131071 else day
  {
    hide FindIndex;
    FixedOffsetCovered(dates, offset);
    FindIndexExact(dates, t);
    var r, day := FindIndex(dates, t), (t + offset) / 86400 + 16436;
    if r > 0 {
      assert dates[r] <= t;
    }
    if r + 1 < SIZE {
      assert t < dates[r + 1];
    }
  }
}
