/** Timestamp logical types: instants to and from int64 counts of a sub-second unit. */
module Timestamps {
  import opened Powers
  import opened Wire

  /** Native 64-bit arithmetic: every operation below is proved not to overflow. */
  newtype int64 = x: int | -0x8000_0000_0000_0000 <= x < 0x8000_0000_0000_0000

  const MIN_INT64: int64 := -0x8000_0000_0000_0000
  const MAX_INT64: int64 := 0x7fff_ffff_ffff_ffff
  const NANOS: int64 := 1_000_000_000

  /** The first second of a year of the proleptic Gregorian calendar, counted from 1970. */
  function YearStart(year: int): int {
    86_400 * (365 * (year - 1970) + (year - 1) / 4 - (year - 1) / 100 + (year - 1) / 400 - 477)
  }

  predicate LeapYear(year: int) {
    year % 4 == 0 && (year % 100 == 0 ==> year % 400 == 0)
  }

  /** Years follow one another from the epoch on and before it. */
  lemma YearLength(year: int)
    ensures YearStart(1970) == 0
    ensures YearStart(year + 1) == YearStart(year) + 86_400 * if LeapYear(year) then 366 else 365
  {
    Cycle(year, 4);
    Cycle(year, 100);
    Cycle(year, 400);
    assert year % 400 == 0 ==> year % 100 == 0;
    assert year % 100 == 0 ==> year % 4 == 0;
  }

  lemma Cycle(year: int, n: int)
    requires n > 0
    ensures year / n == (year - 1) / n + if year % n == 0 then 1 else 0
  {
    var q, r := (year - 1) / n, (year - 1) % n;
    assert year - 1 == q * n + r;
    if r + 1 < n {
      Divides(year, n, q, r + 1);
    } else {
      assert year == (q + 1) * n;
      Divides(year, n, q + 1, 0);
    }
  }

  lemma Divides(a: int, n: int, q: int, r: int)
    requires n > 0 && a == q * n + r && 0 <= r < n
    ensures a / n == q && a % n == r
  {
    var k := a / n - q;
    assert k * n == r - a % n;
    if k > 0 {
      MulMonotonic(1, k, n);
    } else if k < 0 {
      MulMonotonic(k, -1, n);
    }
  }

  const FIRST_SECOND: int := YearStart(-300_000_000)
  const END_SECOND: int := YearStart(300_000_001)

  datatype Unit = Millis | Micros {
    function PerSecond(): (n: int64)
      ensures n > 0
    {
      if this.Millis? then 1_000 else 1_000_000
    }

    function Nanos(): (n: int64)
      ensures n > 0 && n as int * PerSecond() as int == 1_000_000_000
    {
      if this.Millis? then 1_000_000 else 1_000
    }
  }

  datatype Instant = Instant(sec: int64, nanos: int64) {
    predicate Valid() {
      0 <= nanos < NANOS
    }
  }

  // --- truncating division, as the processor does it ---

  function Quot(a: int64, b: int64): (q: int64)
    requires b > 0
    ensures q as int * b as int <= a as int < (q as int + 1) * b as int
         || (a < 0 && (q as int - 1) * b as int < a as int <= q as int * b as int)
    ensures a >= 0 ==> q as int == a as int / b as int
    ensures a < 0 ==> q as int == -(-(a as int) / b as int)
  {
    if a >= 0 then a / b else (-(-(a as int) / b as int)) as int64
  }

  function Rem(a: int64, b: int64): (r: int64)
    requires b > 0
    ensures r as int == a as int - Quot(a, b) as int * b as int
    ensures -b < r < b && (a >= 0 ==> r >= 0) && (a < 0 ==> r <= 0)
  {
    (a as int - Quot(a, b) as int * b as int) as int64
  }

  /** `time.Unix`: brings the nanoseconds into [0, 1e9). */
  function Unix(sec: int64, nsec: int64): (t: Instant)
    requires -NANOS < nsec < NANOS && sec > MIN_INT64
    ensures t.Valid()
    ensures t.sec as int * 1_000_000_000 + t.nanos as int == sec as int * 1_000_000_000 + nsec as int
  {
    if nsec < 0 then Instant(sec - 1, nsec + NANOS) else Instant(sec, nsec)
  }

  function FromUnits(value: int64, unit: Unit): (t: Instant)
    ensures t.Valid()
    ensures t.sec as int * 1_000_000_000 + t.nanos as int == value as int * unit.Nanos() as int
    ensures t.sec as int * 1_000_000_000 + t.nanos as int == value as int * if unit.Millis? then 1_000_000 else 1_000
  {
    var per := unit.PerSecond();
    Unix(Quot(value, per), Rem(value, per) * unit.Nanos())
  }

  /** The year guard, as a bound on the seconds of the instant. */
  predicate YearGuard(t: Instant) {
    FIRST_SECOND <= t.sec as int < END_SECOND
  }

  function TimestampValue(t: Instant, unit: Unit): (r: Option<int64>)
    requires t.Valid()
  {
    if !YearGuard(t) then None
    else
      var per := unit.PerSecond();
      var fraction := t.nanos / unit.Nanos();
      if t.sec >= 0 then
        if t.sec > (MAX_INT64 - fraction) / per then None
        else Some(t.sec * per + fraction)
      else if t.sec + 1 < Quot(MIN_INT64, per) then None
      else
        var whole := (t.sec + 1) * per;
        var remainder := per - fraction;
        if whole < MIN_INT64 + remainder then None else Some(whole - remainder)
  }

  /** The instant rounded down to whole units, over the unbounded integers. */
  function FloorUnits(t: Instant, unit: Unit): int
    requires t.Valid()
  {
    (t.sec as int * 1_000_000_000 + t.nanos as int) / if unit.Millis? then 1_000_000 else 1_000
  }

  lemma FloorSplits(t: Instant, unit: Unit)
    requires t.Valid()
    ensures FloorUnits(t, unit)
         == t.sec as int * unit.PerSecond() as int + t.nanos as int / unit.Nanos() as int
    ensures 0 <= t.nanos as int / unit.Nanos() as int < unit.PerSecond() as int
  {
  }

  /** Inside the year guard the result is the floor, and it fails only when no int64 can hold it. */
  lemma TimestampValueIsFloor(t: Instant, unit: Unit)
    requires t.Valid() && YearGuard(t)
    ensures TimestampValue(t, unit).Some? <==> Int64(FloorUnits(t, unit))
    ensures TimestampValue(t, unit).Some? ==>
              TimestampValue(t, unit).value as int == FloorUnits(t, unit)
  {
    FloorSplits(t, unit);
  }

  /** Every int64 count survives the trip through an instant. */
  lemma TimestampRoundTrip(value: int64, unit: Unit)
    ensures YearGuard(FromUnits(value, unit))
    ensures TimestampValue(FromUnits(value, unit), unit) == Some(value)
  {
    var t := FromUnits(value, unit);
    assert FloorUnits(t, unit) == value as int;
    TimestampValueIsFloor(t, unit);
  }
}
