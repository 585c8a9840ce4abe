/** Conversions between FILETIME values (100 ns ticks since 1601) and time points of a nanosecond clock. */
module FileTimes {
  import opened Common

  const TICKS_PER_SECOND: int := 10_000_000
  const NANOSECONDS_PER_TICK: int := 100

  /** From 1601 to 1970: in seconds, as most conversions add it, and in ticks, as the one for whole seconds does. */
  const NT_TO_UNIX_SECONDS: int := 11_644_473_600
  const NT_TO_UNIX: int := NT_TO_UNIX_SECONDS * TICKS_PER_SECOND
  const UNIX_EPOCH_TICKS: int := 116_444_736_000_000_000

  predicate IsLeapYear(year: nat) {
    year % 4 == 0 && (year % 100 != 0 || year % 400 == 0)
  }

  /** The days from the start of 1601 to the start of a year, in the Gregorian calendar. */
  function DaysBefore(year: nat): nat
    requires year >= 1601
  {
    if year == 1601 then 0 else DaysBefore(year - 1) + (if IsLeapYear(year - 1) then 366 else 365)
  }

  lemma {:induction false} DaysBeforeIs(year: nat)
    requires year >= 1601
    ensures var y := year - 1601; DaysBefore(year) == 365 * y + y / 4 - y / 100 + y / 400
  {
    if year > 1601 {
      DaysBeforeIs(year - 1);
      LeapYears(year - 1601);
    }
  }

  lemma LeapYears(y: nat)
    requires y > 0
    ensures IsLeapYear(y + 1600) <==> y % 4 == 0 && (y % 100 != 0 || y % 400 == 0)
    ensures y / 4 - y / 100 + y / 400 ==
            (y - 1) / 4 - (y - 1) / 100 + (y - 1) / 400 + (if IsLeapYear(y + 1600) then 1 else 0)
  {
    Multiples(y);
    hide IsLeapYear;
    Quotients(y);
  }

  lemma Multiples(y: nat)
    ensures IsLeapYear(y + 1600) <==> y % 4 == 0 && (y % 100 != 0 || y % 400 == 0)
    ensures (y % 400 == 0 ==> y % 100 == 0) && (y % 100 == 0 ==> y % 4 == 0)
  {
    Remainder(y, 4, 400);
    Remainder(y, 100, 16);
    Remainder(y, 400, 4);
    if y % 100 == 0 {
      Divides(y, 4, 25);
    }
    if y % 400 == 0 {
      Divides(y, 100, 4);
    }
  }

  lemma Remainder(y: nat, k: nat, times: nat)
    requires k > 0
    ensures (y + times * k) % k == y % k
  {
    var q, r := y / k, y % k;
    assert y + times * k == (q + times) * k + r;
    UniqueRemainder(y + times * k, k, q + times, r);
  }

  lemma UniqueRemainder(x: nat, k: nat, q: nat, r: nat)
    requires k > 0 && r < k && x == q * k + r
    ensures x % k == r && x / k == q
  {
    var d := x / k - q;
    assert d * k == r - x % k;
    ProductBounds(d, k);
  }

  lemma ProductBounds(d: int, k: int)
    requires k > 0
    ensures (d > 0 ==> d * k >= k) && (d < 0 ==> d * k <= -k)
  {
  }

  lemma Divides(y: nat, k: nat, times: nat)
    requires k > 0 && times > 0 && y % (times * k) == 0
    ensures y % k == 0
  {
    var q := y / (times * k);
    assert y == q * times * k;
    UniqueRemainder(y, k, q * times, 0);
  }

  lemma Quotients(y: nat)
    requires y > 0
    ensures y / 4 == (y - 1) / 4 + (if y % 4 == 0 then 1 else 0)
    ensures y / 100 == (y - 1) / 100 + (if y % 100 == 0 then 1 else 0)
    ensures y / 400 == (y - 1) / 400 + (if y % 400 == 0 then 1 else 0)
  {
  }

  /** The distance of the two epochs is that of the calendar. */
  lemma EpochDistance()
    ensures NT_TO_UNIX_SECONDS == DaysBefore(1970) * 24 * 60 * 60
    ensures UNIX_EPOCH_TICKS == NT_TO_UNIX
  {
    hide DaysBefore;
    DaysBeforeIs(1970);
  }

  const MIN_INT64: int := -TWO_63
  const MAX_INT64: int := TWO_63 - 1

  predicate IsInt64(x: int) {
    MIN_INT64 <= x <= MAX_INT64
  }

  datatype FileTime = FileTime(low: nat, high: nat) {
    predicate Valid() {
      low < TWO_32 && high < TWO_32
    }

    function Ticks(): nat {
      high * TWO_32 + low
    }
  }

  function FromTicks(ticks: nat): (f: FileTime)
    requires ticks < TWO_64
    ensures f.Valid() && f.Ticks() == ticks
  {
    FileTime(ticks % TWO_32, ticks / TWO_32)
  }

  lemma TicksDetermine(f: FileTime, g: FileTime)
    requires f.Valid() && g.Valid() && f.Ticks() == g.Ticks()
    ensures f == g
  {
    assert f.Ticks() / TWO_32 == f.high && f.Ticks() % TWO_32 == f.low;
    assert g.Ticks() / TWO_32 == g.high && g.Ticks() % TWO_32 == g.low;
  }

  /** Conversions between durations truncate toward zero. */
  function Truncated(x: int, divisor: int): int
    requires divisor > 0
  {
    if x >= 0 then x / divisor else -(-x / divisor)
  }

  /** The least and greatest tick counts since 1970 that a 64-bit nanosecond count can express. */
  const LEAST_TICKS: int := -92_233_720_368_547_758
  const GREATEST_TICKS: int := 92_233_720_368_547_758

  lemma Bounds()
    ensures Truncated(MIN_INT64, NANOSECONDS_PER_TICK) == LEAST_TICKS
    ensures Truncated(MAX_INT64, NANOSECONDS_PER_TICK) == GREATEST_TICKS
  {
  }

  function FiletimeCast(unixEpoch: int): int {
    if unixEpoch < Truncated(MIN_INT64, NANOSECONDS_PER_TICK) then MIN_INT64
    else if unixEpoch > Truncated(MAX_INT64, NANOSECONDS_PER_TICK) then MAX_INT64
    else unixEpoch * NANOSECONDS_PER_TICK
  }

  /** The tick count as the signed 64-bit integer the code reads it as. */
  function SignedTicks(f: FileTime): int {
    if f.Ticks() < TWO_63 then f.Ticks() else f.Ticks() - TWO_64
  }

  /** Moving the epoch does not overflow. */
  predicate Convertible(f: FileTime) {
    IsInt64(SignedTicks(f) - NT_TO_UNIX)
  }

  /** The nanoseconds since 1970 of a FILETIME; undefined where moving the epoch overflows. */
  function ToTimeType(f: FileTime): int
    requires f.Valid() && Convertible(f)
  {
    FiletimeCast(SignedTicks(f) - NT_TO_UNIX)
  }

  function ToUnsigned64(x: int): (r: nat)
    ensures r < TWO_64
  {
    x % TWO_64
  }

  function FromTimePoint(nanoseconds: int): FileTime {
    FromTicks(ToUnsigned64(Truncated(nanoseconds, NANOSECONDS_PER_TICK) + NT_TO_UNIX))
  }

  /** The overload for whole seconds, in modular arithmetic. */
  function FromTimeT(seconds: int): FileTime {
    FromTicks(ToUnsigned64(ToUnsigned64(ToUnsigned64(seconds) * TICKS_PER_SECOND) + UNIX_EPOCH_TICKS))
  }

  /** The FILETIME of the start of 1970. */
  lemma UnixEpoch()
    ensures FromTimeT(0) == FileTime(0xD53E_8000, 0x019D_B1DE)
  {
  }

  /** The FILETIME values that a nanosecond clock can express. */
  predicate Representable(f: FileTime) {
    LEAST_TICKS <= SignedTicks(f) - NT_TO_UNIX <= GREATEST_TICKS
  }

  /**
    * The conversion is defined exactly outside a range just above 2^63 ticks, so for every date before the year
    * 30000.
    */
  lemma ConvertibleIff(f: FileTime)
    requires f.Valid()
    ensures Convertible(f) <==> !(TWO_63 <= f.Ticks() < TWO_63 + NT_TO_UNIX)
  {
  }

  /**
    * Where the conversion is defined, it is exact as far as the clock reaches and sticks to the end of its range
    * elsewhere.
    */
  lemma ToTimeTypeSaturates(f: FileTime)
    requires f.Valid() && Convertible(f)
    ensures IsInt64(ToTimeType(f))
    ensures Representable(f) ==> ToTimeType(f) == (f.Ticks() - NT_TO_UNIX) * NANOSECONDS_PER_TICK
    ensures ToTimeType(f) == MIN_INT64 <==> f.Ticks() >= TWO_63 || f.Ticks() - NT_TO_UNIX < LEAST_TICKS
    ensures ToTimeType(f) == MAX_INT64 <==> f.Ticks() < TWO_63 && f.Ticks() - NT_TO_UNIX > GREATEST_TICKS
  {
    Bounds();
  }

  /**
    * A later FILETIME value converts to an earlier time point exactly when its ticks are read as negative, and
    * those of the earlier one neither are nor lie before the range of the clock.
    */
  lemma ToTimeTypeMonotone(f: FileTime, g: FileTime)
    requires f.Valid() && g.Valid() && Convertible(f) && Convertible(g) && f.Ticks() <= g.Ticks()
    ensures ToTimeType(f) <= ToTimeType(g) <==>
            g.Ticks() < TWO_63 || f.Ticks() >= TWO_63 || f.Ticks() - NT_TO_UNIX < LEAST_TICKS
    ensures f.Ticks() < g.Ticks() && Representable(f) && Representable(g) ==> ToTimeType(f) < ToTimeType(g)
  {
    Bounds();
  }

  /** Converting to a time point and back gives the same FILETIME exactly when the clock can express it. */
  lemma FileTimeRoundTrip(f: FileTime)
    requires f.Valid() && Convertible(f)
    ensures FromTimePoint(ToTimeType(f)) == f <==> Representable(f)
  {
    Bounds();
    if Representable(f) {
      var u := f.Ticks() - NT_TO_UNIX;
      assert Truncated(u * NANOSECONDS_PER_TICK, NANOSECONDS_PER_TICK) == u;
      TicksDetermine(FromTimePoint(ToTimeType(f)), f);
    }
  }

  /** The other way round only what is finer than a tick is lost. */
  lemma TimePointRoundTrip(nanoseconds: int)
    requires IsInt64(nanoseconds)
    ensures FromTimePoint(nanoseconds).Valid() && FromTimePoint(nanoseconds).Ticks() < TWO_63
    ensures ToTimeType(FromTimePoint(nanoseconds)) ==
            Truncated(nanoseconds, NANOSECONDS_PER_TICK) * NANOSECONDS_PER_TICK
  {
    Bounds();
    var u := Truncated(nanoseconds, NANOSECONDS_PER_TICK);
    assert LEAST_TICKS <= u <= GREATEST_TICKS;
    assert FromTimePoint(nanoseconds).Ticks() == u + NT_TO_UNIX;
  }

  /** The two overloads agree on every whole second a nanosecond clock can express. */
  lemma OverloadsAgree(seconds: int)
    requires IsInt64(seconds * 1_000_000_000)
    ensures FromTimeT(seconds) == FromTimePoint(seconds * 1_000_000_000)
  {
    var u := seconds * TICKS_PER_SECOND;
    assert Truncated(seconds * 1_000_000_000, NANOSECONDS_PER_TICK) == u;
    assert ToUnsigned64(seconds) == if seconds >= 0 then seconds else seconds + TWO_64;
    ModularProduct(seconds);
  }

  lemma ModularProduct(seconds: int)
    requires IsInt64(seconds)
    ensures ToUnsigned64(ToUnsigned64(ToUnsigned64(seconds) * TICKS_PER_SECOND) + NT_TO_UNIX) ==
            ToUnsigned64(seconds * TICKS_PER_SECOND + NT_TO_UNIX)
  {
    var s := ToUnsigned64(seconds);
    var k := if seconds >= 0 then 0 else TICKS_PER_SECOND;
    assert s * TICKS_PER_SECOND == seconds * TICKS_PER_SECOND + k * TWO_64;
    var p := s * TICKS_PER_SECOND;
    var q := p / TWO_64;
    assert ToUnsigned64(p) == p - q * TWO_64;
    assert p - q * TWO_64 + NT_TO_UNIX == seconds * TICKS_PER_SECOND + NT_TO_UNIX + (k - q) * TWO_64;
    AddMultiple(seconds * TICKS_PER_SECOND + NT_TO_UNIX, k - q);
  }

  lemma AddMultiple(x: int, n: int)
    ensures (x + n * TWO_64) % TWO_64 == x % TWO_64
  {
  }
}
