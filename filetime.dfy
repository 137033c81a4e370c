/** The last-write-time decoding done by get_registry_key_timestamp.

    A FILETIME is two 32-bit words counting 100-nanosecond ticks since
    1601-01-01 00:00:00.  The script joins them, truncates to microseconds and
    adds the result to datetime(1601, 1, 1).  Times are represented here as
    integer microseconds since that epoch; Python's datetime cannot go past
    9999-12-31 23:59:59.999999, and an addition beyond it raises OverflowError.
 */
module FileTime {

  const TWO_TO_32: nat := 0x1_0000_0000
  const TWO_TO_64: nat := 0x1_0000_0000_0000_0000
  const TICKS_PER_MICROSECOND: nat := 10
  const MICROS_PER_DAY: nat := 86_400_000_000

  /** A DWORD: ctypes.c_ulong is 32 bits wide on Windows. */
  type UInt32 = x: int | 0 <= x < 0x1_0000_0000

  /** Python's Optional. */
  datatype Option<+T> = None | Some(value: T)

  /** Number of days from 0001-01-01 to January 1st of year y in the proleptic
      Gregorian calendar, which is the calendar of Python's datetime. */
  function DaysBeforeYear(y: int): nat
    requires y >= 1
  {
    var p := y - 1;
    365 * p + p / 4 - p / 100 + p / 400
  }

  predicate IsLeapYear(y: int) {
    y % 4 == 0 && (y % 100 != 0 || y % 400 == 0)
  }

  /** The closed form counts each year with the length the leap-year rule gives it. */
  lemma YearLength(y: int)
    requires y >= 1
    ensures DaysBeforeYear(y + 1) - DaysBeforeYear(y) == if IsLeapYear(y) then 366 else 365
  {
    var p := y - 1;
    assert (p + 1) / 4 == p / 4 + (if y % 4 == 0 then 1 else 0);
    assert (p + 1) / 100 == p / 100 + (if y % 100 == 0 then 1 else 0);
    assert (p + 1) / 400 == p / 400 + (if y % 400 == 0 then 1 else 0);
  }

  /** Microseconds from the FILETIME epoch to January 1st, 00:00, of year y. */
  function YearStart(y: int): int
    requires y >= 1
  {
    (DaysBeforeYear(y) - DaysBeforeYear(1601)) * MICROS_PER_DAY
  }

  /** datetime.max, 9999-12-31 23:59:59.999999, as microseconds since 1601. */
  const MAX_MICROS: nat := YearStart(10000) - 1

  /** The 64-bit tick count `(high << 32) + low` (line 67). */
  function Ticks(low: UInt32, high: UInt32): (v: nat)
    ensures v < TWO_TO_64
    ensures v % TWO_TO_32 == low && v / TWO_TO_32 == high
  {
    high * TWO_TO_32 + low
  }

  /** Splitting any 64-bit value into its two words and joining them again gives it back. */
  lemma SplitJoin(v: nat)
    requires v < TWO_TO_64
    ensures Ticks(v % TWO_TO_32, v / TWO_TO_32) == v
  {
  }

  datatype Decoded = InRange(micros: nat) | OutOfRange

  /** `datetime(1601, 1, 1) + timedelta(microseconds=ticks // 10)` (line 68):
      OutOfRange stands for the OverflowError raised past datetime.max. */
  function FileTimeToDatetime(low: UInt32, high: UInt32): (r: Decoded)
    ensures r.InRange? <==> Ticks(low, high) < (MAX_MICROS + 1) * TICKS_PER_MICROSECOND
    ensures r.InRange? ==>
      r.micros * TICKS_PER_MICROSECOND <= Ticks(low, high) < (r.micros + 1) * TICKS_PER_MICROSECOND
  {
    var micros := Ticks(low, high) / TICKS_PER_MICROSECOND;
    if micros <= MAX_MICROS then InRange(micros) else OutOfRange
  }

  /** Decoding the two words of any 64-bit value v gives exactly v // 10 microseconds. */
  lemma DecodeSplit(v: nat)
    requires v < TWO_TO_64
    ensures FileTimeToDatetime(v % TWO_TO_32, v / TWO_TO_32)
         == if v / 10 <= MAX_MICROS then InRange(v / 10) else OutOfRange
  {
    SplitJoin(v);
  }

  /** FILETIME zero is the epoch itself. */
  lemma DecodeEpoch()
    ensures FileTimeToDatetime(0, 0) == InRange(YearStart(1601))
  {
  }

  /** 116444736000000000 ticks is the Unix epoch, 11644473600 seconds after 1601. */
  lemma DecodeUnixEpoch()
    ensures YearStart(1970) == 11_644_473_600 * 1_000_000
    ensures FileTimeToDatetime(116_444_736_000_000_000 % TWO_TO_32, 116_444_736_000_000_000 / TWO_TO_32)
         == InRange(YearStart(1970))
  {
    DecodeSplit(116_444_736_000_000_000);
  }

  /** A later FILETIME never decodes to an earlier time, and never fits when an earlier one overflows. */
  lemma DecodeMonotone(low1: UInt32, high1: UInt32, low2: UInt32, high2: UInt32)
    requires Ticks(low1, high1) <= Ticks(low2, high2)
    ensures FileTimeToDatetime(low2, high2).InRange? ==> FileTimeToDatetime(low1, high1).InRange?
    ensures FileTimeToDatetime(low1, high1).InRange? && FileTimeToDatetime(low2, high2).InRange? ==>
      FileTimeToDatetime(low1, high1).micros <= FileTimeToDatetime(low2, high2).micros
  {
  }

  /** The overflow edge: the last tick count that fits decodes to datetime.max, the next one
      raises, and so does the largest FILETIME. */
  lemma DecodeOverflowEdge()
    ensures MAX_MICROS == 265_046_774_399_999_999
    ensures FileTimeToDatetime(2_650_467_743_999_999_999 % TWO_TO_32, 2_650_467_743_999_999_999 / TWO_TO_32)
         == InRange(MAX_MICROS)
    ensures FileTimeToDatetime(2_650_467_744_000_000_000 % TWO_TO_32, 2_650_467_744_000_000_000 / TWO_TO_32)
         == OutOfRange
    ensures FileTimeToDatetime(0xFFFF_FFFF, 0xFFFF_FFFF) == OutOfRange
  {
    DecodeSplit(2_650_467_743_999_999_999);
    DecodeSplit(2_650_467_744_000_000_000);
  }

  /** What RegQueryInfoKeyW reports: its return code and the FILETIME it filled in. */
  datatype RegQueryInfo = RegQueryInfo(ret: int, lastWriteLow: UInt32, lastWriteHigh: UInt32)

  /** get_registry_key_timestamp either returns an Optional datetime or raises OverflowError. */
  datatype LastWrite = Returned(value: Option<nat>) | RaisedOverflow

  /** get_registry_key_timestamp (lines 65-70): None when the query failed, the decoded
      time when it succeeded, OverflowError when that time is past datetime.max. */
  function GetRegistryKeyTimestamp(query: RegQueryInfo): (r: LastWrite)
    ensures r == Returned(None) <==> query.ret != 0
    ensures r.RaisedOverflow? <==>
      query.ret == 0 && Ticks(query.lastWriteLow, query.lastWriteHigh) >= (MAX_MICROS + 1) * TICKS_PER_MICROSECOND
    ensures r.Returned? && r.value.Some? ==>
      r.value.value <= MAX_MICROS &&
      r.value.value * TICKS_PER_MICROSECOND <= Ticks(query.lastWriteLow, query.lastWriteHigh)
        < (r.value.value + 1) * TICKS_PER_MICROSECOND
  {
    if query.ret == 0 then
      match FileTimeToDatetime(query.lastWriteLow, query.lastWriteHigh)
      case InRange(t) => Returned(Some(t))
      case OutOfRange => RaisedOverflow
    else
      Returned(None)
  }
}
