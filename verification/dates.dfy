/**
 * Registration and payment dates are stored as `yyyyMMdd` integers. They are
 * written as `Int32.Parse(date.ToString("yyyyMMdd"))` and read back with
 * `DateTime.ParseExact(n.ToString(), "yyyyMMdd", InvariantCulture)`.
 * ParseExact wants exactly four year digits, two month digits and two day
 * digits, so only an integer with exactly eight decimal digits can be read;
 * the digit groups are the arithmetic below.
 */
module Dates {
  import opened Wrappers

  /** A calendar date of the proleptic Gregorian calendar (a DateTime at midnight). */
  datatype Date = Date(year: int, month: int, day: int)

  predicate IsLeapYear(y: int)
  {
    y % 4 == 0 && (y % 100 != 0 || y % 400 == 0)
  }

  function DaysInMonth(y: int, m: int): (n: int)
    requires 1 <= m <= 12
    ensures 28 <= n <= 31
    ensures m == 2 ==> (n == 29 <==> IsLeapYear(y))
  {
    if m == 2 then (if IsLeapYear(y) then 29 else 28)
    else if m == 4 || m == 6 || m == 9 || m == 11 then 30
    else 31
  }

  /** The dates a .NET DateTime can hold (years 1 to 9999). */
  predicate IsValid(d: Date)
  {
    1 <= d.year <= 9999 && 1 <= d.month <= 12 && 1 <= d.day <= DaysInMonth(d.year, d.month)
  }

  /** `Int32.Parse(d.ToString("yyyyMMdd"))`: the zero-padded digits read back as a number. */
  function Encode(d: Date): (n: int)
    requires IsValid(d)
    ensures 10101 <= n <= 99991231
    ensures n >= 10000000 <==> d.year >= 1000
    ensures n % 100 == d.day && n / 100 % 100 == d.month && n / 10000 == d.year
  {
    d.year * 10000 + d.month * 100 + d.day
  }

  /** `DateTime.ParseExact(n.ToString(), "yyyyMMdd", ...)`; None where ParseExact throws. */
  function Decode(n: int): (r: Option<Date>)
    ensures r.Some? ==> IsValid(r.value) && 1000 <= r.value.year
    ensures r.Some? ==> 10000000 <= n <= 99999999
  {
    if 10000000 <= n <= 99999999 then
      var d := Date(n / 10000, n / 100 % 100, n % 100);
      if 1 <= d.month <= 12 && 1 <= d.day <= DaysInMonth(d.year, d.month) then Some(d) else None
    else None
  }

  /** A nullable PaymentDate column: DB null reads as a null date, never as an error. */
  function DecodeNullable(n: Option<int>): (r: Option<Option<Date>>)
    ensures n.None? ==> r == Some(None)
    ensures n.Some? ==> (r.Some? <==> Decode(n.value).Some?)
    ensures r.Some? && r.value.Some? ==> n.Some? && Decode(n.value) == r.value
  {
    match n
    case None => Some(None)
    case Some(v) =>
      match Decode(v)
      case None => None
      case Some(d) => Some(Some(d))
  }

  /** Every date of a four-digit year survives the round trip through its integer code. */
  lemma DecodeEncode(d: Date)
    requires IsValid(d) && 1000 <= d.year
    ensures Decode(Encode(d)) == Some(d)
  {
    var n := Encode(d);
    assert 10000000 <= n <= 99999999;
    assert Date(n / 10000, n / 100 % 100, n % 100) == d;
  }

  /** Whatever decodes is the code of the date it decodes to. */
  lemma EncodeDecode(n: int)
    requires Decode(n).Some?
    ensures Encode(Decode(n).value) == n
  {
    var d := Decode(n).value;
    assert n == (n / 10000) * 10000 + (n / 100 % 100) * 100 + n % 100;
  }

  /** A date before year 1000 encodes to fewer than eight digits, which ParseExact rejects. */
  lemma EarlyYearsDoNotRoundTrip(d: Date)
    requires IsValid(d) && d.year < 1000
    ensures Decode(Encode(d)) == None
  {
    assert Encode(d) < 10000000;
  }
}
