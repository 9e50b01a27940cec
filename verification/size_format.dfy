/**
 * `convert_bytes`: a byte count, received as text, rendered for people.
 *
 * The text "N/A" passes through; text `int()` cannot read becomes
 * "Invalid size"; a count below 1024 prints as "{n} bytes"; larger counts
 * print with two decimals in KB, MB or GB (base 1024). The decimals are
 * those of `:.2f` applied to n / 1024^k, which for the exact quotient is
 * the hundredths count rounded to nearest, ties to even.
 */
module SizeFormat {
  import opened DriveStore

  predicate IsDigit(c: char) {
    '0' <= c <= '9'
  }

  predicate AllDigits(s: string) {
    forall i :: 0 <= i < |s| ==> IsDigit(s[i])
  }

  function DigitValue(c: char): nat
    requires IsDigit(c)
  {
    (c as int) - ('0' as int)
  }

  function DigitChar(d: nat): (c: char)
    requires d < 10
    ensures IsDigit(c) && DigitValue(c) == d
  {
    (('0' as int) + d) as char
  }

  /** The number a run of decimal digits denotes */
  function DigitsValue(s: string): nat
    requires AllDigits(s)
  {
    if s == [] then 0 else DigitsValue(s[..|s| - 1]) * 10 + DigitValue(s[|s| - 1])
  }

  /**
   * `int(s)` on the texts this model admits: an optional sign followed by
   * at least one ASCII digit. Every other text is a parse failure.
   */
  function ParseInt(s: string): Option<int> {
    if |s| > 1 && (s[0] == '-' || s[0] == '+') && AllDigits(s[1..]) then
      var magnitude: int := DigitsValue(s[1..]);
      Some(if s[0] == '-' then -magnitude else magnitude)
    else if |s| > 0 && AllDigits(s) then
      Some(DigitsValue(s))
    else
      None
  }

  /** Decimal digits of n, without leading zeros */
  function NatToString(n: nat): (s: string)
    ensures |s| > 0 && AllDigits(s)
    ensures s[0] != '0' || n == 0
  {
    if n < 10 then [DigitChar(n)] else NatToString(n / 10) + [DigitChar(n % 10)]
  }

  /** `f"{n}"` for an int */
  function IntToString(n: int): string {
    if n < 0 then "-" + NatToString(-n) else NatToString(n)
  }

  lemma {:induction false} DigitsRoundTrip(n: nat)
    ensures DigitsValue(NatToString(n)) == n
  {
    if n >= 10 {
      DigitsRoundTrip(n / 10);
      var s := NatToString(n);
      assert s[..|s| - 1] == NatToString(n / 10);
    }
  }

  /** Printing a count and reading it back with `int()` gives the count */
  lemma IntRoundTrip(n: int)
    ensures ParseInt(IntToString(n)) == Some(n)
  {
    if n < 0 {
      DigitsRoundTrip(-n);
      assert IntToString(n)[1..] == NatToString(-n);
    } else {
      DigitsRoundTrip(n);
    }
  }

  /**
   * r is x / d rounded to the nearest integer, ties to the even neighbour
   * (in units of 1/2: |2 (r d - x)| <= d)
   */
  predicate NearestEven(r: int, x: int, d: int) {
    && -d <= 2 * (r * d - x) <= d
    && ((2 * (r * d - x) == d || 2 * (r * d - x) == -d) ==> r % 2 == 0)
  }

  /** The correctly rounded quotient x / d, ties to even */
  function RoundHalfEven(x: nat, d: nat): (r: nat)
    requires d > 0
    ensures NearestEven(r, x, d)
  {
    var q := x / d;
    var rem := x % d;
    assert x == q * d + rem;
    assert (q + 1) * d == q * d + d;
    if 2 * rem < d then q
    else if 2 * rem > d then q + 1
    else if q % 2 == 0 then q
    else q + 1
  }

  /** How far apart r1 d and r2 d are, for neighbouring and for distant r1, r2 */
  lemma ProductGap(r1: int, r2: int, d: int)
    requires d > 0
    ensures r1 - r2 >= 2 ==> r1 * d - r2 * d >= 2 * d
    ensures r1 - r2 <= -2 ==> r1 * d - r2 * d <= -2 * d
    ensures r1 - r2 == 1 ==> r1 * d - r2 * d == d
    ensures r1 - r2 == -1 ==> r1 * d - r2 * d == -d
  {
    var k := r1 - r2;
    assert r1 * d - r2 * d == k * d;
    if k >= 2 {
      assert k * d == (k - 2) * d + 2 * d;
    } else if k <= -2 {
      assert k * d == (k + 2) * d - 2 * d;
    }
  }

  /** At most one integer is the nearest-even quotient, so rounding is determined */
  lemma NearestEvenUnique(r1: int, r2: int, x: int, d: int)
    requires d > 0 && NearestEven(r1, x, d) && NearestEven(r2, x, d)
    ensures r1 == r2
  {
    ProductGap(r1, r2, d);
  }

  /** The three scaled units of the formatter */
  datatype Unit = KB | MB | GB

  function Divisor(u: Unit): nat {
    match u
    case KB => 1024
    case MB => 1024 * 1024
    case GB => 1024 * 1024 * 1024
  }

  function UnitName(u: Unit): string {
    match u
    case KB => "KB"
    case MB => "MB"
    case GB => "GB"
  }

  /** What a count is shown as: plain bytes, or hundredths of a unit */
  datatype Size = Bytes(count: int) | Scaled(hundredths: nat, unit: Unit)

  /** The bracket of a count, with its value in that bracket's unit */
  function Classify(n: int): (s: Size)
    ensures s.Bytes? <==> n < 1024
    ensures s.Bytes? ==> s.count == n
    ensures s.Scaled? ==> (s.unit == KB <==> n < 1024 * 1024)
    ensures s.Scaled? ==> (s.unit == GB <==> 1024 * 1024 * 1024 <= n)
    ensures s.Scaled? ==> NearestEven(s.hundredths, 100 * n, Divisor(s.unit))
  {
    if n < 1024 then Bytes(n)
    else if n < 1024 * 1024 then Scaled(RoundHalfEven(100 * n, 1024), KB)
    else if n < 1024 * 1024 * 1024 then Scaled(RoundHalfEven(100 * n, 1024 * 1024), MB)
    else Scaled(RoundHalfEven(100 * n, 1024 * 1024 * 1024), GB)
  }

  /** `:.2f` of h / 100, for h >= 0 */
  function TwoDecimals(h: nat): string {
    NatToString(h / 100) + "." + [DigitChar(h % 100 / 10), DigitChar(h % 10)]
  }

  function Render(s: Size): string {
    match s
    case Bytes(n) => IntToString(n) + " bytes"
    case Scaled(h, u) => TwoDecimals(h) + " " + UnitName(u)
  }

  /** A rendered size ends in "bytes" or in a unit name */
  lemma RenderEnding(s: Size)
    ensures |Render(s)| >= 6
    ensures s.Bytes? ==> HasSuffix(Render(s), " bytes")
    ensures s.Scaled? ==> Render(s)[|Render(s)| - 3..] == " " + UnitName(s.unit)
    ensures Render(s) != "N/A" && Render(s) != "Invalid size"
  {
    var r := Render(s);
    assert "Invalid size"[6..] == "d size";
    if s.Bytes? {
      assert r[|r| - 6..] == " bytes";
    } else {
      assert |TwoDecimals(s.hundredths)| >= 4;
      assert r[|r| - 3..] == " " + UnitName(s.unit);
      assert r[|r| - 3] == ' ' && "Invalid size"[9] == 'i';
    }
  }

  /** `convert_bytes` */
  function ConvertBytes(field: string): (r: string)
    ensures r == "N/A" <==> field == "N/A"
    ensures r == "Invalid size" <==> field != "N/A" && ParseInt(field).None?
  {
    if field == "N/A" then "N/A"
    else match ParseInt(field)
      case None => "Invalid size"
      case Some(n) => RenderEnding(Classify(n)); Render(Classify(n))
  }

  predicate HasSuffix(s: string, t: string) {
    |t| <= |s| && s[|s| - |t|..] == t
  }

  /** Reads "<digits>.<d><d>" back into hundredths */
  function ReadTwoDecimals(t: string): Option<nat> {
    if |t| >= 4 && t[|t| - 3] == '.' && AllDigits(t[..|t| - 3])
       && IsDigit(t[|t| - 2]) && IsDigit(t[|t| - 1])
    then Some(DigitsValue(t[..|t| - 3]) * 100 + DigitValue(t[|t| - 2]) * 10 + DigitValue(t[|t| - 1]))
    else None
  }

  /** Reads a rendered size back; the inverse of Render */
  function ReadSize(r: string): Option<Size> {
    if HasSuffix(r, " bytes") then
      match ParseInt(r[..|r| - 6])
      case Some(n) => Some(Bytes(n))
      case None => None
    else if HasSuffix(r, " KB") then
      match ReadTwoDecimals(r[..|r| - 3])
      case Some(h) => Some(Scaled(h, KB))
      case None => None
    else if HasSuffix(r, " MB") then
      match ReadTwoDecimals(r[..|r| - 3])
      case Some(h) => Some(Scaled(h, MB))
      case None => None
    else if HasSuffix(r, " GB") then
      match ReadTwoDecimals(r[..|r| - 3])
      case Some(h) => Some(Scaled(h, GB))
      case None => None
    else None
  }

  lemma TwoDecimalsRoundTrip(h: nat)
    ensures ReadTwoDecimals(TwoDecimals(h)) == Some(h)
  {
    var t := TwoDecimals(h);
    var w := NatToString(h / 100);
    assert t[..|t| - 3] == w;
    DigitsRoundTrip(h / 100);
    assert h % 100 == (h % 100 / 10) * 10 + h % 10;
  }

  /** Every rendered size reads back as the size it renders, so no two sizes look alike */
  lemma RenderRoundTrip(s: Size)
    ensures ReadSize(Render(s)) == Some(s)
  {
    var r := Render(s);
    match s
    case Bytes(n) =>
      assert r[|r| - 6..] == " bytes";
      assert r[..|r| - 6] == IntToString(n);
      IntRoundTrip(n);
    case Scaled(h, u) =>
      var t := TwoDecimals(h);
      RenderEnding(s);
      assert r == t + " " + UnitName(u);
      assert r[..|r| - 3] == t;
      assert r[|r| - 1] == 'B' && r[|r| - 2] == UnitName(u)[0];
      assert !HasSuffix(r, " bytes") by {
        assert r[|r| - 6..][5] == r[|r| - 1];
      }
      assert HasSuffix(r, " KB") <==> u == KB by {
        assert |r| >= 3 ==> r[|r| - 3..][1] == r[|r| - 2];
      }
      assert HasSuffix(r, " MB") <==> u == MB by {
        assert |r| >= 3 ==> r[|r| - 3..][1] == r[|r| - 2];
      }
      TwoDecimalsRoundTrip(h);
  }

  /**
   * The output of `convert_bytes` for a readable count reads back as the
   * count's bracket and rounded value
   */
  lemma ConvertBytesReadsBack(field: string)
    requires field != "N/A" && ParseInt(field).Some?
    ensures ReadSize(ConvertBytes(field)) == Some(Classify(ParseInt(field).value))
  {
    RenderRoundTrip(Classify(ParseInt(field).value));
  }

  /** Counts below 1024, negatives included, print as plain bytes */
  lemma SmallCountsArePlain(n: int)
    requires n < 1024
    ensures ConvertBytes(IntToString(n)) == IntToString(n) + " bytes"
  {
    IntRoundTrip(n);
    assert IntToString(n) != "N/A" by {
      assert IntToString(n)[|IntToString(n)| - 1] != 'A';
    }
  }

  /** The boundary values of each bracket */
  lemma ZeroAndLastPlain()
    ensures ConvertBytes("0") == "0 bytes"
    ensures ConvertBytes("1023") == "1023 bytes"
  {
    assert IntToString(0) == "0";
    IntRoundTrip(0);
    assert NatToString(1) == "1";
    assert NatToString(10) == "10";
    assert NatToString(102) == "102";
    assert IntToString(1023) == "1023";
    IntRoundTrip(1023);
  }

  lemma FirstKilobyte()
    ensures ConvertBytes("1024") == "1.00 KB"
  {
    assert NatToString(1) == "1";
    assert NatToString(10) == "10";
    assert NatToString(102) == "102";
    assert IntToString(1024) == "1024";
    IntRoundTrip(1024);
    assert RoundHalfEven(102400, 1024) == 100;
    assert TwoDecimals(100) == "1.00";
  }

  lemma FirstMegabyte()
    ensures ConvertBytes("1048576") == "1.00 MB"
  {
    assert NatToString(1) == "1";
    assert NatToString(10) == "10";
    assert NatToString(104) == "104";
    assert NatToString(1048) == "1048";
    assert NatToString(10485) == "10485";
    assert NatToString(104857) == "104857";
    assert IntToString(1048576) == "1048576";
    IntRoundTrip(1048576);
    assert RoundHalfEven(104857600, 1048576) == 100;
    assert TwoDecimals(100) == "1.00";
  }

  lemma FirstGigabyte()
    ensures ConvertBytes("1073741824") == "1.00 GB"
  {
    assert ParseInt("1073741824") == Some(1073741824) by {
      assert NatToString(1) == "1";
      assert NatToString(10) == "10";
      assert NatToString(107) == "107";
      assert NatToString(1073) == "1073";
      assert NatToString(10737) == "10737";
      assert NatToString(107374) == "107374";
      assert NatToString(1073741) == "1073741";
      assert NatToString(10737418) == "10737418";
      assert NatToString(107374182) == "107374182";
      assert IntToString(1073741824) == "1073741824";
      IntRoundTrip(1073741824);
    }
    assert Classify(1073741824) == Scaled(100, GB) by {
      assert RoundHalfEven(107374182400, 1073741824) == 100;
    }
    assert Render(Scaled(100, GB)) == "1.00 GB" by {
      assert NatToString(1) == "1";
      assert TwoDecimals(100) == "1.00";
    }
  }

  /** Just below one MB the rounding carries into a fourth integer digit */
  lemma KilobyteCarry()
    ensures ConvertBytes("1048575") == "1024.00 KB"
  {
    assert ParseInt("1048575") == Some(1048575) by {
      assert NatToString(1) == "1";
      assert NatToString(10) == "10";
      assert NatToString(104) == "104";
      assert NatToString(1048) == "1048";
      assert NatToString(10485) == "10485";
      assert NatToString(104857) == "104857";
      assert IntToString(1048575) == "1048575";
      IntRoundTrip(1048575);
    }
    assert Classify(1048575) == Scaled(102400, KB) by {
      assert RoundHalfEven(104857500, 1024) == 102400;
    }
    assert Render(Scaled(102400, KB)) == "1024.00 KB" by {
      assert NatToString(1) == "1";
      assert NatToString(10) == "10";
      assert NatToString(102) == "102";
      assert NatToString(1024) == "1024";
      assert TwoDecimals(102400) == "1024.00";
    }
  }

  /** Text that is not a signed run of digits */
  lemma NotANumber()
    ensures ConvertBytes("not-a-number") == "Invalid size"
  {
    assert !IsDigit("not-a-number"[0]);
  }
}
