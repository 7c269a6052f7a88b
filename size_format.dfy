// Human-readable file sizes: plain bytes below 1024, otherwise a binary unit
// (KiB, MiB, ... EiB) chosen by dividing by 1024 until the quotient is
// below 1024. Only the integer side is modelled: which unit, which divisor,
// and the quotient's integer part; the one-decimal rendering is not.

module SizeFormat {

  /** Go's int64, the type of a file size. */
  newtype Int64 = x: int | -0x8000_0000_0000_0000 <= x < 0x8000_0000_0000_0000

  const Unit: Int64 := 1024

  /** Unit letters, indexed by the number of extra divisions. */
  const Units: string := "KMGTPE"

  function Pow1024(k: nat): (p: nat)
    ensures p >= 1
  {
    if k == 0 then 1 else 1024 * Pow1024(k - 1)
  }

  /** The largest k with 1024^k <= n (for n >= 1). */
  function Log1024(n: nat): nat
  {
    if n < 1024 then 0 else 1 + Log1024(n / 1024)
  }

  lemma {:induction false} Log1024Bounds(n: nat)
    requires n >= 1
    ensures Pow1024(Log1024(n)) <= n < Pow1024(Log1024(n) + 1)
  {
    if n >= 1024 {
      Log1024Bounds(n / 1024);
      var k := Log1024(n / 1024);
      assert Pow1024(k + 1) == 1024 * Pow1024(k);
      assert Pow1024(k + 2) == 1024 * Pow1024(k + 1);
    }
  }

  /** Log1024 is the only exponent that brackets n between consecutive powers. */
  lemma {:induction false} Log1024Unique(n: nat, k: nat)
    requires Pow1024(k) <= n < Pow1024(k + 1)
    ensures Log1024(n) == k
  {
    if k == 0 {
    } else {
      assert n >= 1024 by {
        PowAtLeast1024(k);
      }
      assert Pow1024(k) == 1024 * Pow1024(k - 1);
      assert Pow1024(k + 1) == 1024 * Pow1024(k);
      Log1024Unique(n / 1024, k - 1);
    }
  }

  lemma {:induction false} PowAtLeast1024(k: nat)
    requires k >= 1
    ensures Pow1024(k) >= 1024
  {
    if k > 1 {
      PowAtLeast1024(k - 1);
    }
  }

  lemma MulLe(x: nat, y: nat, d: nat)
    requires x <= y
    ensures x * d <= y * d
  {
  }

  /**
    * One more division by 1024 keeps n the integer quotient of size by the
    * (multiplied) divisor, and the new divisor still fits under size.
    */
  lemma ScaleStep(size: int, n: int, d: int)
    requires 1024 <= n && d > 0
    requires n * d <= size < (n + 1) * d
    ensures var m := n / 1024;
      1 <= m && d * 1024 <= size &&
      m * (d * 1024) <= size < (m + 1) * (d * 1024)
  {
    var m := n / 1024;
    assert m * 1024 <= n < (m + 1) * 1024;
    MulLe(1024, n, d);
    MulLe(m * 1024, n, d);
    MulLe(n + 1, (m + 1) * 1024, d);
    assert m * (d * 1024) == (m * 1024) * d;
    assert (m + 1) * (d * 1024) == ((m + 1) * 1024) * d;
  }

  // ---------------------------------------------------------------------
  // Decimal rendering of the byte count ("%d")

  function DigitChar(d: nat): char
    requires d < 10
  {
    ('0' as int + d) as char
  }

  predicate IsDigit(c: char)
  {
    '0' <= c <= '9'
  }

  /** The decimal digits of n, most significant first, without leading zeros. */
  function NatDigits(n: nat): (s: string)
    ensures |s| >= 1
    ensures forall i :: 0 <= i < |s| ==> IsDigit(s[i])
    ensures s[0] == '0' ==> n == 0 && |s| == 1
  {
    if n < 10 then [DigitChar(n)] else NatDigits(n / 10) + [DigitChar(n % 10)]
  }

  /** Go's %d of an integer: a minus sign for negative values, then the digits. */
  function Decimal(x: int): string
  {
    if x < 0 then "-" + NatDigits(-x) else NatDigits(x)
  }

  /** Reading decimal digits back, the inverse of NatDigits. */
  function ParseNat(s: string): nat
    requires forall i :: 0 <= i < |s| ==> IsDigit(s[i])
  {
    if s == [] then 0
    else
      assert IsDigit(s[|s| - 1]);
      ParseNat(s[..|s| - 1]) * 10 + (s[|s| - 1] as int - '0' as int)
  }

  function ParseDecimal(s: string): int
    requires s != [] && (forall i :: 0 < i < |s| ==> IsDigit(s[i]))
    requires s[0] == '-' || IsDigit(s[0])
  {
    if s[0] == '-' then -(ParseNat(s[1..]) as int) else ParseNat(s)
  }

  lemma {:induction false} NatDigitsRoundTrip(n: nat)
    ensures ParseNat(NatDigits(n)) == n
  {
    if n >= 10 {
      NatDigitsRoundTrip(n / 10);
      var s := NatDigits(n);
      assert s[..|s| - 1] == NatDigits(n / 10);
    }
  }

  /** The rendered byte count reads back as the size itself. */
  lemma DecimalRoundTrip(x: int)
    ensures var s := Decimal(x);
      s != [] && (forall i :: 0 < i < |s| ==> IsDigit(s[i])) &&
      (s[0] == '-' || IsDigit(s[0])) &&
      ParseDecimal(s) == x
  {
    var s := Decimal(x);
    if x < 0 {
      NatDigitsRoundTrip(-x);
      assert s[1..] == NatDigits(-x);
    } else {
      NatDigitsRoundTrip(x);
    }
  }

  // ---------------------------------------------------------------------
  // The formatter

  /**
    * The formatter's decision: a plain byte count, or a binary unit with the
    * divisor that the printed value is size / div (one decimal place,
    * not modelled).
    */
  datatype SizeLabel =
    | Bytes(text: string)
    | Scaled(div: Int64, exp: nat, suffix: string)

  lemma Pow1024Six()
    ensures Pow1024(6) == 0x1000_0000_0000_0000
  {
    assert Pow1024(1) == 0x400;
    assert Pow1024(2) == 0x10_0000;
    assert Pow1024(3) == 0x4000_0000;
    assert Pow1024(4) == 0x100_0000_0000;
    assert Pow1024(5) == 0x4_0000_0000_0000;
  }

  method FormatSize(size: Int64) returns (r: SizeLabel)
    ensures r.Bytes? <==> size < Unit
    ensures r.Bytes? ==> r.text == Decimal(size as int) + " B"
    ensures r.Scaled? ==>
      r.exp < |Units| &&
      r.div as int == Pow1024(r.exp + 1) &&
      r.div as int <= size as int < 1024 * r.div as int &&
      r.exp + 1 == Log1024(size as int) &&
      r.suffix == [Units[r.exp]] + "iB"
  {
    if size < Unit {
      return Bytes(Decimal(size as int) + " B");
    }
    var div, exp := Unit, 0;
    var n := size / Unit;
    while n >= Unit
      invariant exp <= 5
      invariant div as int == Pow1024(exp + 1)
      invariant 1 <= n && n as int * div as int <= size as int < (n as int + 1) * div as int
      invariant Log1024(size as int) == exp + 1 + Log1024(n as int)
    {
      ScaleStep(size as int, n as int, div as int);
      if exp == 5 {
        Pow1024Six();
        assert false;
      }
      div := div * Unit;
      exp := exp + 1;
      n := n / Unit;
    }
    MulLe(1, n as int, div as int);
    MulLe(n as int + 1, 1024, div as int);
    r := Scaled(div, exp, [Units[exp]] + "iB");
  }

  /** Three sample sizes: 500 B, 2.0 KiB and 1.0 MiB. */
  method FormatSizeExamples()
  {
    var small := FormatSize(500);
    assert small.Bytes?;
    assert Decimal(500) == "500" by {
      assert NatDigits(50) == "50";
    }
    assert small.text == "500 B";

    var kib := FormatSize(2048);
    assert Log1024(2048) == 1;
    assert kib.Scaled? && kib.exp == 0 && kib.div == 1024;
    assert 2048 / kib.div == 2 && kib.suffix == "KiB";

    var mib := FormatSize(1048576);
    assert Log1024(1048576) == 2;
    assert mib.Scaled? && mib.exp == 1 && mib.div == 1048576;
    assert 1048576 / mib.div == 1 && mib.suffix == "MiB";
  }
}
