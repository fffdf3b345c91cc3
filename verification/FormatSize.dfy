/** The integer part of formatting a byte count: which unit, and its divisor. */
module FormatSize {

  newtype int64 = x: int | -0x8000_0000_0000_0000 <= x < 0x8000_0000_0000_0000

  const UNIT: int64 := 1024

  const PREFIXES := "KMGTPE"

  /** A count below one unit is printed as it is; any other as n / div and a prefix. */
  datatype Size = Bytes(n: int64) | Scaled(div: int64, exp: nat, prefix: char)

  function Power(k: nat): int
  {
    if k == 0 then 1 else 1024 * Power(k - 1)
  }

  lemma {:induction false} PowerGrows(a: nat, b: nat)
    requires a <= b
    ensures 0 < Power(a) <= Power(b)
    decreases b
  {
    if a < b {
      PowerGrows(a, b - 1);
    } else if a > 0 {
      PowerGrows(a - 1, b - 1);
    }
  }

  /** Of all units, n has exactly one: no other power of 1024 leaves a quotient
      of at least 1 and below 1024. */
  lemma OnlyOneUnit(n: int, j: nat, k: nat)
    requires Power(j) <= n < Power(j + 1) && Power(k) <= n < Power(k + 1)
    ensures j == k
  {
    if j < k {
      PowerGrows(j + 1, k);
    } else if k < j {
      PowerGrows(k + 1, j);
    }
  }

  /** The largest unit of a 64-bit count is the sixth. */
  lemma AtMostSixUnits(n: int64, k: nat)
    requires Power(k) <= n as int
    ensures k <= 6
  {
    if k > 6 {
      assert Power(7) == 1024 * 1024 * 1024 * 1024 * 1024 * 1024 * 1024;
      PowerGrows(7, k);
    }
  }

  /** m is the quotient of n by d. */
  ghost predicate Quotient(n: int, d: int, m: int)
  {
    d > 0 && d * m <= n < d * m + d
  }

  lemma SplitProduct(d: int, q: int, r: int)
    requires d > 0 && 0 <= r < 1024
    ensures d * (1024 * q + r) == 1024 * (d * q) + d * r && 0 <= d * r <= 1023 * d
    ensures (1024 * d) * q == 1024 * (d * q)
    ensures q >= 1 ==> d * q >= d
  {
  }

  /** The quotient by d, divided by 1024, is the quotient by 1024 * d. */
  lemma DivideAgain(n: int, d: int, m: int)
    requires m >= 1024 && Quotient(n, d, m)
    ensures 1024 * d <= n && Quotient(n, 1024 * d, m / 1024)
  {
    SplitProduct(d, m / 1024, m % 1024);
  }

  lemma QuotientBelow(n: int, d: int, m: int)
    requires 1 <= m < 1024 && Quotient(n, d, m)
    ensures d <= n < 1024 * d
  {
  }

  method FormatSizeUnit(n: int64) returns (r: Size)
    ensures n < UNIT ==> r == Bytes(n)
    ensures n >= UNIT ==>
      && r.Scaled? && r.exp <= 5 && r.prefix == PREFIXES[r.exp]
      && r.div as int == Power(r.exp + 1) && r.div as int <= n as int < 1024 * (r.div as int)
  {
    if n < UNIT {
      return Bytes(n);
    }
    var div, exp: nat, m := UNIT, 0, n / UNIT;
    while m >= UNIT
      invariant m >= 1
      invariant div as int == Power(exp + 1) && Quotient(n as int, div as int, m as int)
      decreases m
    {
      DivideAgain(n as int, div as int, m as int);
      div := div * UNIT;
      exp := exp + 1;
      m := m / UNIT;
    }
    QuotientBelow(n as int, div as int, m as int);
    AtMostSixUnits(n, exp + 1);
    return Scaled(div, exp, PREFIXES[exp]);
  }
}
