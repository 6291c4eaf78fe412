/** The Go value types the cache package works with: `byte`, `uint32`,
    strings as the byte sequences they are, and the piece of `fmt`
    formatting the hash ring relies on (`%d` of a non-negative int). */
module GoTypes {

  type byte = bv8

  /** Go's `uint32`, as the integers it can hold. */
  newtype uint32 = x: int | 0 <= x < 0x1_0000_0000

  /** A Go `string`: an immutable sequence of bytes. `[]byte(s)` is the identity. */
  type GoString = seq<byte>

  const Colon: byte := 0x3A

  predicate IsAscii(s: string) {
    forall i | 0 <= i < |s| :: s[i] as int < 128
  }

  /** The bytes of a Go string literal written in plain ASCII. */
  function Ascii(s: string): (r: GoString)
    requires IsAscii(s)
    ensures |r| == |s|
  {
    seq(|s|, i requires 0 <= i < |s| => s[i] as int as byte)
  }

  predicate IsDigit(b: byte) {
    0x30 <= b <= 0x39
  }

  predicate AllDigits(s: GoString) {
    forall i | 0 <= i < |s| :: IsDigit(s[i])
  }

  function DigitByte(d: nat): (b: byte)
    requires d < 10
    ensures IsDigit(b) && (b - 0x30) as int == d
  {
    (0x30 + d) as byte
  }

  function DigitValue(b: byte): (d: nat)
    requires IsDigit(b)
    ensures d < 10 && DigitByte(d) == b
  {
    (b - 0x30) as int
  }

  /** `fmt.Sprintf("%d", n)` for n >= 0: base-10 digits, most significant
      first, without leading zeros. */
  function Decimal(n: nat): (r: GoString)
    ensures |r| >= 1 && AllDigits(r)
    ensures |r| > 1 ==> r[0] != DigitByte(0)
    decreases n
  {
    if n < 10 then [DigitByte(n)] else Decimal(n / 10) + [DigitByte(n % 10)]
  }

  /** Reads a run of decimal digits back as a number (the inverse of Decimal). */
  function ParseDecimal(s: GoString): nat
    requires AllDigits(s)
    decreases |s|
  {
    if s == [] then 0 else ParseDecimal(s[..|s| - 1]) * 10 + DigitValue(s[|s| - 1])
  }

  /** Formatting with `%d` loses nothing: the number can be read back. */
  lemma {:induction false} ParseDecimalRoundTrip(n: nat)
    ensures ParseDecimal(Decimal(n)) == n
    decreases n
  {
    if n >= 10 {
      var q, d := n / 10, n % 10;
      assert n == q * 10 + d;
      var r := Decimal(n);
      assert r == Decimal(q) + [DigitByte(d)];
      assert r[..|r| - 1] == Decimal(q);
      assert DigitValue(r[|r| - 1]) == d;
      ParseDecimalRoundTrip(q);
    }
  }

  /** Distinct numbers format to distinct strings. */
  lemma DecimalInjective(m: nat, n: nat)
    requires Decimal(m) == Decimal(n)
    ensures m == n
  {
    ParseDecimalRoundTrip(m);
    ParseDecimalRoundTrip(n);
  }
}
