/**
 * C character strings as Dafny sequences: a C `char` is one byte, a C string is a
 * sequence of non-NUL bytes, and memory read by `%s` or `strlen` stops at the first NUL.
 */
module CText {

  const NUL: char := '\0'

  /** The 8-bit value a C `char` holding `c` carries (truncation to one byte). */
  function ByteOf(c: char): (b: nat)
    ensures b < 256
    ensures c as int < 256 ==> b == c as int
  {
    if c as int < 256 then c as int else c as int % 256
  }

  /** Every character fits in one byte. */
  predicate IsBytes(s: seq<char>) {
    forall i :: 0 <= i < |s| ==> s[i] as int < 256
  }

  /** The bytes after the first of a byte string are bytes too. */
  lemma {:induction false} BytesTail(s: seq<char>)
    requires IsBytes(s) && |s| > 0
    ensures IsBytes(s[1..])
  {
    forall j | 0 <= j < |s[1..]| ensures s[1..][j] as int < 256 {
      assert s[1..][j] == s[j + 1];
    }
  }

  /** A C string: bytes without an embedded NUL. */
  predicate IsCString(s: seq<char>) {
    IsBytes(s) && NUL !in s
  }

  /** The C string starting at `start` in `mem`: the bytes up to the first NUL at or after `start`. */
  function CStringAt(mem: seq<char>, start: nat): (r: seq<char>)
    requires start <= |mem|
    ensures |r| <= |mem| - start
    ensures r == mem[start..start + |r|]
    ensures NUL !in r
    ensures start + |r| < |mem| ==> mem[start + |r|] == NUL
    decreases |mem| - start
  {
    if start == |mem| || mem[start] == NUL then []
    else [mem[start]] + CStringAt(mem, start + 1)
  }

  /** A string followed by its NUL reads back as itself, from any index on, whatever follows the NUL. */
  lemma {:induction false} CStringAtTerminated(s: seq<char>, tail: seq<char>, i: nat)
    requires NUL !in s
    requires i <= |s|
    ensures CStringAt(s + [NUL] + tail, i) == s[i..]
    decreases |s| - i
  {
    var mem := s + [NUL] + tail;
    if i < |s| {
      assert mem[i] == s[i];
      CStringAtTerminated(s, tail, i + 1);
      assert s[i..] == [s[i]] + s[i + 1..];
    } else {
      assert mem[i] == NUL;
    }
  }

  /** `isspace` in the C locale. */
  predicate IsSpace(c: char) {
    c == ' ' || c == '\t' || c == '\n' || c as int == 11 || c as int == 12 || c == '\r'
  }

  /** Truncation toward zero, as C's `/` on signed integers computes it. */
  function CDiv(a: int, b: int): (q: int)
    requires b > 0
    ensures 0 <= a ==> 0 <= a - q * b < b
    ensures a < 0 ==> -b < a - q * b <= 0
  {
    if a >= 0 then a / b else -((-a) / b)
  }

  /** A C `unsigned int` holding the integer `x`: reduction modulo 2^32. */
  function U32(x: int): (u: nat)
    ensures u < 0x1_0000_0000
    ensures 0 <= x < 0x1_0000_0000 ==> u == x
    ensures (u - x) % 0x1_0000_0000 == 0
  {
    x % 0x1_0000_0000
  }

  /** A C `uint16_t` holding the integer `x`: reduction modulo 2^16. */
  function U16(x: int): (u: nat)
    ensures u < 0x1_0000
    ensures 0 <= x < 0x1_0000 ==> u == x
    ensures (u - x) % 0x1_0000 == 0
  {
    x % 0x1_0000
  }

  /** A C `int16_t` (`short`) holding the integer `x`: two's-complement wrap-around. */
  function I16(x: int): (v: int)
    ensures -0x8000 <= v < 0x8000
    ensures -0x8000 <= x < 0x8000 ==> v == x
    ensures (v - x) % 0x1_0000 == 0
  {
    (x + 0x8000) % 0x1_0000 - 0x8000
  }

  /** `isdigit` in the C locale. */
  predicate IsDigit(c: char) { '0' <= c <= '9' }

  /** The value of a string of decimal digits, 0 for the empty one. */
  function DigitsValue(d: seq<char>): (v: nat)
    requires forall i :: 0 <= i < |d| ==> IsDigit(d[i])
  {
    if |d| == 0 then 0
    else
      assert IsDigit(d[|d| - 1]);
      DigitsValue(d[..|d| - 1]) * 10 + (d[|d| - 1] as int - '0' as int)
  }

  /** The digit of a decimal digit value. */
  function DigitChar(d: nat): (c: char)
    requires d < 10
    ensures '0' <= c <= '9' && c as int - '0' as int == d
  {
    ('0' as int + d) as char
  }

  /** `sprintf("%u", n)`: the decimal digits of `n`, without leading zeros. */
  function Decimal(n: nat): (s: seq<char>)
    ensures 1 <= |s|
    ensures forall i :: 0 <= i < |s| ==> '0' <= s[i] <= '9'
    ensures |s| > 1 ==> s[0] != '0'
  {
    if n < 10 then [DigitChar(n)] else Decimal(n / 10) + [DigitChar(n % 10)]
  }

  /** The digits of `%u` read back: `DigitsValue` inverts `Decimal`. */
  lemma {:induction false} DigitsValueOfDecimal(n: nat)
    ensures DigitsValue(Decimal(n)) == n
  {
    var d := Decimal(n);
    if n >= 10 {
      DigitsValueOfDecimal(n / 10);
      assert d[..|d| - 1] == Decimal(n / 10);
    }
  }
}
