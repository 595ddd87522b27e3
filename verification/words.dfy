/** 32-bit machine words and their decimal text.

    The compiler works on Rust `i32` values; the target machine holds
    32-bit registers.  `I32` is the range of the former, `bv32` the
    content of the latter, and `ToSigned` reads a register the way the
    signed RV32 instructions (`slt`, `div`, `rem`) do. */
module Words {
  import opened Wrappers

  const TWO_31: int := 0x8000_0000
  const TWO_32: int := 0x1_0000_0000

  type I32 = x: int | -TWO_31 <= x < TWO_31

  /** Content of a 32-bit register, read as an unsigned number. */
  type Word = w: int | 0 <= w < TWO_32

  /** Two's-complement reading of a register. */
  function ToSigned(w: Word): (r: I32)
    ensures r >= 0 <==> w < TWO_31
    ensures r % TWO_32 == w
  {
    if w < TWO_31 then w else w - TWO_32
  }

  /** Two's-complement encoding of an `i32` (what `li` loads). */
  function FromSigned(x: I32): (w: Word)
    ensures ToSigned(w) == x
  {
    if x >= 0 then x else x + TWO_32
  }

  /** Reduction of an unbounded integer to a register's 32 bits. */
  function Wrap(x: int): Word {
    x % TWO_32
  }

  lemma ToSignedInjective(a: Word, b: Word)
    ensures ToSigned(a) == ToSigned(b) <==> a == b
  {
  }

  /** Bitwise exclusive or of the low `n` bits of `a` and `b`. */
  function XorBits(a: nat, b: nat, n: nat): nat
  {
    if n == 0 then 0 else (if a % 2 != b % 2 then 1 else 0) + 2 * XorBits(a / 2, b / 2, n - 1)
  }

  /** Bitwise and of the low `n` bits. */
  function AndBits(a: nat, b: nat, n: nat): nat
  {
    if n == 0 then 0 else (if a % 2 == 1 && b % 2 == 1 then 1 else 0) + 2 * AndBits(a / 2, b / 2, n - 1)
  }

  /** Bitwise or of the low `n` bits. */
  function OrBits(a: nat, b: nat, n: nat): nat
  {
    if n == 0 then 0 else (if a % 2 == 1 || b % 2 == 1 then 1 else 0) + 2 * OrBits(a / 2, b / 2, n - 1)
  }

  function Pow2(n: nat): (p: nat)
    ensures p >= 1
  {
    if n == 0 then 1 else 2 * Pow2(n - 1)
  }

  lemma {:induction false} BitsBounded(a: nat, b: nat, n: nat)
    ensures XorBits(a, b, n) < Pow2(n)
    ensures AndBits(a, b, n) < Pow2(n)
    ensures OrBits(a, b, n) < Pow2(n)
  {
    if n > 0 {
      BitsBounded(a / 2, b / 2, n - 1);
    }
  }

  lemma {:induction false} Pow2Add(m: nat, n: nat)
    ensures Pow2(m + n) == Pow2(m) * Pow2(n)
  {
    if m > 0 {
      Pow2Add(m - 1, n);
    }
  }

  lemma Pow2Of32()
    ensures Pow2(32) == TWO_32
  {
    assert Pow2(2) == 4;
    assert Pow2(4) == 16 by { Pow2Add(2, 2); }
    assert Pow2(8) == 256 by { Pow2Add(4, 4); }
    assert Pow2(16) == 65536 by { Pow2Add(8, 8); }
    Pow2Add(16, 16);
  }

  /** Exclusive or of two `n`-bit numbers is zero exactly when they are equal:
      the fact the `xor`-based equality tests rely on. */
  lemma {:induction false} XorZeroIffEqual(a: nat, b: nat, n: nat)
    requires a < Pow2(n) && b < Pow2(n)
    ensures XorBits(a, b, n) == 0 <==> a == b
  {
    if n == 0 {
    } else {
      XorZeroIffEqual(a / 2, b / 2, n - 1);
    }
  }

  function Xor32(a: Word, b: Word): (w: Word)
    ensures w == 0 <==> a == b
  {
    Pow2Of32();
    BitsBounded(a, b, 32);
    XorZeroIffEqual(a, b, 32);
    XorBits(a, b, 32)
  }

  /** Bit `k` of `a`, counting from the least significant. */
  function Bit(a: nat, k: nat): (b: nat)
    ensures b <= 1
  {
    if k == 0 then a % 2 else Bit(a / 2, k - 1)
  }

  /** Bit `k` of a bitwise and is set exactly when it is set in both
      operands. */
  lemma {:induction false} AndBitsBit(a: nat, b: nat, n: nat, k: nat)
    requires k < n
    ensures Bit(AndBits(a, b, n), k) == 1 <==> Bit(a, k) == 1 && Bit(b, k) == 1
  {
    var low := if a % 2 == 1 && b % 2 == 1 then 1 else 0;
    var rest := AndBits(a / 2, b / 2, n - 1);
    assert AndBits(a, b, n) == low + 2 * rest;
    HalveLow(low, rest);
    if k > 0 {
      AndBitsBit(a / 2, b / 2, n - 1, k - 1);
    }
  }

  /** Bit `k` of a bitwise or is set exactly when it is set in either
      operand. */
  lemma {:induction false} OrBitsBit(a: nat, b: nat, n: nat, k: nat)
    requires k < n
    ensures Bit(OrBits(a, b, n), k) == 1 <==> Bit(a, k) == 1 || Bit(b, k) == 1
  {
    var low := if a % 2 == 1 || b % 2 == 1 then 1 else 0;
    var rest := OrBits(a / 2, b / 2, n - 1);
    assert OrBits(a, b, n) == low + 2 * rest;
    HalveLow(low, rest);
    if k > 0 {
      OrBitsBit(a / 2, b / 2, n - 1, k - 1);
    }
  }

  lemma HalveLow(low: nat, rest: nat)
    requires low <= 1
    ensures (low + 2 * rest) % 2 == low && (low + 2 * rest) / 2 == rest
  {
  }

  lemma AndBitsEveryBit(a: nat, b: nat, n: nat)
    ensures forall k :: 0 <= k < n ==> (Bit(AndBits(a, b, n), k) == 1 <==> Bit(a, k) == 1 && Bit(b, k) == 1)
  {
    forall k | 0 <= k < n
      ensures Bit(AndBits(a, b, n), k) == 1 <==> Bit(a, k) == 1 && Bit(b, k) == 1
    {
      AndBitsBit(a, b, n, k);
    }
  }

  lemma OrBitsEveryBit(a: nat, b: nat, n: nat)
    ensures forall k :: 0 <= k < n ==> (Bit(OrBits(a, b, n), k) == 1 <==> Bit(a, k) == 1 || Bit(b, k) == 1)
  {
    forall k | 0 <= k < n
      ensures Bit(OrBits(a, b, n), k) == 1 <==> Bit(a, k) == 1 || Bit(b, k) == 1
    {
      OrBitsBit(a, b, n, k);
    }
  }

  /** RV32 `and` on two words. */
  function And32(a: Word, b: Word): Word
  {
    Pow2Of32();
    BitsBounded(a, b, 32);
    AndBits(a, b, 32)
  }

  /** RV32 `or` on two words. */
  function Or32(a: Word, b: Word): Word
  {
    Pow2Of32();
    BitsBounded(a, b, 32);
    OrBits(a, b, 32)
  }

  /** Each of the 32 bits of `and` is set iff it is set in both operands. */
  lemma And32EveryBit(a: Word, b: Word)
    ensures forall k :: 0 <= k < 32 ==> (Bit(And32(a, b), k) == 1 <==> Bit(a, k) == 1 && Bit(b, k) == 1)
  {
    AndBitsEveryBit(a, b, 32);
  }

  /** Each of the 32 bits of `or` is set iff it is set in either operand. */
  lemma Or32EveryBit(a: Word, b: Word)
    ensures forall k :: 0 <= k < 32 ==> (Bit(Or32(a, b), k) == 1 <==> Bit(a, k) == 1 || Bit(b, k) == 1)
  {
    OrBitsEveryBit(a, b, 32);
  }

  function Abs(x: int): nat {
    if x < 0 then -x else x
  }

  /** Quotient rounded toward zero, as Rust's `/` on `i32` and RV32M's
      `div` compute it (Dafny's own `/` is Euclidean). */
  function TruncDiv(a: int, b: int): int
    requires b != 0
  {
    var q := Abs(a) / Abs(b);
    if (a < 0) != (b < 0) then -q else q
  }

  /** Remainder taking the sign of the dividend, as Rust's `%` and RV32M's
      `rem` compute it. */
  function TruncRem(a: int, b: int): int
    requires b != 0
  {
    var r := Abs(a) % Abs(b);
    if a < 0 then -r else r
  }

  lemma MulNeg(x: int, y: int)
    ensures (-x) * y == -(x * y) && x * (-y) == -(x * y) && (-x) * (-y) == x * y
  {
  }

  lemma MulAtLeast(b: int, q: int)
    requires b >= 1 && q >= 0
    ensures b * q >= q
  {
  }

  lemma Recombine(a: int, b: int, q: int, r: int)
    requires b != 0
    requires Abs(a) == Abs(b) * q + r
    ensures a == b * (if (a < 0) != (b < 0) then -q else q) + (if a < 0 then -r else r)
  {
    MulNeg(b, q);
    if b < 0 {
      assert Abs(b) * q == -(b * q);
    } else {
      assert Abs(b) * q == b * q;
    }
  }

  /** Truncating division and remainder fit together as division should:
      the remainder is smaller than the divisor, has the dividend's sign,
      and the quotient never grows in magnitude beyond the dividend. */
  lemma TruncDivRem(a: int, b: int)
    requires b != 0
    ensures a == b * TruncDiv(a, b) + TruncRem(a, b)
    ensures Abs(TruncRem(a, b)) < Abs(b)
    ensures TruncRem(a, b) == 0 || (TruncRem(a, b) < 0 <==> a < 0)
    ensures Abs(TruncDiv(a, b)) <= Abs(a)
  {
    var aa: int, bb: int := Abs(a), Abs(b);
    var q: int, r: int := NatDivMod(aa, bb);
    assert TruncDiv(a, b) == (if (a < 0) != (b < 0) then -q else q);
    assert TruncRem(a, b) == (if a < 0 then -r else r);
    Recombine(a, b, q, r);
  }

  /** Euclidean division of naturals, with the facts the lemma above uses. */
  lemma NatDivMod(aa: int, bb: int) returns (q: int, r: int)
    requires aa >= 0 && bb >= 1
    ensures q == aa / bb && r == aa % bb
    ensures aa == bb * q + r && 0 <= r < bb && 0 <= q <= aa
  {
    q, r := aa / bb, aa % bb;
    MulAtLeast(bb, q);
  }

  // ---------------------------------------------------------------------
  // Decimal text, as Rust's `{}` formats an integer and `str::parse`
  // reads an unsigned one back.

  predicate IsDigit(c: char) {
    '0' <= c <= '9'
  }

  function DigitChar(d: nat): (c: char)
    requires d < 10
    ensures IsDigit(c)
  {
    "0123456789"[d]
  }

  function DigitValue(c: char): (d: nat)
    requires IsDigit(c)
    ensures d < 10
  {
    (c as int - '0' as int)
  }

  lemma DigitRoundTrip(d: nat)
    requires d < 10
    ensures DigitValue(DigitChar(d)) == d
  {
  }

  /** Shortest decimal text of `n`, no sign, no leading zero. */
  function NatToString(n: nat): (s: string)
    ensures |s| >= 1
    ensures forall i :: 0 <= i < |s| ==> IsDigit(s[i])
    ensures |s| > 1 ==> s[0] != '0'
  {
    if n < 10 then [DigitChar(n)] else NatToString(n / 10) + [DigitChar(n % 10)]
  }

  /** Decimal text of an integer: a leading '-' exactly when negative. */
  function IntToString(x: int): (s: string)
    ensures |s| >= 1
    ensures s[0] == '-' <==> x < 0
  {
    if x < 0 then "-" + NatToString(-x) else NatToString(x)
  }

  predicate AllDigits(s: string) {
    forall i :: 0 <= i < |s| ==> IsDigit(s[i])
  }

  /** Value of a digit string, most significant digit first. */
  function DigitsValue(s: string): nat
    requires AllDigits(s)
  {
    if |s| == 0 then 0 else DigitsValue(s[..|s| - 1]) * 10 + DigitValue(s[|s| - 1])
  }

  /** One past `usize::MAX` on the 64-bit hosts the compiler runs on. */
  const USIZE_LIMIT: nat := 0x1_0000_0000_0000_0000

  /** An optional '+', then one or more decimal digits, read without a
      bound on the value. */
  function ParseDecimal(s: string): (r: Option<nat>)
    ensures r.Some? ==> |s| >= 1 && (s[0] == '+' || IsDigit(s[0]))
    ensures |s| > 0 && AllDigits(s) ==> r == Some(DigitsValue(s))
  {
    var digits := if |s| > 0 && s[0] == '+' then s[1..] else s;
    if |digits| > 0 && AllDigits(digits) then Some(DigitsValue(digits)) else None
  }

  /** Rust's `usize::from_str`: the decimal reading above, which is an
      error as well when the value exceeds `usize::MAX`. */
  function ParseUsize(s: string): (r: Option<nat>)
    ensures r.Some? ==> |s| >= 1 && (s[0] == '+' || IsDigit(s[0])) && r.value < USIZE_LIMIT
    ensures |s| > 0 && AllDigits(s) ==> r == if DigitsValue(s) < USIZE_LIMIT then Some(DigitsValue(s)) else None
  {
    match ParseDecimal(s)
    case Some(n) => if n < USIZE_LIMIT then Some(n) else None
    case None => None
  }

  lemma {:induction false} DigitsValueOfNatToString(n: nat)
    ensures DigitsValue(NatToString(n)) == n
  {
    var s := NatToString(n);
    if n < 10 {
      DigitRoundTrip(n);
    } else {
      var prefix := NatToString(n / 10);
      assert s == prefix + [DigitChar(n % 10)];
      assert s[..|s| - 1] == prefix;
      DigitsValueOfNatToString(n / 10);
      DigitRoundTrip(n % 10);
    }
  }

  /** Parsing the rendered decimal text of a number gives the number
      back, for every number a `usize` holds. */
  lemma ParseNatToString(n: nat)
    requires n < USIZE_LIMIT
    ensures ParseUsize(NatToString(n)) == Some(n)
  {
    DigitsValueOfNatToString(n);
  }

  lemma DecimalOfNatToString(n: nat)
    ensures ParseDecimal(NatToString(n)) == Some(n)
  {
    DigitsValueOfNatToString(n);
  }

  /** Signed decimal text read back, as an assembler reads an immediate:
      an optional '-' then a decimal number. */
  function ParseInt(s: string): Option<int> {
    if |s| > 0 && s[0] == '-' then
      match ParseDecimal(s[1..])
      case Some(n) => Some(-(n as int))
      case None => None
    else
      match ParseDecimal(s)
      case Some(n) => Some(n as int)
      case None => None
  }

  /** Every rendered integer (an immediate, an offset) reads back as itself. */
  lemma ParseIntToString(x: int)
    ensures ParseInt(IntToString(x)) == Some(x)
  {
    if x < 0 {
      ParseNegative(x);
    } else {
      ParseNonNegative(x);
    }
  }

  lemma ParseNegative(x: int)
    requires x < 0
    ensures ParseInt(IntToString(x)) == Some(x)
  {
    var s := IntToString(x);
    assert s[1..] == NatToString(-x) by {
      assert s == "-" + NatToString(-x);
    }
    DecimalOfNatToString(-x);
    ParseSigned(s, -x);
  }

  lemma ParseNonNegative(x: int)
    requires x >= 0
    ensures ParseInt(IntToString(x)) == Some(x)
  {
    var s := NatToString(x);
    assert IntToString(x) == s;
    DecimalOfNatToString(x);
    ParseUnsigned(s, x);
  }

  /** ParseInt on text with a leading '-' negates what follows. */
  lemma ParseSigned(s: string, n: nat)
    requires |s| > 0 && s[0] == '-' && ParseDecimal(s[1..]) == Some(n)
    ensures ParseInt(s) == Some(-(n as int))
  {
  }

  /** ParseInt on text without a leading '-' is ParseDecimal. */
  lemma ParseUnsigned(s: string, n: nat)
    requires |s| > 0 && s[0] != '-' && ParseDecimal(s) == Some(n)
    ensures ParseInt(s) == Some(n as int)
  {
  }

  /** A value beyond `usize::MAX` is rejected even though it is a well-formed
      digit string. */
  lemma UsizeOverflowRejected(n: nat)
    requires n >= USIZE_LIMIT
    ensures ParseUsize(NatToString(n)) == None
  {
    DigitsValueOfNatToString(n);
  }

  lemma {:induction false} NatToStringInjective(a: nat, b: nat)
    ensures NatToString(a) == NatToString(b) ==> a == b
  {
    if NatToString(a) == NatToString(b) {
      DigitsValueOfNatToString(a);
      DigitsValueOfNatToString(b);
    }
  }
}
