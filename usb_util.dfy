/**
 * javax.usb.util.UsbUtil: unsigned readings of Java's signed integers and
 * fixed-width hexadecimal formatting.
 *
 * Java's `&` on a value widened with sign extension keeps the low bits of its
 * two's-complement form; on integers that is the Euclidean remainder by a power
 * of two, which is what Dafny's `%` computes.
 */
module UsbUtil {
  import opened Wrappers
  import opened JavaTypes
  import opened UsbErrors

  // ---------------------------------------------------------------- unsigned conversions

  /** unsignedShort(byte): the byte's eight bits read as an unsigned number. */
  function UnsignedShort(b: int8): (r: int16)
    ensures 0 <= r < 0x100
    ensures r as int == b as int || r as int == b as int + TWO_TO_THE_8
  {
    (b as int % TWO_TO_THE_8) as int16
  }

  /** unsignedInt(byte) */
  function UnsignedIntOfByte(b: int8): (r: int32)
    ensures 0 <= r < 0x100
    ensures r as int == b as int || r as int == b as int + TWO_TO_THE_8
  {
    (b as int % TWO_TO_THE_8) as int32
  }

  /** unsignedInt(short) */
  function UnsignedIntOfShort(s: int16): (r: int32)
    ensures 0 <= r < 0x1_0000
    ensures r as int == s as int || r as int == s as int + TWO_TO_THE_16
  {
    (s as int % TWO_TO_THE_16) as int32
  }

  // ---------------------------------------------------------------- 64-bit AND

  function Pow2(k: nat): (p: nat)
    ensures p >= 1
  {
    if k == 0 then 1 else 2 * Pow2(k - 1)
  }

  lemma {:induction false} Pow2Add(a: nat, b: nat)
    ensures Pow2(a + b) == Pow2(a) * Pow2(b)
  {
    if a > 0 {
      Pow2Add(a - 1, b);
    }
  }

  lemma Pow2Widths()
    ensures Pow2(8) == TWO_TO_THE_8 && Pow2(16) == TWO_TO_THE_16
    ensures Pow2(32) == TWO_TO_THE_32 && Pow2(64) == TWO_TO_THE_64
  {
    assert Pow2(2) == 4;
    Pow2Add(2, 2);
    Pow2Add(4, 4);
    Pow2Add(8, 8);
    Pow2Add(16, 16);
    Pow2Add(32, 32);
  }

  /** The two's-complement bits of a long, read as an unsigned number. */
  function Unsigned(x: int64): (u: nat)
    ensures u < TWO_TO_THE_64
  {
    x as int % TWO_TO_THE_64
  }

  /** The long whose two's-complement bits are `u`. */
  function Signed(u: nat): (x: int64)
    requires u < TWO_TO_THE_64
    ensures Unsigned(x) == u
  {
    if u < TWO_TO_THE_64 / 2 then u as int64 else (u - TWO_TO_THE_64) as int64
  }

  lemma SignedUnsigned(x: int64)
    ensures Signed(Unsigned(x)) == x
  {
  }

  /** AND of the low `k` bits of two non-negative numbers, one bit at a time. */
  function AndBits(a: nat, b: nat, k: nat): nat {
    if k == 0 then 0
    else 2 * AndBits(a / 2, b / 2, k - 1) + (if a % 2 == 1 && b % 2 == 1 then 1 else 0)
  }

  lemma {:induction false} AndBitsBound(a: nat, b: nat, k: nat)
    ensures AndBits(a, b, k) < Pow2(k)
  {
    if k > 0 {
      AndBitsBound(a / 2, b / 2, k - 1);
    }
  }

  /** Java's `&` on two longs: bit by bit on their 64-bit two's-complement forms. */
  function LongAnd(a: int64, x: int64): int64 {
    AndBitsBound(Unsigned(a), Unsigned(x), 64);
    Pow2Widths();
    Signed(AndBits(Unsigned(a), Unsigned(x), 64))
  }

  lemma MulAtLeast(d: int, k: int)
    requires d > 0 && k >= 1
    ensures d * k >= d
  {
  }

  /** Euclidean division has exactly one remainder. */
  lemma ModUnique(a: int, d: int, q: int, r: int)
    requires d > 0 && a == d * q + r && 0 <= r < d
    ensures a % d == r
  {
    var q0, r0 := a / d, a % d;
    assert a == d * q0 + r0;
    assert d * q - d * q0 == r0 - r;
    if q > q0 {
      assert d * (q - q0) == d * q - d * q0;
      MulAtLeast(d, q - q0);
    } else if q < q0 {
      assert d * (q0 - q) == d * q0 - d * q;
      MulAtLeast(d, q0 - q);
    }
  }

  lemma ModDouble(a: nat, p: nat)
    requires p >= 1
    ensures a % (2 * p) == 2 * ((a / 2) % p) + a % 2
  {
    var q1, r1 := (a / 2) / p, (a / 2) % p;
    assert a / 2 == p * q1 + r1;
    assert a == (2 * p) * q1 + (2 * r1 + a % 2);
    ModUnique(a, 2 * p, q1, 2 * r1 + a % 2);
  }

  /** AND with a mask of `m` low one-bits keeps exactly the low `m` bits. */
  lemma {:induction false} AndLowOnes(m: nat, a: nat, k: nat)
    requires m <= k
    ensures AndBits(Pow2(m) - 1, a, k) == a % Pow2(m)
  {
    if k > 0 {
      if m == 0 {
        AndLowOnes(0, a / 2, k - 1);
      } else {
        assert (Pow2(m) - 1) / 2 == Pow2(m - 1) - 1;
        assert (Pow2(m) - 1) % 2 == 1;
        AndLowOnes(m - 1, a / 2, k - 1);
        ModDouble(a, Pow2(m - 1));
      }
    }
  }

  /** A long whose 64 bits are all set, such as a widened int -1, keeps every bit of the other operand. */
  lemma LongAndAllOnes(x: int64)
    ensures LongAnd(-1, x) == x
  {
    Pow2Widths();
    AndLowOnes(64, Unsigned(x), 64);
    SignedUnsigned(x);
  }

  /** A long mask of the low 8, 16 or 32 bits gives the value modulo 2^8, 2^16 or 2^32. */
  lemma LongAndLowMask(p: nat, x: int64)
    requires p == TWO_TO_THE_8 || p == TWO_TO_THE_16 || p == TWO_TO_THE_32
    ensures LongAnd((p - 1) as int64, x) as int == x as int % p
  {
    Pow2Widths();
    var m: nat := if p == TWO_TO_THE_8 then 8 else if p == TWO_TO_THE_16 then 16 else 32;
    assert Pow2(m) == p;
    assert Unsigned((p - 1) as int64) == p - 1;
    AndLowOnes(m, Unsigned(x), 64);
    Pow2Add(m, 64 - m);
    var q, u := x as int / TWO_TO_THE_64, Unsigned(x);
    var q2, r := u / p, u % p;
    assert x as int == TWO_TO_THE_64 * q + u;
    assert x as int == p * (Pow2(64 - m) * q + q2) + r;
    ModUnique(x as int, p, Pow2(64 - m) * q + q2, r);
  }

  /** A value in [-d, d) read modulo d is itself, or itself plus d when negative. */
  lemma ModOfNegative(v: int, d: int)
    requires -d <= v < d
    ensures v % d == if v >= 0 then v else v + d
  {
  }

  /** unsignedLong(byte): `0xff & (long)b`. */
  function UnsignedLongOfByte(b: int8): (r: int64)
    ensures 0 <= r < 0x100
    ensures r as int == b as int % TWO_TO_THE_8
    ensures r as int == b as int || r as int == b as int + TWO_TO_THE_8
  {
    var r := LongAnd((TWO_TO_THE_8 - 1) as int64, b as int64);
    LongAndLowMask(TWO_TO_THE_8, b as int64);
    ModOfNegative(b as int, TWO_TO_THE_8);
    r
  }

  /** unsignedLong(short): `0xffff & (long)s`. */
  function UnsignedLongOfShort(s: int16): (r: int64)
    ensures 0 <= r < 0x1_0000
    ensures r as int == s as int % TWO_TO_THE_16
    ensures r as int == s as int || r as int == s as int + TWO_TO_THE_16
  {
    var r := LongAnd((TWO_TO_THE_16 - 1) as int64, s as int64);
    LongAndLowMask(TWO_TO_THE_16, s as int64);
    ModOfNegative(s as int, TWO_TO_THE_16);
    r
  }

  /**
   * unsignedLong(int) as written: `0x00000000ffffffff & (long)i`.  The mask
   * literal carries no L suffix, so it is the `int` -1, and widening it to
   * `long` sets all 64 bits.
   */
  function UnsignedLongOfIntAsWritten(i: int32): (r: int64)
    ensures r as int == i as int
  {
    var mask: int32 := -1;
    LongAndAllOnes(i as int64);
    LongAnd(mask as int64, i as int64)
  }

  /** unsignedLong(int) as its documentation describes it: `0xffffffffL & (long)i`. */
  function UnsignedLongOfInt(i: int32): (r: int64)
    ensures 0 <= r < 0x1_0000_0000
    ensures r as int == i as int % TWO_TO_THE_32
    ensures r as int == i as int || r as int == i as int + TWO_TO_THE_32
  {
    var r := LongAnd((TWO_TO_THE_32 - 1) as int64, i as int64);
    LongAndLowMask(TWO_TO_THE_32, i as int64);
    ModOfNegative(i as int, TWO_TO_THE_32);
    r
  }

  /** The code as written returns a negative "unsigned" value for every negative int. */
  lemma UnsignedLongOfIntAsWrittenIsNegative(i: int32)
    requires i < 0
    ensures UnsignedLongOfIntAsWritten(i) < 0
    ensures UnsignedLongOfInt(i) as int == UnsignedLongOfIntAsWritten(i) as int + TWO_TO_THE_32
  {
  }

  // ---------------------------------------------------------------- hexadecimal digits

  predicate IsHexDigit(c: char) {
    '0' <= c <= '9' || 'a' <= c <= 'f'
  }

  predicate IsHex(s: string) {
    forall i :: 0 <= i < |s| ==> IsHexDigit(s[i])
  }

  /** The lower-case digit for a value below sixteen, as Long.toHexString writes it. */
  function HexDigit(d: nat): (c: char)
    requires d < 16
    ensures IsHexDigit(c)
  {
    if d < 10 then ('0' as int + d) as char else ('a' as int + d - 10) as char
  }

  function HexDigitValue(c: char): (d: nat)
    requires IsHexDigit(c)
    ensures d < 16
  {
    if c <= '9' then c as int - '0' as int else c as int - 'a' as int + 10
  }

  lemma HexDigitRoundTrip(d: nat)
    requires d < 16
    ensures HexDigitValue(HexDigit(d)) == d
  {
  }

  /** The number a string of hexadecimal digits denotes, most significant digit first. */
  function HexValue(s: string): nat
    requires IsHex(s)
  {
    if s == [] then 0 else HexValue(s[..|s| - 1]) * 16 + HexDigitValue(s[|s| - 1])
  }

  function Pow16(k: nat): (p: nat)
    ensures p >= 1
  {
    if k == 0 then 1 else 16 * Pow16(k - 1)
  }

  /** Long.toHexString of a value already read as unsigned: shortest digits, "0" for zero. */
  function ToHex(n: nat): (s: string)
    ensures IsHex(s) && |s| >= 1
    ensures |s| > 1 ==> s[0] != '0'
  {
    if n < 16 then [HexDigit(n)] else ToHex(n / 16) + [HexDigit(n % 16)]
  }

  /** Long.toHexString(l): the digits of the 64-bit two's-complement pattern of `l`. */
  function LongToHexString(l: int64): string {
    ToHex(l as int % TWO_TO_THE_64)
  }

  /** `n` copies of `c` */
  function Repeat(c: char, n: nat): (s: string)
    ensures |s| == n && forall i :: 0 <= i < n ==> s[i] == c
  {
    if n == 0 then [] else [c] + Repeat(c, n - 1)
  }

  /** ToHex parses back to the number it came from. */
  lemma {:induction false} ToHexRoundTrip(n: nat)
    ensures HexValue(ToHex(n)) == n
    decreases n
  {
    if n < 16 {
      HexDigitRoundTrip(n);
    } else {
      ToHexRoundTrip(n / 16);
      var s := ToHex(n);
      assert s[..|s| - 1] == ToHex(n / 16);
      HexDigitRoundTrip(n % 16);
    }
  }

  /** ToHex needs at most `w` digits exactly when the number is below 16^w. */
  lemma {:induction false} ToHexLength(n: nat, w: nat)
    requires w >= 1
    ensures |ToHex(n)| <= w <==> n < Pow16(w)
    decreases n
  {
    if n >= 16 {
      if w == 1 {
      } else {
        ToHexLength(n / 16, w - 1);
      }
    } else {
      PowAtLeast16(w);
    }
  }

  lemma {:induction false} PowAtLeast16(w: nat)
    requires w >= 1
    ensures Pow16(w) >= 16
  {
    if w > 1 { PowAtLeast16(w - 1); }
  }

  /** Leading zeros do not change a hexadecimal value. */
  lemma {:induction false} HexValueLeadingZeros(k: nat, s: string)
    requires IsHex(s)
    ensures IsHex(Repeat('0', k) + s) && HexValue(Repeat('0', k) + s) == HexValue(s)
    decreases |s|
  {
    var z := Repeat('0', k) + s;
    assert IsHex(z) by {
      forall i | 0 <= i < |z| ensures IsHexDigit(z[i]) {
        if i >= k { assert z[i] == s[i - k]; }
      }
    }
    if s == [] {
      assert z == Repeat('0', k);
      ZerosValue(k);
    } else {
      HexValueLeadingZeros(k, s[..|s| - 1]);
      assert z[..|z| - 1] == Repeat('0', k) + s[..|s| - 1];
    }
  }

  lemma {:induction false} ZerosValue(k: nat)
    ensures IsHex(Repeat('0', k)) && HexValue(Repeat('0', k)) == 0
  {
    if k > 0 {
      ZerosValue(k - 1);
      var z := Repeat('0', k);
      assert z[..k - 1] == Repeat('0', k - 1);
    }
  }

  /** A string of `k` hexadecimal digits denotes a number below 16^k. */
  lemma {:induction false} HexValueBound(s: string)
    requires IsHex(s)
    ensures HexValue(s) < Pow16(|s|)
    decreases |s|
  {
    if s != [] {
      HexValueBound(s[..|s| - 1]);
    }
  }

  /**
   * Splitting a hexadecimal string after `k` digits: the first part counts in
   * units of 16^(|s| - k), the rest is the remainder below that unit.
   */
  lemma {:induction false} HexValueSplit(s: string, k: nat)
    requires IsHex(s) && k <= |s|
    ensures IsHex(s[..k]) && IsHex(s[k..])
    ensures HexValue(s) == HexValue(s[..k]) * Pow16(|s| - k) + HexValue(s[k..])
    decreases |s| - k
  {
    assert IsHex(s[k..]) by {
      forall i | 0 <= i < |s| - k ensures IsHexDigit(s[k..][i]) { assert s[k..][i] == s[k + i]; }
    }
    if k == |s| {
      assert s[..k] == s;
    } else {
      var t := s[..|s| - 1];
      HexValueSplit(t, k);
      assert t[..k] == s[..k];
      var high, p := HexValue(s[..k]), Pow16(|t| - k);
      var d := HexDigitValue(s[|s| - 1]);
      assert s[k..][..|s[k..]| - 1] == t[k..];
      assert HexValue(s[k..]) == HexValue(t[k..]) * 16 + d;
      assert HexValue(t) == high * p + HexValue(t[k..]);
      assert HexValue(s) == HexValue(t) * 16 + d;
      assert Pow16(|s| - k) == 16 * p;
      ScaleByDigit(high, p, HexValue(t[k..]));
    }
  }

  lemma ScaleByDigit(high: nat, p: nat, low: nat)
    ensures (high * p + low) * 16 == high * (16 * p) + low * 16
  {
  }

  /** The powers of sixteen that the fixed widths 8, 15 and 16 need. */
  lemma Pow16Values()
    ensures Pow16(2) == 0x100 && Pow16(4) == 0x1_0000 && Pow16(8) == TWO_TO_THE_32
    ensures Pow16(15) == 0x1000_0000_0000_0000 && Pow16(16) == TWO_TO_THE_64
  {
    assert Pow16(4) == 0x1_0000;
    assert Pow16(8) == 0x1_0000_0000;
    assert Pow16(12) == 0x1_0000_0000_0000;
    assert Pow16(15) == 0x1000_0000_0000_0000;
  }

  /** Zero-padding hex digits to a width they fit in gives that many digits with the same value. */
  lemma PadWithZeros(s: string, w: nat)
    requires IsHex(s) && |s| <= w
    ensures var p := PadLeft(s, '0', w);
            |p| == w && IsHex(p) && HexValue(p) == HexValue(s)
  {
    HexValueLeadingZeros(w - |s|, s);
    if |s| == w {
      assert Repeat('0', 0) + s == s;
    }
  }

  /** Zero-padding the digits of a number below 16^w to width w gives w digits with the same value. */
  lemma PaddedHex(n: nat, w: nat)
    requires 1 <= w && n < Pow16(w)
    ensures var p := PadLeft(ToHex(n), '0', w);
            |p| == w && IsHex(p) && HexValue(p) == n
  {
    ToHexLength(n, w);
    ToHexRoundTrip(n);
    PadWithZeros(ToHex(n), w);
  }

  // ---------------------------------------------------------------- toHexString

  /** Left-pads `s` with `c` up to `width` characters; longer strings are left alone. */
  function PadLeft(s: string, c: char, width: int): (r: string)
    ensures |r| == if |s| < width then width else |s|
    ensures r[|r| - |s|..] == s
    ensures forall i :: 0 <= i < |r| - |s| ==> r[i] == c
  {
    if |s| < width then Repeat(c, width - |s|) + s else s
  }

  /**
   * toHexString(l, c, min, max): with max < min the plain Long.toHexString;
   * otherwise padded with `c` to `max` characters and cut to the first `min`.
   * A negative `min` with max >= min makes the substring call throw.
   */
  function ToHexStringSpec(l: int64, c: char, min: int32, max: int32): Result<string, Exception> {
    var hex := LongToHexString(l);
    if max < min then Success(hex)
    else if min < 0 then Failure(StringIndexOutOfBoundsException)
    else Success(PadLeft(hex, c, max as int)[..min])
  }

  /** toHexString(long, char, int, int) with its StringBuffer padding loop. */
  method ToHexString(l: int64, c: char, min: int32, max: int32) returns (r: Result<string, Exception>)
    ensures r == ToHexStringSpec(l, c, min, max)
  {
    var hex := LongToHexString(l);
    var sb := hex;
    if max < min {
      return Success(sb);
    }
    while |sb| < max as int
      invariant |sb| >= |hex|
      invariant sb == Repeat(c, |sb| - |hex|) + hex
      invariant |hex| < max as int ==> |sb| <= max as int
      invariant |hex| >= max as int ==> sb == hex
      decreases max as int - |sb|
    {
      sb := [c] + sb;
    }
    assert |hex| >= max as int ==> sb == hex;
    assert sb == PadLeft(hex, c, max as int);
    if min < 0 {
      return Failure(StringIndexOutOfBoundsException);
    }
    r := Success(sb[..min]);
  }

  /** With max < min the result is Long.toHexString unchanged. */
  lemma ToHexStringUnpadded(l: int64, c: char, min: int32, max: int32)
    requires max < min
    ensures ToHexStringSpec(l, c, min, max) == Success(LongToHexString(l))
  {
  }

  /**
   * With 0 <= min <= max the result has exactly `min` characters: the padding
   * characters first, then the leading digits of Long.toHexString.
   */
  lemma ToHexStringExactLength(l: int64, c: char, min: int32, max: int32)
    requires 0 <= min <= max
    ensures ToHexStringSpec(l, c, min, max).Success?
    ensures |ToHexStringSpec(l, c, min, max).value| == min as int
    ensures var hex := LongToHexString(l);
            var s := ToHexStringSpec(l, c, min, max).value;
            var pad := if |hex| < max as int then max as int - |hex| else 0;
            forall i :: 0 <= i < min as int ==> s[i] == if i < pad then c else hex[i - pad]
  {
    var hex := LongToHexString(l);
    var padded := PadLeft(hex, c, max as int);
    if |hex| < max as int {
      assert padded == Repeat(c, max as int - |hex|) + hex;
    } else {
      assert padded == hex;
    }
  }

  /**
   * Zero-padding a number below 16^w to width w yields exactly w digits that
   * parse back to the number.
   */
  lemma FixedWidthHex(n: nat, w: int32)
    requires 1 <= w && n < Pow16(w as nat) && n < TWO_TO_THE_63
    ensures ToHexStringSpec(n as int64, '0', w, w).Success?
    ensures var s := ToHexStringSpec(n as int64, '0', w, w).value;
            |s| == w as int && IsHex(s) && HexValue(s) == n
  {
    assert LongToHexString(n as int64) == ToHex(n);
    PaddedHex(n, w as nat);
    var padded := PadLeft(ToHex(n), '0', w as int);
    assert padded[..w] == padded;
  }

  const TWO_TO_THE_63: int := 0x8000_0000_0000_0000

  /** toHexString(byte): two digits that parse back to the unsigned value of the byte. */
  method ByteToHexString(b: int8) returns (s: string)
    ensures |s| == 2 && IsHex(s)
    ensures HexValue(s) == UnsignedLongOfByte(b) as int
  {
    var n := UnsignedLongOfByte(b);
    Pow16Values();
    FixedWidthHex(n as nat, 2);
    var r := ToHexString(n, '0', 2, 2);
    s := r.value;
  }

  /** toHexString(short): four digits that parse back to the unsigned value of the short. */
  method ShortToHexString(x: int16) returns (s: string)
    ensures |s| == 4 && IsHex(s)
    ensures HexValue(s) == UnsignedLongOfShort(x) as int
  {
    var n := UnsignedLongOfShort(x);
    Pow16Values();
    FixedWidthHex(n as nat, 4);
    var r := ToHexString(n, '0', 4, 4);
    s := r.value;
  }

  /** toHexString(int), with unsignedLong(int) as its documentation describes it. */
  method IntToHexString(i: int32) returns (s: string)
    ensures |s| == 8 && IsHex(s)
    ensures HexValue(s) == UnsignedLongOfInt(i) as int
  {
    var n := UnsignedLongOfInt(i);
    Pow16Values();
    FixedWidthHex(n as nat, 8);
    var r := ToHexString(n, '0', 8, 8);
    s := r.value;
  }

  /**
   * toHexString(int) as written.  For a negative int the widened value prints
   * as sixteen digits whose first eight, the ones kept, are all 'f'.
   */
  method IntToHexStringAsWritten(i: int32) returns (s: string)
    ensures |s| == 8 && IsHex(s)
    ensures i >= 0 ==> HexValue(s) == i as int
    ensures i < 0 ==> HexValue(s) == 0xffff_ffff
  {
    var n := UnsignedLongOfIntAsWritten(i);
    if i >= 0 {
      Pow16Values();
      FixedWidthHex(n as nat, 8);
    } else {
      NegativeIntAsWrittenHex(i);
    }
    var r := ToHexString(n, '0', 8, 8);
    s := r.value;
  }

  /** The as-written formatting of a negative int keeps the top eight of sixteen digits. */
  lemma NegativeIntAsWrittenHex(i: int32)
    requires i < 0
    ensures var s := ToHexStringSpec(i as int64, '0', 8, 8);
            s.Success? && |s.value| == 8 && IsHex(s.value) && HexValue(s.value) == 0xffff_ffff
  {
    var n: nat := i as int + TWO_TO_THE_64;
    assert (i as int64) as int % TWO_TO_THE_64 == n;
    var hex := ToHex(n);
    Pow16Values();
    ToHexLength(n, 16);
    ToHexLength(n, 15);
    assert |hex| == 16;
    assert PadLeft(hex, '0', 8) == hex;
    HexValueSplit(hex, 8);
    HexValueBound(hex[8..]);
    ToHexRoundTrip(n);
    // n == high * 2^32 + low with low < 2^32, and n lies in [2^64 - 2^31, 2^64)
    assert HexValue(hex[..8]) == 0xffff_ffff;
  }

  /** The smallest int shows the discrepancy: its unsigned value 0x80000000 prints as "ffffffff". */
  lemma IntToHexStringAsWrittenCounterexample()
    ensures UnsignedLongOfInt(-0x8000_0000) == 0x8000_0000
    ensures var s := ToHexStringSpec(UnsignedLongOfIntAsWritten(-0x8000_0000), '0', 8, 8);
            s.Success? && IsHex(s.value) && HexValue(s.value) == 0xffff_ffff != 0x8000_0000
  {
    NegativeIntAsWrittenHex(-0x8000_0000);
  }

  /** toHexString(long): sixteen digits of the 64-bit two's-complement pattern. */
  method LongToHexStringPadded(l: int64) returns (s: string)
    ensures |s| == 16 && IsHex(s)
    ensures HexValue(s) == l as int % TWO_TO_THE_64
  {
    var n: nat := l as int % TWO_TO_THE_64;
    var hex := ToHex(n);
    Pow16Values();
    PaddedHex(n, 16);
    assert PadLeft(hex, '0', 16)[..16] == PadLeft(hex, '0', 16);
    var r := ToHexString(l, '0', 16, 16);
    s := r.value;
  }
}
