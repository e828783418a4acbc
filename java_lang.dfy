/**
 * The pieces of java.lang that Z21ActionSetLocoDrive leans on to split a locomotive
 * address into two bytes: the `int` range, the `(byte)` cast, Integer.toBinaryString,
 * String.format("%16s", _), String.replace, String.replaceFirst("^0*", "") and
 * Integer.parseInt(_, 2).  Each is written as Java defines it, and the lemmas below say
 * what they compute arithmetically.
 */
module JavaLang {

  /** Java's 32-bit signed `int`. */
  type Int32 = n: int | -0x8000_0000 <= n < 0x8000_0000

  const TwoTo32: int := 0x1_0000_0000

  function Pow2(k: nat): (r: nat)
    ensures r >= 1
  {
    if k == 0 then 1 else 2 * Pow2(k - 1)
  }

  /**
   * The cast `(byte) x`: keeps the low eight bits of a two's-complement integer, that is
   * the byte worth x modulo 256.  A Java byte is signed; here the same eight bits are read
   * unsigned.
   */
  function ToByte(x: int): (b: bv8)
    ensures b as int == x % 256
  {
    ByteOfValue(x % 256);
    var b: bv8 :| b as int == x % 256;
    b
  }

  /** The byte whose unsigned value is y, its bits shifted in from the most significant. */
  function ByteOf(y: nat): bv8
    requires y < 256
  {
    if y == 0 then 0 else (ByteOf(y / 2) << 1) | (if y % 2 == 1 then 1 else 0)
  }

  lemma {:induction false} ByteOfValue(y: nat)
    requires y < 256
    ensures ByteOf(y) as int == y
  {
    if y > 0 {
      ByteOfValue(y / 2);
      ShiftInBit(ByteOf(y / 2), if y % 2 == 1 then 1 else 0);
    }
  }

  lemma ShiftInBit(b: bv8, bit: bv8)
    requires b as int < 128 && bit as int < 2
    ensures ((b << 1) | bit) as int == 2 * (b as int) + bit as int
  {
  }

  predicate IsBinary(s: string)
  {
    forall i :: 0 <= i < |s| ==> s[i] == '0' || s[i] == '1'
  }

  function DigitValue(c: char): nat
  {
    if c == '1' then 1 else 0
  }

  /**
   * Integer.parseInt(s, 2) on a string of binary digits, most significant first.  Only
   * non-empty digit strings of at most 24 characters reach it in this model, so the
   * NumberFormatException cases of the Java method do not arise.
   */
  function ParseBinary(s: string): (r: nat)
    ensures r < Pow2(|s|)
  {
    if s == [] then 0 else 2 * ParseBinary(s[..|s| - 1]) + DigitValue(s[|s| - 1])
  }

  /** The binary digits of a non-negative value without leading zeros; "0" for zero. */
  function Digits(u: nat): (s: string)
    ensures ParseBinary(s) == u
    ensures u == 0 ==> s == "0"
  {
    if u < 2 then
      [if u == 1 then '1' else '0']
    else
      var high := Digits(u / 2);
      var s := high + [if u % 2 == 1 then '1' else '0'];
      assert s[..|s| - 1] == high;
      s
  }

  /** The two's-complement bit pattern of n read as an unsigned 32-bit value. */
  function Unsigned32(n: Int32): (u: nat)
    ensures u < TwoTo32 && u % TwoTo32 == n % TwoTo32
    ensures n >= 0 ==> u == n
  {
    if n < 0 then n + TwoTo32 else n
  }

  /** The unsigned reading keeps the low byte of the int. */
  lemma Unsigned32LowByte(n: Int32)
    ensures Unsigned32(n) % 256 == n % 256
  {
    if n < 0 {
      DivModUnique(Unsigned32(n), 256, n / 256 + 0x100_0000, n % 256);
    }
  }

  /** Integer.toBinaryString(n): the digits of n, of its unsigned 32-bit reading when negative. */
  function ToBinaryString(n: Int32): string
  {
    Digits(Unsigned32(n))
  }

  function Repeat(c: char, k: nat): (r: string)
    ensures |r| == k
  {
    if k == 0 then [] else [c] + Repeat(c, k - 1)
  }

  /** String.format("%" + width + "s", s): right-justified in `width` columns, never cut. */
  function FormatRightJustified(s: string, width: nat): string
  {
    if |s| < width then Repeat(' ', width - |s|) + s else s
  }

  /** s.replace(from, to) for two single characters. */
  function ReplaceChar(s: string, from: char, to: char): (r: string)
    ensures |r| == |s|
  {
    if s == [] then [] else [if s[0] == from then to else s[0]] + ReplaceChar(s[1..], from, to)
  }

  /** s.replaceFirst("^0*", ""): drops the whole run of leading zeros. */
  function StripLeadingZeros(s: string): (r: string)
    ensures |r| <= |s|
  {
    if s != [] && s[0] == '0' then StripLeadingZeros(s[1..]) else s
  }

  // ---------------------------------------------------------------------------------
  // What the text helpers compute

  lemma {:induction false} Pow2Add(a: nat, b: nat)
    ensures Pow2(a + b) == Pow2(a) * Pow2(b)
  {
    if b > 0 {
      Pow2Add(a, b - 1);
      assert Pow2(a + b) == 2 * Pow2(a + b - 1);
    }
  }

  lemma {:induction false} Pow2Monotonic(a: nat, b: nat)
    requires a <= b
    ensures Pow2(a) <= Pow2(b)
  {
    if a < b {
      Pow2Monotonic(a, b - 1);
    }
  }

  /** Euclidean division is determined by its quotient-remainder equation. */
  lemma DivModUnique(u: int, d: int, q: int, r: int)
    requires d > 0 && 0 <= r < d && u == q * d + r
    ensures u / d == q && u % d == r
  {
    var q', r' := u / d, u % d;
    var k := q - q';
    assert k * d == q * d - q' * d;
    assert k * d == r' - r;
  }

  /** Reading digits a followed by digits b: a scaled past b's digits, plus b. */
  lemma {:induction false} ParseAppend(a: string, b: string)
    ensures ParseBinary(a + b) == ParseBinary(a) * Pow2(|b|) + ParseBinary(b)
  {
    if b == [] {
      assert a + b == a;
    } else {
      var b', last := b[..|b| - 1], DigitValue(b[|b| - 1]);
      assert (a + b)[..|a + b| - 1] == a + b';
      ParseAppend(a, b');
      var x, y := ParseBinary(a), Pow2(|b'|);
      assert Pow2(|b|) == 2 * y;
      assert ParseBinary(b) == 2 * ParseBinary(b') + last;
      calc {
        ParseBinary(a + b);
        2 * ParseBinary(a + b') + last;
        2 * (x * y + ParseBinary(b')) + last;
        { DoubleFactor(x, y); }
        x * (2 * y) + ParseBinary(b);
      }
    }
  }

  // Kept as a lemma: the same step written as an assert inside the calc of ParseAppend
  // makes that proof far more expensive for the solver.
  lemma DoubleFactor(x: int, y: int)
    ensures 2 * (x * y) == x * (2 * y)
  {
  }

  lemma {:induction false} ParseZeros(k: nat)
    ensures ParseBinary(Repeat('0', k)) == 0
  {
    if k > 0 {
      assert Repeat('0', k) == Repeat('0', k - 1) + ['0'] by {
        RepeatSnoc('0', k - 1);
      }
      ParseAppend(Repeat('0', k - 1), ['0']);
      ParseZeros(k - 1);
    }
  }

  lemma {:induction false} RepeatSnoc(c: char, k: nat)
    ensures Repeat(c, k + 1) == Repeat(c, k) + [c]
  {
    if k > 0 {
      RepeatSnoc(c, k - 1);
    }
  }

  /** Leading zeros do not change the value. */
  lemma ParseZeroPrefix(k: nat, s: string)
    ensures ParseBinary(Repeat('0', k) + s) == ParseBinary(s)
  {
    ParseAppend(Repeat('0', k), s);
    ParseZeros(k);
    assert 0 * Pow2(|s|) == 0;
  }

  /** Stripping leading zeros undoes padding with them. */
  lemma {:induction false} StripZeroPrefix(k: nat, s: string)
    requires s == [] || s[0] != '0'
    ensures StripLeadingZeros(Repeat('0', k) + s) == s
  {
    if k == 0 {
      assert Repeat('0', k) + s == s;
    } else {
      assert (Repeat('0', k) + s)[1..] == Repeat('0', k - 1) + s;
      StripZeroPrefix(k - 1, s);
    }
  }

  /** Cutting a digit string after m characters splits its value by a power of two. */
  lemma SplitDigits(s: string, m: nat)
    requires m <= |s|
    ensures ParseBinary(s[..m]) == ParseBinary(s) / Pow2(|s| - m)
    ensures ParseBinary(s[m..]) == ParseBinary(s) % Pow2(|s| - m)
  {
    var hi, lo := s[..m], s[m..];
    assert s == hi + lo;
    ParseAppend(hi, lo);
    DivModUnique(ParseBinary(s), Pow2(|lo|), ParseBinary(hi), ParseBinary(lo));
  }

  lemma Pow2Values()
    ensures Pow2(7) == 128 && Pow2(8) == 256 && Pow2(16) == 65536 && Pow2(32) == TwoTo32
  {
    Pow2Add(8, 8);
    Pow2Add(16, 16);
  }

  lemma {:induction false} ReplaceAppend(a: string, b: string, from: char, to: char)
    ensures ReplaceChar(a + b, from, to) == ReplaceChar(a, from, to) + ReplaceChar(b, from, to)
  {
    if a != [] {
      assert (a + b)[1..] == a[1..] + b;
      ReplaceAppend(a[1..], b, from, to);
    } else {
      assert a + b == b;
    }
  }

  lemma {:induction false} ReplaceAbsent(s: string, from: char, to: char)
    requires forall i :: 0 <= i < |s| ==> s[i] != from
    ensures ReplaceChar(s, from, to) == s
  {
    if s != [] {
      ReplaceAbsent(s[1..], from, to);
      assert s == [s[0]] + s[1..];
    }
  }

  lemma {:induction false} ReplaceRepeat(k: nat, from: char, to: char)
    ensures ReplaceChar(Repeat(from, k), from, to) == Repeat(to, k)
  {
    if k > 0 {
      assert Repeat(from, k)[1..] == Repeat(from, k - 1);
      ReplaceRepeat(k - 1, from, to);
    }
  }

  /**
   * Integer.toBinaryString(n) is the shortest binary text of the 32-bit pattern of n: the
   * digits read as a value below 2^32 that is n modulo 2^32, with no leading zero except "0".
   */
  lemma ToBinaryStringMeaning(n: Int32)
    ensures var t := ToBinaryString(n);
      && IsBinary(t) && |t| >= 1 && (t[0] == '1' || t == "0")
      && ParseBinary(t) < TwoTo32 && ParseBinary(t) % TwoTo32 == n % TwoTo32
  {
    DigitsShape(Unsigned32(n));
  }

  lemma {:induction false} RepeatAt(c: char, k: nat, i: nat)
    requires i < k
    ensures Repeat(c, k)[i] == c
  {
    if i > 0 {
      RepeatAt(c, k - 1, i - 1);
    }
  }

  /** "%ws" puts spaces in front of s up to w columns and never shortens s. */
  lemma FormatRightJustifiedShape(s: string, width: nat)
    ensures var r := FormatRightJustified(s, width);
      && |r| == (if |s| < width then width else |s|)
      && r[|r| - |s|..] == s
      && forall i :: 0 <= i < |r| - |s| ==> r[i] == ' '
  {
    var r := FormatRightJustified(s, width);
    if |s| < width {
      assert r[|r| - |s|..] == s;
      forall i | 0 <= i < |r| - |s|
        ensures r[i] == ' '
      {
        RepeatAt(' ', width - |s|, i);
      }
    }
  }

  /** replace(from, to) changes every `from` to `to` and leaves every other character. */
  lemma {:induction false} ReplaceCharMeaning(s: string, from: char, to: char)
    ensures forall i :: 0 <= i < |s| ==>
      ReplaceChar(s, from, to)[i] == if s[i] == from then to else s[i]
  {
    if s != [] {
      ReplaceCharMeaning(s[1..], from, to);
      assert forall i :: 1 <= i < |s| ==> ReplaceChar(s, from, to)[i] == ReplaceChar(s[1..], from, to)[i - 1];
    }
  }

  /** The digits are ones and zeros, and a positive value's start with a one. */
  lemma {:induction false} DigitsShape(u: nat)
    ensures IsBinary(Digits(u)) && |Digits(u)| >= 1
    ensures u > 0 ==> Digits(u)[0] == '1'
  {
    if u >= 2 {
      DigitsShape(u / 2);
    }
  }

  /**
   * The regular expression "^0*" matches the longest run of zeros at the start, so what
   * is left is a suffix that does not start with '0', and only zeros were removed.
   */
  lemma {:induction false} StripLeadingZerosMeaning(s: string)
    ensures var r := StripLeadingZeros(s);
      && r == s[|s| - |r|..]
      && (r == [] || r[0] != '0')
      && (forall i :: 0 <= i < |s| - |r| ==> s[i] == '0')
  {
    if s != [] && s[0] == '0' {
      StripLeadingZerosMeaning(s[1..]);
    }
  }

  /** Formatting to a width and then replacing the spaces pads a digit string with zeros. */
  lemma PadWithZeros(s: string, width: nat)
    requires IsBinary(s)
    ensures ReplaceChar(FormatRightJustified(s, width), ' ', '0')
         == Repeat('0', if |s| < width then width - |s| else 0) + s
  {
    ReplaceAbsent(s, ' ', '0');
    if |s| < width {
      ReplaceAppend(Repeat(' ', width - |s|), s, ' ', '0');
      ReplaceRepeat(width - |s|, ' ', '0');
    } else {
      assert Repeat('0', 0) + s == s;
    }
  }

  /** Taking the remainder by 256 * m, then by 256, is taking it by 256. */
  lemma ModOfMultipleMod(u: int, m: int)
    requires m > 0
    ensures (u % (256 * m)) % 256 == u % 256
  {
    var q, r := u / (256 * m), u % (256 * m);
    var q1, r1 := r / 256, r % 256;
    assert u == 256 * (m * q + q1) + r1;
    DivModUnique(u, 256, m * q + q1, r1);
  }
}
