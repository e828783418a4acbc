/**
 * The address split of Z21ActionSetLocoDrive as the Java code writes it, on text:
 *
 *   binary    = String.format("%16s", Integer.toBinaryString(address)).replace(' ', '0')
 *   Adr_MSB   = 0 if binary.replaceFirst("^0*", "") has at most 8 characters,
 *               otherwise (byte) Integer.parseInt(binary.substring(0, 8), 2)
 *   Adr_LSB   = (byte) Integer.parseInt(binary.substring(8), 2)
 *
 * TextSplitAgrees proves that this is, for every int, the numeric split the rest of the
 * model uses.
 */
module AddressText {
  import opened JavaLang
  import opened SetLocoDrive

  function Binary(locoAddress: Int32): string
  {
    ReplaceChar(FormatRightJustified(ToBinaryString(locoAddress), 16), ' ', '0')
  }

  predicate TextHasAtMostEightSignificantBits(locoAddress: Int32)
  {
    |StripLeadingZeros(Binary(locoAddress))| <= 8
  }

  function TextMsbBeforeFlags(locoAddress: Int32): bv8
    requires |Binary(locoAddress)| >= 8
  {
    if TextHasAtMostEightSignificantBits(locoAddress) then 0
    else ToByte(ParseBinary(Binary(locoAddress)[..8]))
  }

  function TextLsb(locoAddress: Int32): bv8
    requires |Binary(locoAddress)| >= 8
  {
    ToByte(ParseBinary(Binary(locoAddress)[8..]))
  }

  /** toBinaryString writes exactly the significant digits (one "0" for zero). */
  lemma {:induction false} DigitsCount(u: nat)
    ensures |Digits(u)| == if u == 0 then 1 else SignificantBits(u)
  {
    if u >= 2 {
      DigitsCount(u / 2);
    }
  }

  /** `binary` is the digits behind zeros up to 16 columns, BinaryWidth long, worth the unsigned value. */
  lemma BinaryShape(locoAddress: Int32)
    ensures var d := Digits(Unsigned32(locoAddress));
      && Binary(locoAddress) == Repeat('0', if |d| < 16 then 16 - |d| else 0) + d
      && |Binary(locoAddress)| == BinaryWidth(locoAddress)
      && ParseBinary(Binary(locoAddress)) == Unsigned32(locoAddress)
  {
    var u := Unsigned32(locoAddress);
    var d := Digits(u);
    BinaryPadded(locoAddress);
    DigitsCount(u);
    ParseZeroPrefix(if |d| < 16 then 16 - |d| else 0, d);
  }

  lemma BinaryPadded(locoAddress: Int32)
    ensures var d := Digits(Unsigned32(locoAddress));
      Binary(locoAddress) == Repeat('0', if |d| < 16 then 16 - |d| else 0) + d
  {
    var u := Unsigned32(locoAddress);
    DigitsShape(u);
    PadWithZeros(Digits(u), 16);
  }

  /** The length of `binary` after its leading zeros is the count of significant bits. */
  lemma StrippedLength(locoAddress: Int32)
    ensures |StripLeadingZeros(Binary(locoAddress))| == SignificantBits(Unsigned32(locoAddress))
  {
    var u := Unsigned32(locoAddress);
    var d := Digits(u);
    BinaryShape(locoAddress);
    StripPadded(if |d| < 16 then 16 - |d| else 0, u);
  }

  lemma StripPadded(k: nat, u: nat)
    ensures |StripLeadingZeros(Repeat('0', k) + Digits(u))| == SignificantBits(u)
  {
    var d := Digits(u);
    if u == 0 {
      assert Repeat('0', k) + d == Repeat('0', k + 1) + [] by {
        RepeatSnoc('0', k);
      }
      StripZeroPrefix(k + 1, []);
    } else {
      DigitsShape(u);
      StripZeroPrefix(k, d);
      DigitsCount(u);
    }
  }

  /** The text split of lines 45-53 and the numeric split give the same two bytes for every int. */
  lemma TextSplitAgrees(locoAddress: Int32)
    ensures |Binary(locoAddress)| >= 16
    ensures TextHasAtMostEightSignificantBits(locoAddress) == HasAtMostEightSignificantBits(locoAddress)
    ensures TextMsbBeforeFlags(locoAddress) == AddressMsbBeforeFlags(locoAddress)
    ensures TextLsb(locoAddress) == AddressLsb(locoAddress)
  {
    TextSplitValues(locoAddress);
  }

  /** The two substrings of `binary` read as the quotient and remainder of the unsigned value. */
  lemma TextSplitValues(locoAddress: Int32)
    ensures |Binary(locoAddress)| == BinaryWidth(locoAddress)
    ensures |StripLeadingZeros(Binary(locoAddress))| == SignificantBits(Unsigned32(locoAddress))
    ensures var p := Pow2(BinaryWidth(locoAddress) - 8);
      && ParseBinary(Binary(locoAddress)[..8]) == Unsigned32(locoAddress) / p
      && ParseBinary(Binary(locoAddress)[8..]) == Unsigned32(locoAddress) % p
  {
    BinaryShape(locoAddress);
    StrippedLength(locoAddress);
    CutAfterEight(Binary(locoAddress), Unsigned32(locoAddress), BinaryWidth(locoAddress));
  }

  /** substring(0, 8) and substring(8) of a digit string of w characters worth u. */
  lemma CutAfterEight(binary: string, u: nat, w: nat)
    requires |binary| == w >= 8 && ParseBinary(binary) == u
    ensures ParseBinary(binary[..8]) == u / Pow2(w - 8)
    ensures ParseBinary(binary[8..]) == u % Pow2(w - 8)
  {
    SplitDigits(binary, 8);
  }
}
