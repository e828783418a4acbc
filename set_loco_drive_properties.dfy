/**
 * What the set-locomotive-drive frame builder guarantees: what the address split means
 * below and above 65536, the two address forms, the checksum, the error cases and the
 * layout of the list the constructor leaves for addLenByte.
 */
module SetLocoDriveProperties {
  import opened JavaLang
  import opened SetLocoDrive

  // ---------------------------------------------------------------------------------
  // The address split

  /** The significant-bit test of the MSB choice holds exactly for the addresses 0 to 255. */
  lemma SignificantBitsTest(a: Int32)
    ensures HasAtMostEightSignificantBits(a) <==> 0 <= a < 256
  {
    BitCountBound(Unsigned32(a), 8);
    Pow2Values();
  }

  /** A value has at most m significant bits exactly when it is below 2^m. */
  lemma BitCountBound(u: nat, m: nat)
    ensures SignificantBits(u) <= m <==> u < Pow2(m)
  {
    var n := SignificantBits(u);
    if n <= m {
      Pow2Monotonic(n, m);
    } else {
      Pow2Monotonic(m, n - 1);
    }
  }

  // SmallByte, PositiveFactor and ByteValue are one-step facts kept as lemmas so that the
  // int-to-bv8 and nonlinear reasoning runs in a query of its own, away from the larger
  // contexts of their callers, where the same facts as inline asserts cost far more.

  /** A value below 256 casts to the byte of that value. */
  lemma SmallByte(x: int)
    requires 0 <= x < 256
    ensures ToByte(x) as int == x
  {
  }

  /**
   * Below 65536 the split is the byte split: the MSB the significant-bit test picks is
   * address / 256 (the test only zeroes an MSB that is zero already) and the LSB is
   * address % 256.
   */
  lemma ByteSplitBelow65536(a: Int32)
    requires 0 <= a < 65536
    ensures AddressMsbBeforeFlags(a) as int == a / 256
    ensures AddressLsb(a) as int == a % 256
  {
    NarrowWidth(a);
    SignificantBitsTest(a);
    QuotientIsByte(a);
    assert AddressLsb(a) == ToByte(a % 256);
    SmallByte(a % 256);
    if !HasAtMostEightSignificantBits(a) {
      assert AddressMsbBeforeFlags(a) == ToByte(a / 256);
      SmallByte(a / 256);
    }
  }

  lemma QuotientIsByte(a: int)
    requires 0 <= a < 65536
    ensures 0 <= a / 256 < 256 && (a < 256 ==> a / 256 == 0)
  {
  }

  /** Below 65536 `binary` has exactly 16 digits, so its cut falls after bit 8. */
  lemma NarrowWidth(a: Int32)
    requires 0 <= a < 65536
    ensures BinaryWidth(a) == 16 && Pow2(BinaryWidth(a) - 8) == 256
  {
    BitCountBound(a, 16);
    Pow2Values();
  }

  /** Adr_LSB is the low byte of the address for every int, negative ones included. */
  lemma LsbIsLowByte(a: Int32)
    ensures AddressLsb(a) == ToByte(a)
  {
    LowByteOfRemainder(a);
  }

  lemma LowByteOfRemainder(a: Int32)
    ensures (Unsigned32(a) % Pow2(BinaryWidth(a) - 8)) % 256 == a % 256
  {
    var n := BinaryWidth(a) - 8;
    Pow2Add(8, n - 8);
    Pow2Values();
    ModOfMultipleMod(Unsigned32(a), Pow2(n - 8));
    Unsigned32LowByte(a);
  }

  /**
   * For a negative address or one of 65536 and above, `binary` is longer than 16 digits
   * and its first eight characters are the leading eight significant bits, not bits 8-15.
   */
  lemma WideAddressMsb(a: Int32)
    requires a < 0 || a >= 65536
    ensures BinaryWidth(a) > 16
    ensures AddressMsbBeforeFlags(a) as int == Unsigned32(a) / Pow2(BinaryWidth(a) - 8) >= 128
  {
    var u := Unsigned32(a);
    var n := SignificantBits(u);
    BitCountBound(u, 16);
    Pow2Values();
    SignificantBitsTest(a);
    var p := Pow2(n - 8);
    Pow2Add(7, n - 8);
    Pow2Add(8, n - 8);
    DivBounds(u, p, 128, 256);
    SmallByte(u / p);
  }

  /** Bounds on a quotient from bounds on the dividend. */
  lemma DivBounds(u: int, p: int, lo: int, hi: int)
    requires p > 0 && lo * p <= u < hi * p
    ensures lo <= u / p < hi
  {
    var q, r := u / p, u % p;
    assert u == q * p + r;
    assert (q - lo + 1) * p == q * p + p - lo * p;
    PositiveFactor(q - lo + 1, p);
    assert (hi - q) * p == hi * p - q * p;
    PositiveFactor(hi - q, p);
  }

  /** A positive product with a positive factor has a positive other factor. */
  lemma PositiveFactor(x: int, p: int)
    requires p > 0 && x * p > 0
    ensures x > 0
  {
  }

  // ---------------------------------------------------------------------------------
  // The two address forms

  /** The flag bits are ORed over the low six bits, which survive unchanged. */
  lemma FlagsKeepLowSixBits(x: bv8)
    ensures ((x | 0xC0) & 0x3F) as int == (x as int) % 64
    ensures (x | 0xC0) as int == 192 + (x as int) % 64
  {
  }

  /** Bytes of equal value are equal. */
  lemma ByteValue(b: bv8, c: bv8)
    requires b as int == c as int
    ensures b == c
  {
  }

  /** A short address (1 to 127) goes out as MSB 0 and LSB the address itself. */
  lemma ShortAddress(a: Int32)
    requires 1 <= a <= 127
    ensures AddressMsb(a) == 0 && AddressLsb(a) as int == a
  {
    ByteSplitBelow65536(a);
  }

  /** A long address (128 to 16383) carries 11 in the top MSB bits and the address in the other 14. */
  lemma LongAddress(a: Int32)
    requires 128 <= a <= 16383
    ensures AddressMsb(a) & LongAddressFlags == LongAddressFlags
    ensures (AddressMsb(a) & 0x3F) as int * 256 + AddressLsb(a) as int == a
  {
    var msb0 := AddressMsbBeforeFlags(a);
    ByteSplitBelow65536(a);
    FlagsKeepLowSixBits(msb0);
    assert AddressMsb(a) == msb0 | LongAddressFlags;
    assert msb0 as int == a / 256 < 64;
    assert (AddressMsb(a) & 0x3F) as int == a / 256;
    assert AddressLsb(a) as int == a % 256;
  }

  /**
   * Nothing rejects addresses above 16383, and the 14-bit field cannot hold them: adding
   * 16384 to a long address leaves both address bytes unchanged.
   */
  lemma LongAddressesAliasModulo16384(a: Int32)
    requires 128 <= a && a + 16384 < 65536
    ensures AddressMsb(a + 16384) == AddressMsb(a)
    ensures AddressLsb(a + 16384) == AddressLsb(a)
  {
    var b: Int32 := a + 16384;
    ByteSplitBelow65536(a);
    ByteSplitBelow65536(b);
    SameLowSixBits(a, b);
    FlagsAlias(AddressMsbBeforeFlags(a), AddressMsbBeforeFlags(b));
    ByteValue(AddressLsb(b), AddressLsb(a));
  }

  lemma SameLowSixBits(a: int, b: int)
    requires 0 <= a && b == a + 16384
    ensures (b / 256) % 64 == (a / 256) % 64 && b % 256 == a % 256
  {
    assert b / 256 == a / 256 + 64;
  }

  /** Two bytes that agree in their low six bits agree once the flags are ORed in. */
  lemma FlagsAlias(x: bv8, y: bv8)
    requires (x as int) % 64 == (y as int) % 64
    ensures x | LongAddressFlags == y | LongAddressFlags
  {
    FlagsKeepLowSixBits(x);
    FlagsKeepLowSixBits(y);
    ByteValue(x | LongAddressFlags, y | LongAddressFlags);
  }

  // ---------------------------------------------------------------------------------
  // The list

  /**
   * addDataToByteRepresentation: a wrong step ID stops after 0xE4; a list shorter than two
   * bytes fails at the checksum; otherwise six bytes are appended and the last one is the
   * XOR of list positions 2 to 6, so that XORing it in once more gives zero.
   */
  lemma AddDataOutcome(before: seq<bv8>, a: Int32, speed: bv8, speedStepsId: bv8, direction: bool)
    ensures var (list, outcome) := AfterAddData(before, a, speed, speedStepsId, direction);
      && |list| > |before| && list[..|before|] == before && list[|before|] == XHeader
      && (outcome == Threw(WrongSpeedStepId) <==> StepMarker(speedStepsId).None?)
      && (outcome == Threw(WrongSpeedStepId) ==> |list| == |before| + 1)
      && (outcome == Threw(IndexOutOfBounds) <==> StepMarker(speedStepsId).Some? && |before| < 2)
      && (outcome == Completed <==> StepMarker(speedStepsId).Some? && |before| >= 2)
      && (outcome == Completed ==>
            |list| == |before| + 6
            && list[|list| - 1] == list[2] ^ list[3] ^ list[4] ^ list[5] ^ list[6]
            && XorAll(list[2..7] + [list[|list| - 1]]) == 0)
  {
    var (list, outcome) := AfterAddData(before, a, speed, speedStepsId, direction);
    if outcome == Completed {
      var body := list[..|list| - 1];
      assert body[2..7] == list[2..7];
      XorOfPositions2To6(body);
      XorSnoc(list[2..7], list[|list| - 1]);
    }
  }

  /**
   * Whenever the step ID is known, the five bytes after the old list are 0xE4, the marker,
   * Adr_MSB, Adr_LSB and the speed byte, whether the checksum then follows or the read of
   * positions 2 to 6 throws.
   */
  lemma AddDataAppendsDriveBytes(before: seq<bv8>, a: Int32, speed: bv8, speedStepsId: bv8,
                                 direction: bool)
    requires StepMarker(speedStepsId).Some?
    ensures var (list, _) := AfterAddData(before, a, speed, speedStepsId, direction);
      && |list| >= |before| + 5
      && list[|before|..|before| + 5]
         == [XHeader, 0x10 | speedStepsId, AddressMsb(a), AddressLsb(a), SpeedAndDirection(speed, direction)]
  {
    var list := before + DriveBytes(StepMarker(speedStepsId).value, a, speed, direction);
    assert list[|before|..|before| + 5] == DriveBytes(StepMarker(speedStepsId).value, a, speed, direction);
    if |list| >= 7 {
      assert (list + [XorAll(list[2..7])])[|before|..|before| + 5] == list[|before|..|before| + 5];
    }
  }

  /** An address below 1 stops the constructor after the two header bytes. */
  lemma AddressBelowOneThrows(a: Int32, speed: Int32, speedStepsId: Int32, direction: bool)
    requires a < 1
    ensures AfterConstructor(a, speed, speedStepsId, direction)
         == ([0x40, 0x00], Threw(LocoAddressOutOfRange(a)))
  {
  }

  /**
   * The constructor completes exactly when the address is at least 1 and the step ID,
   * cast to a byte, is 0, 2 or 3; it never fails at the checksum, and a wrong step ID
   * leaves the header and 0xE4.
   */
  lemma ConstructorOutcome(a: Int32, speed: Int32, speedStepsId: Int32, direction: bool)
    ensures var (list, outcome) := AfterConstructor(a, speed, speedStepsId, direction);
      var id := ToByte(speedStepsId);
      && (outcome == Completed <==> a >= 1 && (id == 0 || id == 2 || id == 3))
      && outcome != Threw(IndexOutOfBounds)
      && (a >= 1 && StepMarker(id).None? ==> (list, outcome) == ([0x40, 0x00, XHeader], Threw(WrongSpeedStepId)))
  {
    if a >= 1 {
      AddDataOutcome([0x40, 0x00], a, ToByte(speed), ToByte(speedStepsId), direction);
      assert [0x40, 0x00] + [XHeader] == [0x40, 0x00, XHeader];
    }
  }

  /**
   * A completed constructor leaves exactly eight bytes before addLenByte, the checksum
   * covering 0xE4 and all data bytes.
   */
  lemma ConstructorLayout(a: Int32, speed: Int32, speedStepsId: Int32, direction: bool)
    ensures var (list, outcome) := AfterConstructor(a, speed, speedStepsId, direction);
      outcome == Completed ==>
        var marker, msb, lsb := 0x10 | ToByte(speedStepsId), AddressMsb(a), AddressLsb(a);
        var speedDir := SpeedAndDirection(ToByte(speed), direction);
        list == [0x40, 0x00, XHeader, marker, msb, lsb, speedDir,
                 XHeader ^ marker ^ msb ^ lsb ^ speedDir]
        && XorAll(list[2..]) == 0
  {
    var header: seq<bv8> := [0x40, 0x00];
    var id := ToByte(speedStepsId);
    if a >= 1 && StepMarker(id).Some? {
      var marker, msb, lsb := 0x10 | id, AddressMsb(a), AddressLsb(a);
      var speedDir := SpeedAndDirection(ToByte(speed), direction);
      AfterAddDataCases(header, a, ToByte(speed), id, direction);
      assert header + DriveBytes(marker, a, ToByte(speed), direction)
          == [0x40, 0x00, XHeader, marker, msb, lsb, speedDir];
      ChecksummedFrame(0x40, 0x00, XHeader, marker, msb, lsb, speedDir);
    }
  }

  /** Seven bytes followed by the XOR of positions 2 to 6: that XOR, and a zero XOR over 2 to 7. */
  lemma ChecksummedFrame(b0: bv8, b1: bv8, b2: bv8, b3: bv8, b4: bv8, b5: bv8, b6: bv8)
    ensures var body := [b0, b1, b2, b3, b4, b5, b6];
      var frame := body + [XorAll(body[2..7])];
      && frame == [b0, b1, b2, b3, b4, b5, b6, b2 ^ b3 ^ b4 ^ b5 ^ b6]
      && XorAll(frame[2..]) == 0
  {
    var body := [b0, b1, b2, b3, b4, b5, b6];
    var five := [b2, b3, b4, b5, b6];
    assert body[2..7] == five;
    XorFive(b2, b3, b4, b5, b6);
    var x := XorAll(five);
    var frame := body + [x];
    assert frame[2..] == five + [x];
    XorSnoc(five, x);
    assert x ^ x == 0;
  }

  /**
   * Worked examples: address 3, speed 50, 128 steps, forward; the same with a step ID
   * of 259, which the byte cast turns into 3; and speed 0xFF backwards, whose bit 7 stays.
   */
  lemma Examples()
    ensures AfterConstructor(3, 50, 3, true)
         == ([0x40, 0x00, 0xE4, 0x13, 0x00, 0x03, 0xB2, 0x46], Completed)
    ensures AfterConstructor(3, 50, 259, true) == AfterConstructor(3, 50, 3, true)
    ensures AfterConstructor(3, 0xFF, 3, false).0[6] == 0xFF
  {
    ShortAddress(3);
    ByteValue(AddressLsb(3), 3);
    ConstructorOutcome(3, 50, 3, true);
    ConstructorLayout(3, 50, 3, true);
    ConstructorOutcome(3, 0xFF, 3, false);
    ConstructorLayout(3, 0xFF, 3, false);
  }

  /** Address 1000 goes out as C3 E8: the flags over 0x03, then 0xE8. */
  lemma LongAddressExample()
    ensures AddressMsb(1000) == 0xC3 && AddressLsb(1000) == 0xE8
  {
    ByteSplitBelow65536(1000);
    ByteValue(AddressMsbBeforeFlags(1000), 0x03);
    ByteValue(AddressLsb(1000), 0xE8);
  }

  /** Address 16512 produces the very frame address 128 does. */
  lemma AddressAliasExample(speed: Int32, speedStepsId: Int32, direction: bool)
    ensures AfterConstructor(16512, speed, speedStepsId, direction)
         == AfterConstructor(128, speed, speedStepsId, direction)
  {
    LongAddressesAliasModulo16384(128);
  }
}
