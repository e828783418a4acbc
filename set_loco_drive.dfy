/**
 * Z21ActionSetLocoDrive: the LAN-X command "set locomotive drive" (LAN_X_SET_LOCO_DRIVE,
 * section 4.2 of the Z21 LAN protocol specification).  The constructor and
 * addDataToByteRepresentation append, one byte at a time, to the byte list every Z21
 * action inherits:
 *
 *   0x40 0x00  0xE4  step  Adr_MSB  Adr_LSB  speedAndDirection  xor
 *
 * The model stops where the constructor calls addLenByte.
 */
module SetLocoDrive {
  import opened JavaLang

  datatype Option<T> = None | Some(value: T)

  /** The exceptions the two Java members can end with. */
  datatype Error =
    | LocoAddressOutOfRange(address: int)  // LocoAddressOutOfRangeException
    | WrongSpeedStepId                      // RuntimeException("Wrong speed step ID")
    | IndexOutOfBounds                      // byteRepresentation.get(i) past the end of the list

  datatype Outcome = Completed | Threw(error: Error)

  const XHeader: bv8 := 0xE4
  const LongAddressFlags: bv8 := 0xC0
  const ForwardBit: bv8 := 0x80

  /** The speed-step marker for a speed-step ID: 0, 2, 3 stand for 14, 28 and 128 steps. */
  function StepMarker(speedStepsId: bv8): (marker: Option<bv8>)
    ensures marker.Some? <==> speedStepsId == 0 || speedStepsId == 2 || speedStepsId == 3
    ensures marker.Some? ==> marker.value == 0x10 | speedStepsId
  {
    if speedStepsId == 0 then Some(16)
    else if speedStepsId == 2 then Some(18)
    else if speedStepsId == 3 then Some(19)
    else None
  }

  // ---------------------------------------------------------------------------------
  // The address bytes
  //
  // The Java code splits the address through text: toBinaryString, padded with zeros to
  // 16 columns (`binary`); Adr_MSB is 0 when `binary` has at most eight significant
  // digits and otherwise its first eight characters; Adr_LSB is the rest.  Below, the
  // same split is stated on numbers; module AddressText states it on strings and proves
  // the two agree for every int.

  /** The number of significant binary digits of u; 0 for 0. */
  function SignificantBits(u: nat): (n: nat)
    ensures u < Pow2(n)
    ensures n > 0 ==> Pow2(n - 1) <= u
    ensures n == 0 <==> u == 0
  {
    if u == 0 then 0 else 1 + SignificantBits(u / 2)
  }

  /** The length of `binary`: the significant digits, but never fewer than 16. */
  function BinaryWidth(locoAddress: Int32): (w: nat)
    ensures w >= 16
  {
    var n := SignificantBits(Unsigned32(locoAddress));
    if n < 16 then 16 else n
  }

  /** The test that decides Adr_MSB: at most eight significant binary digits. */
  predicate HasAtMostEightSignificantBits(locoAddress: Int32)
  {
    SignificantBits(Unsigned32(locoAddress)) <= 8
  }

  /** Adr_MSB before the long-address flags: 0, or the value of the first eight digits of `binary`. */
  function AddressMsbBeforeFlags(locoAddress: Int32): bv8
  {
    if HasAtMostEightSignificantBits(locoAddress) then 0
    else ToByte(Unsigned32(locoAddress) / Pow2(BinaryWidth(locoAddress) - 8))
  }

  /** Adr_LSB: the value of the digits of `binary` after the eighth, cast to a byte. */
  function AddressLsb(locoAddress: Int32): bv8
  {
    ToByte(Unsigned32(locoAddress) % Pow2(BinaryWidth(locoAddress) - 8))
  }

  /** Adr_MSB as sent: the two top bits are ORed in for every address above 127. */
  function AddressMsb(locoAddress: Int32): (msb: bv8)
    ensures locoAddress > 127 ==> msb & LongAddressFlags == LongAddressFlags
    ensures locoAddress > 127 ==> msb & 0x3F == AddressMsbBeforeFlags(locoAddress) & 0x3F
    ensures locoAddress <= 127 ==> msb == AddressMsbBeforeFlags(locoAddress)
  {
    var msb := AddressMsbBeforeFlags(locoAddress);
    if locoAddress > 127 then msb | LongAddressFlags else msb
  }

  // ---------------------------------------------------------------------------------
  // Speed, direction and checksum

  /** The speed byte with the direction merged in: forward sets bit 7, backward leaves it. */
  function SpeedAndDirection(speed: bv8, direction: bool): (b: bv8)
    ensures b & 0x7F == speed & 0x7F
    ensures b & ForwardBit == (if direction then ForwardBit else speed & ForwardBit)
  {
    if direction then speed | ForwardBit else speed
  }

  /** The XOR of a run of bytes, folded from the left. */
  function XorAll(s: seq<bv8>): bv8
  {
    if s == [] then 0 else XorAll(s[..|s| - 1]) ^ s[|s| - 1]
  }

  // ---------------------------------------------------------------------------------
  // The byte list, as functions of the inputs

  /**
   * The list and the outcome of addDataToByteRepresentation on a list holding `before`.
   * The checksum reads list positions 2 to 6, whatever precedes the appended bytes.
   */
  function AfterAddData(before: seq<bv8>, locoAddress: Int32, speed: bv8, speedStepsId: bv8,
                        direction: bool): (seq<bv8>, Outcome)
  {
    match StepMarker(speedStepsId)
    case None => (before + [XHeader], Threw(WrongSpeedStepId))
    case Some(marker) =>
      var list := before + DriveBytes(marker, locoAddress, speed, direction);
      if |list| < 7 then (list, Threw(IndexOutOfBounds))
      else (list + [XorAll(list[2..7])], Completed)
  }

  /** The five bytes addDataToByteRepresentation appends before the checksum. */
  function DriveBytes(marker: bv8, locoAddress: Int32, speed: bv8, direction: bool): seq<bv8>
  {
    [XHeader, marker, AddressMsb(locoAddress), AddressLsb(locoAddress),
     SpeedAndDirection(speed, direction)]
  }

  /** The list and the outcome of the constructor, up to its call of addLenByte. */
  function AfterConstructor(locoAddress: Int32, speed: Int32, speedStepsId: Int32,
                            direction: bool): (seq<bv8>, Outcome)
  {
    var header: seq<bv8> := [0x40, 0x00];
    if locoAddress < 1 then (header, Threw(LocoAddressOutOfRange(locoAddress)))
    else AfterAddData(header, locoAddress, ToByte(speed), ToByte(speedStepsId), direction)
  }

  // ---------------------------------------------------------------------------------
  // The action object

  class Z21ActionSetLocoDrive {
    /** The list that Z21Action keeps for each action; it starts empty. */
    var byteRepresentation: seq<bv8>
    /**
     * Completed, or the exception the Java constructor throws.  A Dafny constructor
     * cannot throw, so the object records it and keeps the list as it stood then.
     */
    var outcome: Outcome

    constructor (locoAddress: Int32, speed: Int32, speedStepsId: Int32, direction: bool)
      ensures (byteRepresentation, outcome) == AfterConstructor(locoAddress, speed, speedStepsId, direction)
    {
      byteRepresentation := [];
      outcome := Completed;
      new;
      byteRepresentation := byteRepresentation + [0x40];
      byteRepresentation := byteRepresentation + [0x00];
      assert byteRepresentation == [0x40, 0x00];
      if locoAddress < 1 {
        outcome := Threw(LocoAddressOutOfRange(locoAddress));
        return;
      }
      outcome := AddDataToByteRepresentation(locoAddress, ToByte(speed), ToByte(speedStepsId), direction);
    }

    method AddDataToByteRepresentation(locoAddress: Int32, speed: bv8, speedStepsId: bv8,
                                       direction: bool) returns (result: Outcome)
      modifies this`byteRepresentation
      ensures (byteRepresentation, result)
           == AfterAddData(old(byteRepresentation), locoAddress, speed, speedStepsId, direction)
    {
      ghost var before := byteRepresentation;
      byteRepresentation := byteRepresentation + [XHeader];
      var marker := StepMarker(speedStepsId);
      if marker.None? {
        return Threw(WrongSpeedStepId);
      }
      byteRepresentation := byteRepresentation + [marker.value];
      var adrMsb := AddressMsbBeforeFlags(locoAddress);
      var adrLsb := AddressLsb(locoAddress);
      if locoAddress > 127 {
        adrMsb := adrMsb | LongAddressFlags;
      }
      byteRepresentation := byteRepresentation + [adrMsb];
      byteRepresentation := byteRepresentation + [adrLsb];
      var speedAndDirection := speed;
      if direction {
        speedAndDirection := speedAndDirection | ForwardBit;
      }
      byteRepresentation := byteRepresentation + [speedAndDirection];
      assert byteRepresentation == before + DriveBytes(marker.value, locoAddress, speed, direction) by {
        AppendFive(before, XHeader, marker.value, adrMsb, adrLsb, speedAndDirection);
      }
      if |byteRepresentation| < 7 {
        AfterAddDataCases(before, locoAddress, speed, speedStepsId, direction);
        return Threw(IndexOutOfBounds);
      }
      var list := byteRepresentation;
      var checksum := list[2] ^ list[3] ^ list[4] ^ list[5] ^ list[6];
      XorOfPositions2To6(list);
      byteRepresentation := byteRepresentation + [checksum];
      result := Completed;
      AfterAddDataCases(before, locoAddress, speed, speedStepsId, direction);
    }
  }

  /** AfterAddData by cases, for the method's return paths. */
  lemma AfterAddDataCases(before: seq<bv8>, locoAddress: Int32, speed: bv8, speedStepsId: bv8,
                          direction: bool)
    ensures StepMarker(speedStepsId).Some? ==>
      var list := before + DriveBytes(StepMarker(speedStepsId).value, locoAddress, speed, direction);
      AfterAddData(before, locoAddress, speed, speedStepsId, direction)
        == if |before| < 2 then (list, Threw(IndexOutOfBounds))
           else (list + [XorAll(list[2..7])], Completed)
  {
  }

  lemma XorOfPositions2To6(list: seq<bv8>)
    requires |list| >= 7
    ensures XorAll(list[2..7]) == list[2] ^ list[3] ^ list[4] ^ list[5] ^ list[6]
  {
    assert list[2..7] == [list[2], list[3], list[4], list[5], list[6]];
    XorFive(list[2], list[3], list[4], list[5], list[6]);
  }

  lemma AppendFive(s: seq<bv8>, a: bv8, b: bv8, c: bv8, d: bv8, e: bv8)
    ensures s + [a] + [b] + [c] + [d] + [e] == s + [a, b, c, d, e]
  {
  }

  lemma XorSnoc(s: seq<bv8>, x: bv8)
    ensures XorAll(s + [x]) == XorAll(s) ^ x
  {
    assert (s + [x])[..|s|] == s;
  }

  /** The fold over five bytes is the chain of XORs the Java code writes out. */
  lemma XorFive(a: bv8, b: bv8, c: bv8, d: bv8, e: bv8)
    ensures XorAll([a, b, c, d, e]) == a ^ b ^ c ^ d ^ e
  {
    XorSnoc([], a);
    assert [a] == [] + [a];
    XorSnoc([a], b);
    assert [a, b] == [a] + [b];
    XorSnoc([a, b], c);
    assert [a, b, c] == [a, b] + [c];
    XorSnoc([a, b, c], d);
    assert [a, b, c, d] == [a, b, c] + [d];
    XorSnoc([a, b, c, d], e);
    assert [a, b, c, d, e] == [a, b, c, d] + [e];
  }
}
