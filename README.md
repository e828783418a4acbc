# Z21 "set locomotive drive" frame builder

This project models the class `Z21ActionSetLocoDrive` of a Java library for the Roco/Fleischmann
Z21 command station. It builds the LAN-X command LAN_X_SET_LOCO_DRIVE, described in section 4.2 of
the Z21 LAN protocol specification. The constructor and `addDataToByteRepresentation` append bytes,
one at a time, to the byte list the action inherits:

    0x40 0x00 | 0xE4 | step marker | Adr_MSB | Adr_LSB | speed and direction | XOR checksum

The model stops where the constructor calls `addLenByte()`.

Modules:

- `JavaLang` (java_lang.dfy) models the pieces of `java.lang` the address split relies on, as Java defines them:
  - the `int` range and the `(byte)` cast;
  - `Integer.toBinaryString`, including the two's-complement digits of negative values;
  - `String.format("%16s", _)`, `replace(' ', '0')` and `replaceFirst("^0*", "")`;
  - `Integer.parseInt(_, 2)`.
  Lemmas state what each computes as a number.
- `SetLocoDrive` (set_loco_drive.dfy) is the model proper:
  - the class `Z21ActionSetLocoDrive` has the list as a `seq<bv8>` field;
  - its constructor and `AddDataToByteRepresentation` append step by step, as in the Java code;
  - the functions `AfterConstructor` and `AfterAddData` specify the resulting list and outcome;
  - pure helpers compute the step marker, the address bytes, the speed byte and the XOR fold.
  Adr_MSB and Adr_LSB are computed on numbers: the count of significant bits, the width of the padded text, and the quotient and remainder at its 8th digit.
- `AddressText` (address_text.dfy) writes lines 45-53 literally on strings. `TextSplitAgrees` proves that the text version and the numeric version give the same bytes for every `int`.
- `SetLocoDriveProperties` (set_loco_drive_properties.dfy) holds the properties of the model:
  - what the split means below and above 65536;
  - the two address forms, short and long;
  - the checksum;
  - the error cases;
  - the eight-byte layout;
  - worked examples.

Java exceptions are modelled by the datatype `Outcome`, because a Dafny constructor cannot throw.
The object stores the outcome it reached, and the list as it stood when the exception was thrown.
`addDataToByteRepresentation` is public and reads list positions 2 to 6. It is therefore modelled
for any prior contents of the list: with fewer than two bytes already present, it ends in
`IndexOutOfBounds`.

Where the code and its documentation differ, the model follows the code:

- The checksum XORs positions 2 to 6. This includes the X-header 0xE4 at position 2.
- Backward direction never clears bit 7 of the speed byte; bit 7 is only ever ORed in. So speed 0xFF going backward is still sent as 0xFF (`Examples`).
- Only addresses below 1 are rejected, although the doc comments at lines 6 and 15 speak of an upper limit.
  - Addresses from 16384 to 65535 reuse the 14-bit field of smaller addresses: 16512 yields the same frame as 128 (`LongAddressesAliasModulo16384`, `AddressAliasExample`).
  - From 65536 on, `binary` is longer than 16 digits. Its first eight characters are then the leading eight bits, not bits 8 to 15 (`WideAddressMsb`).

## Model

| member | source | states |
|---|---|---|
| SetLocoDrive.Z21ActionSetLocoDrive.constructor | src/main/java/z21Drive/actions/Z21ActionSetLocoDrive.java:17-22 | the list and the outcome are `AfterConstructor` of the arguments: header 0x40 0x00, the LocoAddressOutOfRange throw for an address below 1, or addDataToByteRepresentation with speed and step ID cast to bytes |
| SetLocoDrive.Z21ActionSetLocoDrive.AddDataToByteRepresentation | src/main/java/z21Drive/actions/Z21ActionSetLocoDrive.java:27-72 | appending step by step leaves exactly the list and outcome `AfterAddData` gives for the old list; only the list changes |
| SetLocoDrive.StepMarker | src/main/java/z21Drive/actions/Z21ActionSetLocoDrive.java:29-42 | a marker exists exactly for step IDs 0, 2 and 3, and it is 0x10 OR the ID (0x10, 0x12, 0x13) |
| SetLocoDrive.SignificantBits | src/main/java/z21Drive/actions/Z21ActionSetLocoDrive.java:49 | the count n of significant bits satisfies 2^(n-1) <= u < 2^n, and is 0 only for 0 |
| SetLocoDrive.BinaryWidth | src/main/java/z21Drive/actions/Z21ActionSetLocoDrive.java:45 | the padded text is never shorter than 16 characters |
| SetLocoDrive.AddressMsb | src/main/java/z21Drive/actions/Z21ActionSetLocoDrive.java:55-57 | above 127 the two top bits are set and the low six bits are those of `AddressMsbBeforeFlags`; at 127 and below, zero and negative addresses included, Adr_MSB is `AddressMsbBeforeFlags` unchanged |
| SetLocoDrive.SpeedAndDirection | src/main/java/z21Drive/actions/Z21ActionSetLocoDrive.java:66-70 | bits 0-6 are the speed's; bit 7 is set when forward and otherwise is the speed's own bit 7 |
| SetLocoDrive.XorOfPositions2To6 | src/main/java/z21Drive/actions/Z21ActionSetLocoDrive.java:71-72 | `XorAll` over positions 2 to 6 is the XOR chain the code writes out |
| SetLocoDrive.XorSnoc | src/main/java/z21Drive/actions/Z21ActionSetLocoDrive.java:71-72 | `XorAll` folds from the left: appending a byte XORs it into the fold of the bytes before it |
| SetLocoDrive.XorFive | src/main/java/z21Drive/actions/Z21ActionSetLocoDrive.java:71-72 | the left fold over five bytes equals their XOR chain |
| JavaLang.ToByte | src/main/java/z21Drive/actions/Z21ActionSetLocoDrive.java:22 | the `(byte)` cast yields the byte worth x mod 256, negative x included |
| JavaLang.ParseBinary | src/main/java/z21Drive/actions/Z21ActionSetLocoDrive.java:52-53 | the value of k binary digits is below 2^k |
| JavaLang.Digits | src/main/java/z21Drive/actions/Z21ActionSetLocoDrive.java:45 | toBinaryString's digits read back as the value; zero is written "0" |
| JavaLang.DigitsShape | src/main/java/z21Drive/actions/Z21ActionSetLocoDrive.java:45 | the digits are non-empty, only '0' and '1', and start with '1' for a positive value |
| JavaLang.StripLeadingZerosMeaning | src/main/java/z21Drive/actions/Z21ActionSetLocoDrive.java:49 | `StripLeadingZeros` (replaceFirst("^0*", "")) leaves a suffix that does not start with '0', and removes only zeros |
| JavaLang.PadWithZeros | src/main/java/z21Drive/actions/Z21ActionSetLocoDrive.java:45 | formatting to a width and replacing the spaces puts zeros in front of a digit string up to that width |
| JavaLang.SplitDigits | src/main/java/z21Drive/actions/Z21ActionSetLocoDrive.java:46-47 | cutting a digit string after m characters gives the quotient and the remainder of its value by 2^(length-m) |
| JavaLang.ParseZeroPrefix | src/main/java/z21Drive/actions/Z21ActionSetLocoDrive.java:45 | leading zeros do not change the parsed value |
| JavaLang.StripZeroPrefix | src/main/java/z21Drive/actions/Z21ActionSetLocoDrive.java:45-49 | stripping the leading zeros undoes zero padding of a string that does not start with '0' |
| JavaLang.Unsigned32 | src/main/java/z21Drive/actions/Z21ActionSetLocoDrive.java:45 | the unsigned reading of an int is the one value below 2^32 congruent to it modulo 2^32 (n + 2^32 for a negative n), and is the int itself when non-negative |
| JavaLang.Unsigned32LowByte | src/main/java/z21Drive/actions/Z21ActionSetLocoDrive.java:45 | the unsigned reading keeps the int's low byte |
| JavaLang.ToBinaryStringMeaning | src/main/java/z21Drive/actions/Z21ActionSetLocoDrive.java:45 | `ToBinaryString` (Integer.toBinaryString) writes only '0' and '1', at least one digit, with no leading zero except for "0", and its value is below 2^32 and congruent to the int modulo 2^32, so a negative int is written as its two's complement |
| JavaLang.FormatRightJustifiedShape | src/main/java/z21Drive/actions/Z21ActionSetLocoDrive.java:45 | `FormatRightJustified` (the "%16s" format) is max(width, length) long, ends with the string itself and has only spaces in front of it |
| JavaLang.ReplaceCharMeaning | src/main/java/z21Drive/actions/Z21ActionSetLocoDrive.java:45 | `ReplaceChar` (replace(' ', '0')) turns every occurrence of the one character into the other and keeps every other character in place |
| AddressText.DigitsCount | src/main/java/z21Drive/actions/Z21ActionSetLocoDrive.java:45 | toBinaryString writes exactly the significant bits, one "0" for zero |
| AddressText.BinaryShape | src/main/java/z21Drive/actions/Z21ActionSetLocoDrive.java:45 | `Binary` (the local `binary`) is the digits behind zeros up to 16 columns, is BinaryWidth long, and reads as the unsigned value |
| AddressText.StrippedLength | src/main/java/z21Drive/actions/Z21ActionSetLocoDrive.java:49 | `binary` without its leading zeros is as long as the count of significant bits |
| AddressText.TextSplitValues | src/main/java/z21Drive/actions/Z21ActionSetLocoDrive.java:45-53 | substring(0, 8) and substring(8) of `binary` parse to the quotient and remainder by 2^(width-8) |
| AddressText.CutAfterEight | src/main/java/z21Drive/actions/Z21ActionSetLocoDrive.java:46-47 | the two substrings of a digit string of width w parse to quotient and remainder by 2^(w-8) |
| AddressText.TextSplitAgrees | src/main/java/z21Drive/actions/Z21ActionSetLocoDrive.java:45-53 | for every int, the text versions `TextHasAtMostEightSignificantBits`, `TextMsbBeforeFlags` and `TextLsb` of lines 49-53 equal the numeric `HasAtMostEightSignificantBits`, `AddressMsbBeforeFlags` and `AddressLsb`, and `binary` is at least 16 long, so the substrings never fail |
| SetLocoDriveProperties.SignificantBitsTest | src/main/java/z21Drive/actions/Z21ActionSetLocoDrive.java:49 | `HasAtMostEightSignificantBits`, the test at line 49, holds exactly for the addresses 0 to 255 |
| SetLocoDriveProperties.BitCountBound | src/main/java/z21Drive/actions/Z21ActionSetLocoDrive.java:49 | at most m significant bits exactly when the value is below 2^m (both directions) |
| SetLocoDriveProperties.NarrowWidth | src/main/java/z21Drive/actions/Z21ActionSetLocoDrive.java:45-47 | below 65536 `binary` has exactly 16 digits, so the cut falls after bit 8 |
| SetLocoDriveProperties.ByteSplitBelow65536 | src/main/java/z21Drive/actions/Z21ActionSetLocoDrive.java:45-53 | for 0 <= address < 65536 `AddressMsbBeforeFlags` is address / 256 and `AddressLsb` is address mod 256, so the bit-length test never changes the result |
| SetLocoDriveProperties.LsbIsLowByte | src/main/java/z21Drive/actions/Z21ActionSetLocoDrive.java:45-53 | `AddressLsb` is the low byte of the address for every int, negative ones included |
| SetLocoDriveProperties.WideAddressMsb | src/main/java/z21Drive/actions/Z21ActionSetLocoDrive.java:45-52 | for a negative address or one of 65536 and above, `binary` is longer than 16 digits and `AddressMsbBeforeFlags` is its leading eight bits, at least 128 |
| SetLocoDriveProperties.FlagsKeepLowSixBits | src/main/java/z21Drive/actions/Z21ActionSetLocoDrive.java:56 | ORing 0xC0 keeps the low six bits and sets the two top bits |
| SetLocoDriveProperties.FlagsAlias | src/main/java/z21Drive/actions/Z21ActionSetLocoDrive.java:56 | bytes with the same low six bits are equal once 0xC0 is ORed in |
| SetLocoDriveProperties.ShortAddress | src/main/java/z21Drive/actions/Z21ActionSetLocoDrive.java:45-59 | for 1 <= address <= 127, Adr_MSB is 0 and Adr_LSB is the address |
| SetLocoDriveProperties.LongAddress | src/main/java/z21Drive/actions/Z21ActionSetLocoDrive.java:45-57 | for 128 <= address <= 16383, Adr_MSB has both top bits set and (Adr_MSB & 0x3F) * 256 + Adr_LSB is the address |
| SetLocoDriveProperties.LongAddressesAliasModulo16384 | src/main/java/z21Drive/actions/Z21ActionSetLocoDrive.java:20-57 | for a long address in range, adding 16384 leaves both address bytes unchanged |
| SetLocoDriveProperties.AddDataOutcome | src/main/java/z21Drive/actions/Z21ActionSetLocoDrive.java:27-72 | `AfterAddData` on any prior list: the old list stays a prefix and 0xE4 follows it; there is a wrong-step throw exactly for an unknown ID, and then one byte is appended; there is an out-of-bounds throw exactly when fewer than two bytes preceded a known ID; otherwise six bytes are appended, the last is the XOR of positions 2-6, and XORing it in again gives 0 |
| SetLocoDriveProperties.AddDataAppendsDriveBytes | src/main/java/z21Drive/actions/Z21ActionSetLocoDrive.java:27-70 | for a known step ID, the five bytes `DriveBytes` appends after the old list are 0xE4, 0x10 OR the ID, Adr_MSB, Adr_LSB and the speed byte, both when the checksum follows and when the read of positions 2-6 throws |
| SetLocoDriveProperties.AddressBelowOneThrows | src/main/java/z21Drive/actions/Z21ActionSetLocoDrive.java:18-21 | `AfterConstructor` of an address below 1 throws LocoAddressOutOfRange with only 0x40 0x00 in the list |
| SetLocoDriveProperties.ConstructorOutcome | src/main/java/z21Drive/actions/Z21ActionSetLocoDrive.java:20-42 | `AfterConstructor` completes exactly when address >= 1 and the cast step ID is 0, 2 or 3; it never fails at the checksum; a wrong ID leaves 0x40 0x00 0xE4 |
| SetLocoDriveProperties.ConstructorLayout | src/main/java/z21Drive/actions/Z21ActionSetLocoDrive.java:18-22 | a completed `AfterConstructor` leaves exactly [0x40, 0x00, 0xE4, marker, Adr_MSB, Adr_LSB, speedDir, XOR of positions 2-6], and the XOR over positions 2 to 7 is 0 |
| SetLocoDriveProperties.ChecksummedFrame | src/main/java/z21Drive/actions/Z21ActionSetLocoDrive.java:71-72 | seven bytes plus the fold over positions 2-6 form the eight-byte frame whose XOR over positions 2 to 7 is 0 |
| SetLocoDriveProperties.Examples | src/main/java/z21Drive/actions/Z21ActionSetLocoDrive.java:17-72 | address 3, speed 50, 128 steps, forward gives 40 00 E4 13 00 03 B2 46; step ID 259 casts to 3; speed 0xFF backward keeps 0xFF |
| SetLocoDriveProperties.LongAddressExample | src/main/java/z21Drive/actions/Z21ActionSetLocoDrive.java:45-59 | address 1000 goes out as Adr_MSB 0xC3, Adr_LSB 0xE8 |
| SetLocoDriveProperties.AddressAliasExample | src/main/java/z21Drive/actions/Z21ActionSetLocoDrive.java:17-59 | address 16512 produces the same list and outcome as address 128 |

## Left out

- `addLenByte()` (line 23), from the base class `Z21Action`: the model stops just before it. `Z21Action` is not part of this model.
- `byteRepresentation` itself is declared in `Z21Action`. Here it is a field of the modelled class that starts out empty.
- `fromByte` (lines 76-87) is left out, together with the commented-out code at lines 61-65 that was its only user: both are dead code.
- The `System.err.println` message at line 40 is left out because it is output only. The wrong-step-ID exception that follows it is modelled.
- The `Object[]` argument and its boxing casts at lines 22 and 29-67 are replaced by typed parameters.
- Bytes are unsigned eight-bit values (`bv8`), whereas Java bytes are signed.
  - The sign extension at lines 56, 66 and 71 does not change the low eight bits that are stored, so nothing observable is lost.
- `LocoAddressOutOfRangeException` is not part of this model. It is represented by an error value that carries the address.
- `JavaLang.ParseBinary` has no NumberFormatException path, because it only ever receives digit strings of 8 to 24 characters.
- `JavaLang.StripLeadingZeros` models the effect of the regular expression `^0*`, not a regular-expression engine.
- Sending the frame, the network and the responses are outside this class.
