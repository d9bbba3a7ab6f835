/**
 * Machine integers of the SMS length engine and the big-endian pairing of
 * the decoder's UTF-16BE output bytes into 16-bit code units. The pairing
 * stands alone: the decoder reports of the driver model carry code units
 * already paired, so this module is where the byte-level step is stated
 * and shown to be a bijection onto even-length buffers.
 */
module CodeUnits {

  /** One input byte (the `int` returned by `fgetc`, known not to be EOF). */
  newtype uint8 = x: int | 0 <= x < 0x100

  /** One UTF-16 code unit (`uint16_t unicode` in the driver loop). */
  newtype uint16 = x: int | 0 <= x < 0x1_0000

  /**
   * Pairs the decoder's output bytes two at a time, high byte first
   * (the `memcpy` + `ntohs` of the driver loop).
   */
  function UnitsFromBigEndian(bytes: seq<uint8>): (us: seq<uint16>)
    requires |bytes| % 2 == 0
    ensures |us| == |bytes| / 2
    ensures forall i :: 0 <= i < |us| ==>
      us[i] as int == bytes[2 * i] as int * 0x100 + bytes[2 * i + 1] as int
  {
    if |bytes| == 0 then []
    else
      [(bytes[0] as int * 0x100 + bytes[1] as int) as uint16] + UnitsFromBigEndian(bytes[2..])
  }

  /** The UTF-16BE serialisation of code units: high byte, then low byte. */
  function BigEndianBytes(us: seq<uint16>): (bytes: seq<uint8>)
    ensures |bytes| == 2 * |us|
    ensures forall i :: 0 <= i < |us| ==>
      bytes[2 * i] as int == us[i] as int / 0x100 && bytes[2 * i + 1] as int == us[i] as int % 0x100
  {
    if |us| == 0 then []
    else
      [(us[0] as int / 0x100) as uint8, (us[0] as int % 0x100) as uint8] + BigEndianBytes(us[1..])
  }

  /** Pairing the serialisation of any code units gives those code units back. */
  lemma PairingInvertsSerialisation(us: seq<uint16>)
    ensures UnitsFromBigEndian(BigEndianBytes(us)) == us
  {
  }

  /** Serialising the paired code units gives the even-length byte string back. */
  lemma {:induction false} SerialisationInvertsPairing(bytes: seq<uint8>)
    requires |bytes| % 2 == 0
    ensures BigEndianBytes(UnitsFromBigEndian(bytes)) == bytes
  {
    if |bytes| > 0 {
      var us := UnitsFromBigEndian(bytes);
      assert us[1..] == UnitsFromBigEndian(bytes[2..]);
      SerialisationInvertsPairing(bytes[2..]);
      assert bytes == [bytes[0], bytes[1]] + bytes[2..];
    }
  }
}
