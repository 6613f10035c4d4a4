/** Bytes on the wire: a request as the scheduler sends it. */
module Vectors {
  import opened Basics
  import opened Frames
  import opened Schedulers
  import Bytes
  import Crc
  import Division

  /** A request for register 003b02, up to its checksum. */
  const REQUEST: seq<Byte> := [0x20, 0x01, 0x92, 0x01, 0x03, 0x00, 0x00, 0x0b, 0x00, 0x3b, 0x02]

  lemma RequestShifts()
    ensures Division.EightShifts(0x0000 ^ 0x20) == 0xD801 && Division.EightShifts(0xD801 ^ 0x01) == 0x00D8
    ensures Division.EightShifts(0x00D8 ^ 0x92) == 0xF781 && Division.EightShifts(0xF781 ^ 0x01) == 0xA0F6
    ensures Division.EightShifts(0xA0F6 ^ 0x03) == 0x4760 && Division.EightShifts(0x4760 ^ 0x00) == 0x2847
    ensures Division.EightShifts(0x2847 ^ 0x00) == 0x3268 && Division.EightShifts(0x3268 ^ 0x0b) == 0x2972
    ensures Division.EightShifts(0x2972 ^ 0x00) == 0x25A9 && Division.EightShifts(0x25A9 ^ 0x3b) == 0xADA4
    ensures Division.EightShifts(0xADA4 ^ 0x02) == 0x7A2D
  {
  }

  lemma RequestChecksum()
    ensures Crc.Crc16(REQUEST) == 0x7A2D
  {
    var m := REQUEST;
    RequestShifts();
    Division.OneMore(m[..1], m[..0], 0x20, 0x0000, 0xD801);
    Division.OneMore(m[..2], m[..1], 0x01, 0xD801, 0x00D8);
    Division.OneMore(m[..3], m[..2], 0x92, 0x00D8, 0xF781);
    Division.OneMore(m[..4], m[..3], 0x01, 0xF781, 0xA0F6);
    Division.OneMore(m[..5], m[..4], 0x03, 0xA0F6, 0x4760);
    Division.OneMore(m[..6], m[..5], 0x00, 0x4760, 0x2847);
    Division.OneMore(m[..7], m[..6], 0x00, 0x2847, 0x3268);
    Division.OneMore(m[..8], m[..7], 0x0b, 0x3268, 0x2972);
    Division.OneMore(m[..9], m[..8], 0x00, 0x2972, 0x25A9);
    Division.OneMore(m[..10], m[..9], 0x3b, 0x25A9, 0xADA4);
    Division.OneMore(m, m[..10], 0x02, 0xADA4, 0x7A2D);
  }

  lemma AddressBytes()
    ensures Hi(0x2001) == 0x20 && Lo(0x2001) == 0x01 && Hi(0x9201) == 0x92 && Lo(0x9201) == 0x01
    ensures Lo(0x7A2D) == 0x2D && Hi(0x7A2D) == 0x7A
  {
  }

  lemma LengthByte()
    ensures Bytes.FromInt(3) == 0x03
  {
    assert Bytes.FromInt(1) == Bytes.FromInt(0) + 1;
    assert Bytes.FromInt(2) == Bytes.FromInt(1) + 1;
    assert Bytes.FromInt(3) == Bytes.FromInt(2) + 1;
  }

  /** The request as it goes out: addresses, length, two zeros, op, register, and the checksum low byte first. */
  lemma RequestOnTheWire()
    ensures Wire(ReadFrame([0x00, 0x3b, 0x02])) ==
      [0x20, 0x01, 0x92, 0x01, 0x03, 0x00, 0x00, 0x0b, 0x00, 0x3b, 0x02, 0x2d, 0x7a]
  {
    var f := ReadFrame([0x00, 0x3b, 0x02]);
    AddressBytes();
    LengthByte();
    assert Header(f) + f.data == REQUEST;
    RequestChecksum();
  }
}
