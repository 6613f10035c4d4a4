/** The frame codec of bus/frame.go: `Encode`, `Decode`, and how they undo each other. */
module Frames {
  import opened Basics
  import Bytes
  import Crc

  /** One bus frame. `raw` holds the wire bytes a decoded frame came from. */
  datatype Frame = Frame(dst: bv16, src: bv16, op: Byte, data: seq<Byte>, raw: seq<Byte>)

  // Addresses and ops.
  const WALL_CONTROL: bv16 := 0x2001
  const SAM: bv16 := 0x9201
  const OP_ACK: Byte := 0x06
  const OP_READ: Byte := 0x0b
  const OP_WRITE: Byte := 0x0c
  const OP_NACK: Byte := 0x15

  const HEADER := 8
  const MIN_FRAME := 10
  const MAX_DATA := 255

  // ----- Specification -----

  function Hi(x: bv16): Byte { ((x >> 8) & 0xFF) as Byte }

  function Lo(x: bv16): Byte { (x & 0xFF) as Byte }

  /** dst and src (big-endian), data length, two zero bytes, op. */
  function Header(f: Frame): (h: seq<Byte>)
    requires |f.data| <= MAX_DATA
    ensures |h| == HEADER
  {
    [Hi(f.dst), Lo(f.dst), Hi(f.src), Lo(f.src), Bytes.FromInt(|f.data|), 0, 0, f.op]
  }

  /** A body followed by its checksum, low byte first. */
  function Sealed(body: seq<Byte>): (b: seq<Byte>)
    ensures |b| == |body| + 2
  {
    body + [Lo(Crc.Crc16(body)), Hi(Crc.Crc16(body))]
  }

  /** The wire form of a frame. */
  function Wire(f: Frame): (b: seq<Byte>)
    requires |f.data| <= MAX_DATA
    ensures |b| == MIN_FRAME + |f.data|
  {
    Sealed(Header(f) + f.data)
  }

  ghost predicate AllZero(buf: seq<Byte>) {
    forall i :: 0 <= i < |buf| ==> buf[i] == 0
  }

  /** The buffers `Decode` takes: long enough, not all zero, checksum over the whole is zero. */
  ghost predicate Accepts(buf: seq<Byte>) {
    |buf| >= MIN_FRAME && !AllZero(buf) && Crc.Crc16(buf) == 0
  }

  /** The frame an accepted buffer denotes. */
  function Parse(buf: seq<Byte>): Frame
    requires |buf| >= MIN_FRAME
  {
    Frame(Crc.Word(buf[1], buf[0]), Crc.Word(buf[3], buf[2]), buf[7], buf[8..|buf| - 2], buf)
  }

  /** The header of a buffer describes the buffer: bytes 5-6 are zero, byte 4 is the data length. */
  ghost predicate WellFramed(buf: seq<Byte>) {
    |buf| >= MIN_FRAME && buf[5] == 0 && buf[6] == 0 && |buf| == Bytes.ToInt(buf[4]) + MIN_FRAME
  }

  // ----- Implementation -----

  /** `Frame.Encode`; the source panics on more than 255 data bytes. */
  method Encode(f: Frame) returns (b: seq<Byte>)
    requires |f.data| <= MAX_DATA
    ensures b == Wire(f)
  {
    b := [Hi(f.dst), Lo(f.dst)];
    b := b + [Hi(f.src), Lo(f.src)];
    b := b + [Bytes.FromInt(|f.data|)];
    b := b + [0];
    b := b + [0];
    b := b + [f.op];
    b := b + f.data;
    var crc := Crc.Crc16Arc(b);
    assert b == Header(f) + f.data;
    b := b + [Lo(crc)];
    b := b + [Hi(crc)];
  }

  /**
   `Frame.Decode`: the receiver comes in as `f` and out as `g`, untouched on refusal.
   */
  method Decode(f: Frame, buf: seq<Byte>) returns (ok: bool, g: Frame)
    ensures ok <==> Accepts(buf)
    ensures g == if ok then Parse(buf) else f
  {
    if |buf| < 10 {
      return false, f;
    }
    var nonzero := false;
    for i := 0 to |buf|
      invariant nonzero <==> exists k :: 0 <= k < i && buf[k] != 0
    {
      if buf[i] != 0 {
        nonzero := true;
        break;
      }
    }
    if !nonzero {
      return false, f;
    }
    var l := |buf| - 2;
    var want := Crc.Crc16Arc(buf[..l]);
    var got := (buf[l] as bv16) | ((buf[l + 1] as bv16) << 8);
    assert got == Crc.Word(buf[l], buf[l + 1]) by { Crc.WordAsOr(buf[l], buf[l + 1]); }
    assert want == got <==> Crc.Crc16(buf) == 0 by {
      assert buf == buf[..l] + [buf[l], buf[l + 1]];
      Crc.ResidueIsZero(buf[..l], buf[l], buf[l + 1]);
    }
    if want != got {
      return false, f;
    }
    ok, g := true, Parse(buf);
  }

  // ----- Round trips -----

  lemma WordHalves(x: bv16)
    ensures Crc.Word(Lo(x), Hi(x)) == x
  {
  }

  lemma HalvesWord(lo: Byte, hi: Byte)
    ensures Lo(Crc.Word(lo, hi)) == lo && Hi(Crc.Word(lo, hi)) == hi
  {
  }

  /** The one frame whose wire form is all zeros, so that `Decode` refuses it. */
  predicate IsZeroFrame(f: Frame) {
    f.dst == 0 && f.src == 0 && f.op == 0 && f.data == []
  }

  /** A sealed body has residue zero, and no other trailer gives it one. */
  lemma SealedResidue(body: seq<Byte>, lo: Byte, hi: Byte)
    ensures Crc.Crc16(Sealed(body)) == 0
    ensures Crc.Crc16(body + [lo, hi]) == 0 ==> body + [lo, hi] == Sealed(body)
  {
    var c := Crc.Crc16(body);
    WordHalves(c);
    Crc.ResidueIsZero(body, Lo(c), Hi(c));
    Crc.ResidueIsZero(body, lo, hi);
    HalvesWord(lo, hi);
  }

  lemma {:induction false} ZeroCrc(data: seq<Byte>)
    requires AllZero(data)
    ensures Crc.Crc16(data) == 0
  {
    if data != [] {
      var n := |data| - 1;
      assert data == data[..n] + [data[n]];
      ZeroCrc(data[..n]);
      Crc.Crc16Append(data[..n], data[n]);
      Crc.FeedZeroByte(0);
    }
  }

  lemma HalvesZero(x: bv16)
    requires Hi(x) == 0 && Lo(x) == 0
    ensures x == 0
  {
  }

  lemma HeaderAllZero(f: Frame)
    requires |f.data| <= MAX_DATA
    ensures AllZero(Header(f)) <==> IsZeroFrame(f)
  {
    var h := Header(f);
    assert Bytes.ToInt(h[4]) == |f.data| by { Bytes.ToFromInt(|f.data|); }
    if AllZero(h) {
      assert h[0] == 0 && h[1] == 0 && h[2] == 0 && h[3] == 0 && h[4] == 0 && h[7] == 0;
      HalvesZero(f.dst);
      HalvesZero(f.src);
    }
  }

  lemma WireAllZero(f: Frame)
    requires |f.data| <= MAX_DATA
    ensures AllZero(Wire(f)) <==> IsZeroFrame(f)
  {
    HeaderAllZero(f);
    var body := Header(f) + f.data;
    if IsZeroFrame(f) {
      ZeroCrc(body);
    } else {
      var i :| 0 <= i < HEADER && Header(f)[i] != 0;
      assert Wire(f)[i] != 0;
    }
  }

  lemma ParseHeader(f: Frame)
    requires |f.data| <= MAX_DATA
    ensures Crc.Word(Header(f)[1], Header(f)[0]) == f.dst
    ensures Crc.Word(Header(f)[3], Header(f)[2]) == f.src
    ensures Bytes.ToInt(Header(f)[4]) == |f.data|
  {
    WordHalves(f.dst);
    WordHalves(f.src);
    Bytes.ToFromInt(|f.data|);
  }

  lemma HeaderParse(buf: seq<Byte>)
    requires WellFramed(buf)
    ensures |Parse(buf).data| <= MAX_DATA
    ensures Header(Parse(buf)) == buf[..HEADER]
  {
    Bytes.ToIntBound(buf[4]);
    Bytes.FromToInt(buf[4]);
    var f := Parse(buf);
    assert Hi(f.dst) == buf[0] && Lo(f.dst) == buf[1] by { HalvesWord(buf[1], buf[0]); }
    assert Hi(f.src) == buf[2] && Lo(f.src) == buf[3] by { HalvesWord(buf[3], buf[2]); }
  }

  /** Decoding inverts encoding, for every frame but the all-zero one, which is refused. */
  lemma DecodeEncode(f: Frame)
    requires |f.data| <= MAX_DATA
    ensures Accepts(Wire(f)) <==> !IsZeroFrame(f)
    ensures Parse(Wire(f)) == f.(raw := Wire(f))
    ensures WellFramed(Wire(f))
  {
    var w := Wire(f);
    SealedResidue(Header(f) + f.data, 0, 0);
    WireAllZero(f);
    ParseHeader(f);
    assert forall i :: 0 <= i < HEADER ==> w[i] == Header(f)[i];
    assert Wire(f)[8..|Wire(f)| - 2] == f.data;
  }

  /** Encoding inverts decoding, for every accepted buffer whose header describes it. */
  lemma EncodeDecode(buf: seq<Byte>)
    requires Accepts(buf) && WellFramed(buf)
    ensures |Parse(buf).data| <= MAX_DATA && !IsZeroFrame(Parse(buf))
    ensures Wire(Parse(buf)) == buf
  {
    var f, l := Parse(buf), |buf| - 2;
    HeaderParse(buf);
    assert Header(f) + f.data == buf[..l];
    assert buf == buf[..l] + [buf[l], buf[l + 1]];
    SealedResidue(buf[..l], buf[l], buf[l + 1]);
    WireAllZero(f);
  }

  // ----- What the checksum refuses -----

  /**
   Flipping an odd number of bits of an accepted buffer, or making any nonzero change
   inside two adjacent bytes of it, yields a buffer that `Decode` refuses.
   */
  lemma CorruptionRefused(buf: seq<Byte>, e: seq<Byte>)
    requires Accepts(buf) && |e| == |buf| && Crc.Detectable(e)
    ensures !Accepts(Crc.Xor(buf, e))
  {
    Crc.DetectableChangesResidue(buf, e);
  }
}
