/**
 * Fixed-width unsigned integers, their native-order byte encodings (Python's
 * struct module with native byte order), the host byte-order probe of grab.py
 * and the packing of RGB pixels into 4-byte raw modes.
 */
module Bytes {
  import opened Wrappers

  type byte = x: int | 0 <= x < 0x100
  type u32 = x: int | 0 <= x < 0x1_0000_0000

  /** The host's native byte order. */
  datatype Order = LittleEndian | BigEndian

  function Pow256(n: nat): (r: nat)
    ensures r > 0
  {
    if n == 0 then 1 else 256 * Pow256(n - 1)
  }

  /** The low `width` bytes of `v`, least significant first. */
  function LittleBytes(v: nat, width: nat): (bs: seq<byte>)
    ensures |bs| == width
  {
    if width == 0 then [] else [v % 256] + LittleBytes(v / 256, width - 1)
  }

  /** The low `width` bytes of `v`, most significant first. */
  function BigBytes(v: nat, width: nat): (bs: seq<byte>)
    ensures |bs| == width
  {
    if width == 0 then [] else BigBytes(v / 256, width - 1) + [v % 256]
  }

  function LittleValue(bs: seq<byte>): nat
  {
    if bs == [] then 0 else bs[0] + 256 * LittleValue(bs[1..])
  }

  function BigValue(bs: seq<byte>): nat
  {
    if bs == [] then 0 else 256 * BigValue(bs[..|bs| - 1]) + bs[|bs| - 1]
  }

  /** `v` written in `width` bytes in the given order (struct.pack with native order). */
  function Encode(v: nat, width: nat, order: Order): (bs: seq<byte>)
    ensures |bs| == width
  {
    match order
    case LittleEndian => LittleBytes(v, width)
    case BigEndian => BigBytes(v, width)
  }

  /** The unsigned value of `bs` read in the given order. */
  function Decode(bs: seq<byte>, order: Order): nat
  {
    match order
    case LittleEndian => LittleValue(bs)
    case BigEndian => BigValue(bs)
  }

  lemma {:induction false} LittleRoundTrip(v: nat, width: nat)
    requires v < Pow256(width)
    ensures LittleValue(LittleBytes(v, width)) == v
  {
    if width > 0 {
      LittleRoundTrip(v / 256, width - 1);
      assert LittleBytes(v, width)[1..] == LittleBytes(v / 256, width - 1);
    }
  }

  lemma {:induction false} BigRoundTrip(v: nat, width: nat)
    requires v < Pow256(width)
    ensures BigValue(BigBytes(v, width)) == v
  {
    if width > 0 {
      BigRoundTrip(v / 256, width - 1);
      var bs := BigBytes(v, width);
      assert bs[..|bs| - 1] == BigBytes(v / 256, width - 1);
    }
  }

  lemma {:induction false} LittleBytesOfValue(bs: seq<byte>)
    ensures LittleValue(bs) < Pow256(|bs|)
    ensures LittleBytes(LittleValue(bs), |bs|) == bs
  {
    if bs != [] {
      LittleBytesOfValue(bs[1..]);
      var v := LittleValue(bs);
      assert v % 256 == bs[0] && v / 256 == LittleValue(bs[1..]);
    }
  }

  lemma {:induction false} BigBytesOfValue(bs: seq<byte>)
    ensures BigValue(bs) < Pow256(|bs|)
    ensures BigBytes(BigValue(bs), |bs|) == bs
  {
    if bs != [] {
      var init := bs[..|bs| - 1];
      BigBytesOfValue(init);
      var v := BigValue(bs);
      assert v % 256 == bs[|bs| - 1] && v / 256 == BigValue(init);
      assert bs == init + [bs[|bs| - 1]];
    }
  }

  /** Decoding what was encoded gives the value back, in either byte order. */
  lemma DecodeEncode(v: nat, width: nat, order: Order)
    requires v < Pow256(width)
    ensures Decode(Encode(v, width, order), order) == v
  {
    if order == LittleEndian { LittleRoundTrip(v, width); } else { BigRoundTrip(v, width); }
  }

  /** Encoding what was decoded gives the bytes back, and the value fits their width. */
  lemma EncodeDecode(bs: seq<byte>, order: Order)
    ensures Decode(bs, order) < Pow256(|bs|)
    ensures Encode(Decode(bs, order), |bs|, order) == bs
  {
    if order == LittleEndian { LittleBytesOfValue(bs); } else { BigBytesOfValue(bs); }
  }

  /** struct.pack('I', v): a 32-bit value in 4 native-order bytes. */
  function Pack32(v: u32, order: Order): (bs: seq<byte>)
    ensures |bs| == 4
    ensures Decode(bs, order) == v
  {
    assert Pow256(4) == 0x1_0000_0000;
    DecodeEncode(v, 4, order);
    Encode(v, 4, order)
  }

  /**
   * struct.unpack('I', buf)[0]: succeeds exactly when `buf` holds 4 bytes,
   * and then the value is the one whose encoding `buf` is.
   */
  function Unpack32(buf: seq<byte>, order: Order): (r: Result<u32>)
    ensures r.Ok? <==> |buf| == 4
    ensures r.Err? ==> r.error == StructError
    ensures r.Ok? ==> Pack32(r.value, order) == buf
  {
    if |buf| == 4 then
      EncodeDecode(buf, order);
      Ok(Decode(buf, order))
    else
      Err(StructError)
  }

  /** Packing a 32-bit value and unpacking it in the same order is the identity. */
  lemma Unpack32Pack32(v: u32, order: Order)
    ensures Unpack32(Pack32(v, order), order) == Ok(v)
  {
    DecodeEncode(v, 4, order);
  }

  /**
   * struct.unpack('BB', struct.pack('H', 0x0100))[0]: the first native byte
   * of 0x0100, which is 1 exactly on a big-endian host and 0 otherwise.
   */
  function BigEndianFlag(order: Order): (flag: byte)
    ensures flag == if order == BigEndian then 1 else 0
  {
    Encode(0x0100, 2, order)[0]
  }

  /** PIL's 4-byte raw modes for an RGB image; XRGB is not used by the source. */
  datatype RawMode = RGBX | BGRX | XRGB

  /** raw_mode = 'RGBX' if big_endian else 'BGRX' (grab.py, both for reading and for writing). */
  function RawModeFor(bigEndian: byte): (mode: RawMode)
    ensures mode != XRGB
    ensures mode == RGBX <==> bigEndian != 0
  {
    if bigEndian != 0 then RGBX else BGRX
  }

  datatype Rgb = Rgb(r: byte, g: byte, b: byte)

  /** One pixel in a raw mode; `pad` is the byte the codec writes in the X position. */
  function PackPixel(p: Rgb, mode: RawMode, pad: byte): (bs: seq<byte>)
    ensures |bs| == 4
  {
    match mode
    case RGBX => [p.r, p.g, p.b, pad]
    case BGRX => [p.b, p.g, p.r, pad]
    case XRGB => [pad, p.r, p.g, p.b]
  }

  /** The pixel a raw-mode 4-byte group stands for. */
  function UnpackPixel(bs: seq<byte>, mode: RawMode): Rgb
    requires |bs| == 4
  {
    match mode
    case RGBX => Rgb(bs[0], bs[1], bs[2])
    case BGRX => Rgb(bs[2], bs[1], bs[0])
    case XRGB => Rgb(bs[1], bs[2], bs[3])
  }

  /** image.tobytes('raw', mode): the pixels, row-major, four bytes each. */
  function PackPixels(ps: seq<Rgb>, mode: RawMode, pad: byte): (bs: seq<byte>)
    ensures |bs| == 4 * |ps|
  {
    seq(4 * |ps|, k requires 0 <= k < 4 * |ps| => PackPixel(ps[k / 4], mode, pad)[k % 4])
  }

  /** Where a raw mode keeps its unused byte. */
  function PadIndex(mode: RawMode): (k: nat)
    ensures k < 4
  {
    if mode == XRGB then 0 else 3
  }

  /**
   * Image.frombytes(..., 'raw', mode): every whole 4-byte group read back as a
   * pixel; packing that pixel with the group's own unused byte gives the group.
   */
  function UnpackPixels(bs: seq<byte>, mode: RawMode): (ps: seq<Rgb>)
    ensures |ps| == |bs| / 4
    ensures forall i | 0 <= i < |ps| :: PackPixel(ps[i], mode, bs[4 * i + PadIndex(mode)]) == bs[4 * i .. 4 * i + 4]
  {
    seq(|bs| / 4, i requires 0 <= i < |bs| / 4 => UnpackPixel(bs[4 * i .. 4 * i + 4], mode))
  }

  /** Pixel `i` occupies bytes 4*i .. 4*i+4 of the packed buffer. */
  lemma PackPixelsAt(ps: seq<Rgb>, mode: RawMode, pad: byte, i: nat)
    requires i < |ps|
    ensures PackPixels(ps, mode, pad)[4 * i .. 4 * i + 4] == PackPixel(ps[i], mode, pad)
  {
    var bs := PackPixels(ps, mode, pad);
    forall d | 0 <= d < 4 ensures bs[4 * i + d] == PackPixel(ps[i], mode, pad)[d] {
      assert (4 * i + d) / 4 == i && (4 * i + d) % 4 == d;
    }
  }

  /** Reading back with the raw mode used for writing recovers every pixel. */
  lemma UnpackPackPixels(ps: seq<Rgb>, mode: RawMode, pad: byte)
    ensures UnpackPixels(PackPixels(ps, mode, pad), mode) == ps
  {
    var bs := PackPixels(ps, mode, pad);
    forall i | 0 <= i < |ps| ensures UnpackPixels(bs, mode)[i] == ps[i] {
      PackPixelsAt(ps, mode, pad, i);
    }
  }

  /**
   * The 32-bit pixel value of a colour in a depth-24 TrueColor visual with the
   * usual masks (red 0xff0000, green 0xff00, blue 0xff).
   */
  function PixelValue(p: Rgb): u32
  {
    p.r * 0x10000 + p.g * 0x100 + p.b
  }

  /**
   * The depth-24 pixel a server reads from one 32-bit unit of ZPixmap data:
   * the unit read in the server's image byte order (MSBFirst or LSBFirst, from
   * the connection setup), of which the low 24 bits count; the unused byte is
   * ignored. The host's byte order plays no part.
   */
  function DepthPixel(bs: seq<byte>, imageOrder: Order): nat
    requires |bs| == 4
  {
    Decode(bs, imageOrder) % 0x100_0000
  }

  /** The value of four bytes in either order, written out. */
  lemma WordValue(bs: seq<byte>)
    requires |bs| == 4
    ensures Decode(bs, LittleEndian) == bs[0] as int + 0x100 * bs[1] as int + 0x1_0000 * bs[2] as int + 0x100_0000 * bs[3] as int
    ensures Decode(bs, BigEndian) == 0x100_0000 * bs[0] as int + 0x1_0000 * bs[1] as int + 0x100 * bs[2] as int + bs[3] as int
  {
    assert LittleValue(bs[3..]) == bs[3] by { assert bs[3..][1..] == []; }
    assert LittleValue(bs[2..]) == bs[2] + 256 * bs[3] as int by { assert bs[2..][1..] == bs[3..]; }
    assert LittleValue(bs[1..]) == bs[1] + 256 * LittleValue(bs[2..]) by { assert bs[1..][1..] == bs[2..]; }
    assert BigValue(bs[..1]) == bs[0] by { assert bs[..1][..0] == []; }
    assert BigValue(bs[..2]) == 256 * BigValue(bs[..1]) + bs[1] by { assert bs[..2][..1] == bs[..1]; }
    assert BigValue(bs[..3]) == 256 * BigValue(bs[..2]) + bs[2] by { assert bs[..3][..2] == bs[..2]; }
    assert bs[..4] == bs;
  }

  /** A 24-bit value with any high byte above it reads as that value. */
  lemma LowBits(x: nat, high: byte)
    requires x < 0x100_0000
    ensures (0x100_0000 * high as int + x) % 0x100_0000 == x
  {
  }

  /** A little-endian host sending to an LSBFirst server: the source's BGRX bytes carry the pixel value, whatever the unused byte. */
  lemma RawModeMatchesOnLittleEndian(p: Rgb, pad: byte)
    ensures DepthPixel(PackPixel(p, RawModeFor(BigEndianFlag(LittleEndian)), pad), LittleEndian) == PixelValue(p)
  {
    WordValue(PackPixel(p, BGRX, pad));
    LowBits(PixelValue(p), pad);
  }

  /**
   * On a big-endian host the source's RGBX bytes do not carry the pixel value
   * on any server: pure red is read as the value `pad` by an MSBFirst server
   * and as blue, 0xff, by an LSBFirst one, never as 0xff0000.
   */
  lemma RawModeWrongOnBigEndian(pad: byte, imageOrder: Order)
    ensures DepthPixel(PackPixel(Rgb(0xff, 0, 0), RawModeFor(BigEndianFlag(BigEndian)), pad), imageOrder)
         != PixelValue(Rgb(0xff, 0, 0))
  {
    WordValue(PackPixel(Rgb(0xff, 0, 0), RGBX, pad));
    if imageOrder == BigEndian { LowBits(pad, 0xff); } else { LowBits(0xff, pad); }
  }

  /**
   * The source's choice, which follows the host's byte order, is right for
   * pure red exactly when both the host and the server's image byte order are
   * little-endian: matching orders are not enough.
   */
  lemma SourceRawModeRightOnlyLsbFirst(host: Order, imageOrder: Order, pad: byte)
    ensures DepthPixel(PackPixel(Rgb(0xff, 0, 0), RawModeFor(BigEndianFlag(host)), pad), imageOrder)
         == PixelValue(Rgb(0xff, 0, 0))
       <==> host == LittleEndian && imageOrder == LittleEndian
  {
    var red := Rgb(0xff, 0, 0);
    if host == BigEndian {
      RawModeWrongOnBigEndian(pad, imageOrder);
    } else if imageOrder == LittleEndian {
      RawModeMatchesOnLittleEndian(red, pad);
    } else {
      WordValue(PackPixel(red, BGRX, pad));
      LowBits(0xff00 + pad, 0);
    }
  }

  /** The raw mode whose bytes carry the pixel value for a server of the given image byte order (as python-xlib's put_pil_image chooses). */
  function IntendedRawMode(imageOrder: Order): RawMode
  {
    if imageOrder == BigEndian then XRGB else BGRX
  }

  /** With the intended raw mode the server reads the pixel value, for either image byte order and whatever the unused byte. */
  lemma IntendedRawModeMatches(p: Rgb, imageOrder: Order, pad: byte)
    ensures DepthPixel(PackPixel(p, IntendedRawMode(imageOrder), pad), imageOrder) == PixelValue(p)
  {
    WordValue(PackPixel(p, IntendedRawMode(imageOrder), pad));
    LowBits(PixelValue(p), pad);
  }

  /** With a zero unused byte the intended raw mode writes exactly the server-order encoding of the pixel value. */
  lemma IntendedRawModeBytes(p: Rgb, imageOrder: Order)
    ensures PackPixel(p, IntendedRawMode(imageOrder), 0) == Pack32(PixelValue(p), imageOrder)
  {
    PixelValueBytes(p);
  }

  /** The four bytes of a pixel value in either order. */
  lemma PixelValueBytes(p: Rgb)
    ensures Pack32(PixelValue(p), LittleEndian) == [p.b, p.g, p.r, 0]
    ensures Pack32(PixelValue(p), BigEndian) == [0, p.r, p.g, p.b]
  {
    var v := PixelValue(p);
    assert v % 256 == p.b && v / 256 == p.r * 0x100 + p.g;
    assert (v / 256) % 256 == p.g && v / 256 / 256 == p.r;
    assert LittleBytes(v / 256 / 256 / 256, 1) == [0];
    assert LittleBytes(v / 256 / 256, 2) == [p.r, 0];
    assert LittleBytes(v / 256, 3) == [p.g, p.r, 0];
    assert BigBytes(v / 256 / 256 / 256, 1) == [0];
    assert BigBytes(v / 256 / 256, 2) == [0, p.r];
    assert BigBytes(v / 256, 3) == [0, p.r, p.g];
  }
}
