/** The bitmap reader: the three little-endian header fields, the tile-size
    checks, and the pixel bytes from the pixel-array offset to the end of
    the file. */
module Bmp {

  import opened Types
  import opened Palette

  function Pow256(n: nat): (r: nat)
    ensures r >= 1
  {
    if n == 0 then 1 else 256 * Pow256(n - 1)
  }

  /** The ranges of two- and four-byte fields. */
  lemma Pow256Values()
    ensures Pow256(2) == 0x1_0000 && Pow256(4) == 0x1_0000_0000
  {
    assert Pow256(1) == 0x100;
    assert Pow256(2) == 0x1_0000;
    assert Pow256(3) == 0x100_0000;
  }

  /** `int.from_bytes(bs, "little")`: unsigned, least significant byte first. */
  function LittleEndian(bs: seq<Byte>): (r: nat)
    ensures r < Pow256(|bs|)
  {
    if |bs| == 0 then 0 else bs[0] + 256 * LittleEndian(bs[1..])
  }

  /** `x.to_bytes(n, "little")`, defined for the values that fit in `n` bytes. */
  function ToLittleEndian(x: nat, n: nat): (bs: seq<Byte>)
    requires x < Pow256(n)
    ensures |bs| == n
  {
    if n == 0 then [] else [x % 256] + ToLittleEndian(x / 256, n - 1)
  }

  /** Decoding undoes encoding. */
  lemma {:induction false} LittleEndianRoundTrip(x: nat, n: nat)
    requires x < Pow256(n)
    ensures LittleEndian(ToLittleEndian(x, n)) == x
  {
    if n > 0 {
      LittleEndianRoundTrip(x / 256, n - 1);
      assert ToLittleEndian(x, n)[1..] == ToLittleEndian(x / 256, n - 1);
    }
  }

  /** Encoding undoes decoding. */
  lemma {:induction false} ToLittleEndianRoundTrip(bs: seq<Byte>)
    ensures ToLittleEndian(LittleEndian(bs), |bs|) == bs
  {
    if |bs| > 0 {
      ToLittleEndianRoundTrip(bs[1..]);
      var x := LittleEndian(bs);
      assert x % 256 == bs[0] && x / 256 == LittleEndian(bs[1..]);
    }
  }

  /** `seek(off)` then `read(n)`: as many of the `n` bytes as the file holds. */
  function ReadAt(file: seq<Byte>, off: nat, n: nat): (bs: seq<Byte>)
    ensures |bs| <= n
    ensures off + n <= |file| ==> bs == file[off..off + n]
    ensures off >= |file| ==> bs == []
  {
    file[Min(off, |file|)..Min(off + n, |file|)]
  }

  datatype Header = Header(start: nat, width: nat, height: nat)

  /** The pixel-array offset at byte 10, the width at byte 18 and the height
      at byte 22, each four bytes little-endian and read as unsigned. */
  function ReadHeader(file: seq<Byte>): (h: Header)
    ensures h.start < 0x1_0000_0000 && h.width < 0x1_0000_0000 && h.height < 0x1_0000_0000
    ensures |file| >= 26 ==>
      && h.start == LittleEndian(file[10..14])
      && h.width == LittleEndian(file[18..22])
      && h.height == LittleEndian(file[22..26])
  {
    Pow256Values();
    Header(LittleEndian(ReadAt(file, 10, 4)), LittleEndian(ReadAt(file, 18, 4)),
           LittleEndian(ReadAt(file, 22, 4)))
  }

  /** The 26 header bytes of a file with the given fields, other bytes 0. */
  function EncodeHeader(h: Header): (bs: seq<Byte>)
    requires h.start < 0x1_0000_0000 && h.width < 0x1_0000_0000 && h.height < 0x1_0000_0000
    ensures |bs| == 26
  {
    Pow256Values();
    seq(10, _ => 0) + ToLittleEndian(h.start, 4) + seq(4, _ => 0)
      + ToLittleEndian(h.width, 4) + ToLittleEndian(h.height, 4)
  }

  /** The reader recovers the fields of any encoded header, whatever follows it. */
  lemma HeaderRoundTrip(h: Header, rest: seq<Byte>)
    requires h.start < 0x1_0000_0000 && h.width < 0x1_0000_0000 && h.height < 0x1_0000_0000
    ensures ReadHeader(EncodeHeader(h) + rest) == h
  {
    Pow256Values();
    var file := EncodeHeader(h) + rest;
    assert file[10..14] == ToLittleEndian(h.start, 4);
    assert file[18..22] == ToLittleEndian(h.width, 4);
    assert file[22..26] == ToLittleEndian(h.height, 4);
    LittleEndianRoundTrip(h.start, 4);
    LittleEndianRoundTrip(h.width, 4);
    LittleEndianRoundTrip(h.height, 4);
  }

  /** The tile-size checks: screen 0 needs 6x8, screens 1 and 2 need 8x8,
      every other mode accepts any size. */
  predicate DimensionsAccepted(mode: Mode, width: nat, height: nat)
  {
    && !(mode == Screen0 && (width != 6 || height != 8))
    && !(mode == Screen1 && (width != height || width != 8))
    && !(mode == Screen2 && (width != height || width != 8))
  }

  datatype Bitmap = Bitmap(width: nat, height: nat, data: seq<Byte>)

  /** The reader: header fields, size check, then every byte from the
      pixel-array offset to the end of the file. */
  function ReadBmp(file: seq<Byte>, mode: Mode): (r: Result<Bitmap>)
    ensures r.Err? ==> r.error == InvalidDimensions
    ensures r.Ok? ==> r.value.width == ReadHeader(file).width && r.value.height == ReadHeader(file).height
    ensures r.Ok? <==>
      && (mode == Screen0 ==> ReadHeader(file).width == 6 && ReadHeader(file).height == 8)
      && (mode in {Screen1, Screen2} ==> ReadHeader(file).width == 8 && ReadHeader(file).height == 8)
    ensures r.Ok? && ReadHeader(file).start <= |file| ==> file == file[..ReadHeader(file).start] + r.value.data
    ensures r.Ok? && ReadHeader(file).start >= |file| ==> r.value.data == []
  {
    var h := ReadHeader(file);
    if !DimensionsAccepted(mode, h.width, h.height) then Err(InvalidDimensions)
    else Ok(Bitmap(h.width, h.height, file[Min(h.start, |file|)..]))
  }
}
