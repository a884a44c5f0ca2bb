/** The tile writers: one pattern byte per pixel line for screens 0 and 1,
    a pattern byte and a colour byte per line for screens 2 and 4, and
    sampled colour nibbles for screen 3. */
module Tiles {

  import opened Types
  import opened Bits

  // ---------------------------------------------------------------- screen 0

  /** One 6-pixel line: each pixel is or-ed in and shifted left once, and a
      final extra shift leaves the six pixels in bits 7..2. */
  function Screen0Line(line: seq<Index>): nat
  {
    PackBits(line) * 4
  }

  /** The eight pattern bytes of a 6x8 screen 0 tile, line `i` taken from
      pixels `6 * i .. 6 * i + 5`. */
  function Screen0(data: seq<Index>): (rows: seq<nat>)
    requires |data| >= 48
    ensures |rows| == 8
    ensures forall i | 0 <= i < 8 :: rows[i] % 4 == 0
  {
    seq(8, i requires 0 <= i < 8 => Screen0Line(data[6 * i..6 * i + 6]))
  }

  /** A line of six 0/1 pixels shifted left twice is the byte of those
      pixels followed by two 0 bits. */
  lemma ShiftedLine(line: seq<nat>)
    requires |line| == 6 && IsBits(line)
    ensures PackBits(line) * 4 < 256
    ensures UnpackBits(PackBits(line) * 4, 8) == line + [0, 0]
  {
    var padded := line + [0, 0];
    assert padded == (line + [0]) + [0];
    PackBitsSnoc(line, 0);
    PackBitsSnoc(line + [0], 0);
    PackBitsRoundTrip(padded);
    Pow2Values();
  }

  /** With 0/1 pixels every line is a byte whose bits 7..2 are the line's
      pixels from left to right and whose two low bits are 0. */
  lemma Screen0Bits(data: seq<Index>)
    requires |data| >= 48 && forall k | 0 <= k < 48 :: data[k] <= 1
    ensures forall i | 0 <= i < 8 :: Screen0(data)[i] < 256
    ensures forall i | 0 <= i < 8 :: UnpackBits(Screen0(data)[i], 8) == data[6 * i..6 * i + 6] + [0, 0]
  {
    forall i | 0 <= i < 8
      ensures Screen0(data)[i] < 256
      ensures UnpackBits(Screen0(data)[i], 8) == data[6 * i..6 * i + 6] + [0, 0]
    {
      var line: seq<nat> := data[6 * i..6 * i + 6];
      ShiftedLine(line);
    }
  }

  /** An all-ones screen 0 tile gives 0xFC on every line. */
  lemma Screen0AllOnes(data: seq<Index>)
    requires |data| >= 48 && forall k | 0 <= k < 48 :: data[k] == 1
    ensures Screen0(data) == [0xFC, 0xFC, 0xFC, 0xFC, 0xFC, 0xFC, 0xFC, 0xFC]
  {
    PackBitsOnes(6);
    forall i | 0 <= i < 8
      ensures Screen0(data)[i] == 0xFC
    {
      assert data[6 * i..6 * i + 6] == seq(6, _ => 1);
    }
  }

  // ---------------------------------------------------------------- screen 1

  /** The eight pattern bytes of an 8x8 screen 1 tile, line `i` taken from
      pixels `8 * i .. 8 * i + 7`, shifted left before every pixel but the
      first: a line of 0/1 pixels is a byte whose bits, from the top, are
      the line's pixels. */
  function Screen1(data: seq<Index>): (rows: seq<nat>)
    requires |data| >= 64
    ensures |rows| == 8
    ensures forall i | 0 <= i < 8 && IsBits(data[8 * i..8 * i + 8]) ::
      rows[i] < 256 && UnpackBits(rows[i], 8) == data[8 * i..8 * i + 8]
  {
    var rows := seq(8, i requires 0 <= i < 8 => PackBits(data[8 * i..8 * i + 8]));
    LinesUnpack(data, rows);
    rows
  }

  lemma LinesUnpack(data: seq<Index>, rows: seq<nat>)
    requires |data| >= 64 && |rows| == 8
    requires forall i | 0 <= i < 8 :: rows[i] == PackBits(data[8 * i..8 * i + 8])
    ensures forall i | 0 <= i < 8 && IsBits(data[8 * i..8 * i + 8]) ::
      rows[i] < 256 && UnpackBits(rows[i], 8) == data[8 * i..8 * i + 8]
  {
    forall i | 0 <= i < 8 && IsBits(data[8 * i..8 * i + 8])
      ensures rows[i] < 256 && UnpackBits(rows[i], 8) == data[8 * i..8 * i + 8]
    {
      PackBitsRoundTrip(data[8 * i..8 * i + 8]);
      Pow2Values();
    }
  }

  /** With 0/1 pixels every line is a byte whose bit `7 - j` is pixel `j`. */
  lemma Screen1Bits(data: seq<Index>)
    requires |data| >= 64 && forall k | 0 <= k < 64 :: data[k] <= 1
    ensures forall i | 0 <= i < 8 :: Screen1(data)[i] < 256
    ensures forall i | 0 <= i < 8 :: UnpackBits(Screen1(data)[i], 8) == data[8 * i..8 * i + 8]
  {
    forall i | 0 <= i < 8
      ensures Screen1(data)[i] < 256
      ensures UnpackBits(Screen1(data)[i], 8) == data[8 * i..8 * i + 8]
    {
      var line: seq<nat> := data[8 * i..8 * i + 8];
      PackBitsRoundTrip(line);
    }
  }

  // ------------------------------------------------------- screens 2 and 4

  /** A line holds three pairwise different colours. */
  ghost predicate ThreeColors(line: seq<Index>)
  {
    exists x, y, z | x in line && y in line && z in line :: x != y && y != z && x != z
  }

  /** The colours of a line in first-seen order and the line's pattern bits. */
  datatype LineScan = LineScan(colors: seq<Index>, mask: seq<nat>)

  /** What a successful scan of `line` knows: its colours are the line's
      distinct colours, the first pixel's first, and a pixel's bit is set
      exactly when there are two colours and the pixel has the second. */
  ghost predicate ScanOf(line: seq<Index>, s: LineScan)
  {
    && (|line| == 0 ==> s.colors == [])
    && (|line| > 0 ==> 1 <= |s.colors| <= 2 && s.colors[0] == line[0])
    && (|s.colors| == 2 ==> s.colors[0] != s.colors[1])
    && (forall j | 0 <= j < |line| :: line[j] in s.colors)
    && (forall c | c in s.colors :: c in line)
    && |s.mask| == |line|
    && forall j | 0 <= j < |line| ::
         s.mask[j] == (if |s.colors| == 2 && line[j] == s.colors[1] then 1 else 0)
  }

  /** One pixel of the screen 2/4 line loop, for a pixel that does not bring
      in a third colour: a colour not yet seen is appended, and the pixel's
      bit is set when it has the second colour. */
  function Extend(s: LineScan, x: Index): LineScan
  {
    var colors := if x in s.colors then s.colors else s.colors + [x];
    LineScan(colors, s.mask + [if |colors| == 2 && x == colors[1] then 1 else 0])
  }

  lemma ExtendKeepsScan(init: seq<Index>, x: Index, s: LineScan)
    requires ScanOf(init, s) && (x in s.colors || |s.colors| < 2)
    ensures ScanOf(init + [x], Extend(s, x))
  {
    var line := init + [x];
    var e := Extend(s, x);
    assert forall j | 0 <= j < |init| :: line[j] == init[j];
    assert forall c | c in e.colors :: c in line by {
      forall c | c in e.colors ensures c in line {
        if c != x {
          assert c in init;
          var j :| 0 <= j < |init| && init[j] == c;
          assert line[j] == c;
        }
      }
    }
    if |s.colors| == 1 && x != s.colors[0] {
      assert forall j | 0 <= j < |init| :: init[j] == s.colors[0];
    }
  }

  /** The per-pixel loop of the screen 2/4 writer: the pixel that would be a
      third colour of the line fails the tile. */
  function ScanLine(line: seq<Index>): (r: Result<LineScan>)
    ensures r.Err? ==> r.error == TooManyColorsPerLine
    ensures r.Ok? ==> ScanOf(line, r.value)
  {
    if |line| == 0 then Ok(LineScan([], []))
    else
      var init := line[..|line| - 1];
      var x := line[|line| - 1];
      match ScanLine(init)
      case Err(e) => Err(e)
      case Ok(s) =>
        if x !in s.colors && |s.colors| == 2 then Err(TooManyColorsPerLine)
        else
          assert line == init + [x];
          ExtendKeepsScan(init, x, s);
          Ok(Extend(s, x))
  }

  /** A line all of whose pixels take one of at most two colours has no three
      different colours. */
  lemma CoveredByTwo(line: seq<Index>, colors: seq<Index>)
    requires |colors| <= 2 && forall j | 0 <= j < |line| :: line[j] in colors
    ensures !ThreeColors(line)
  {
    assert forall v | v in line :: v in colors;
    assert forall v | v in colors :: v == colors[0] || v == colors[|colors| - 1];
  }

  /** A line keeps the three colours of its prefix. */
  lemma ThreeColorsGrow(init: seq<Index>, x: Index, line: seq<Index>)
    requires line == init + [x] && ThreeColors(init)
    ensures ThreeColors(line)
  {
    var a, b, c :| a in init && b in init && c in init && a != b && b != c && a != c;
    assert a in line && b in line && c in line;
  }

  /** A pixel with neither of the two colours seen so far is a third colour. */
  lemma ThirdColor(init: seq<Index>, x: Index, s: LineScan, line: seq<Index>)
    requires line == init + [x] && ScanOf(init, s) && |s.colors| == 2 && x !in s.colors
    ensures ThreeColors(line)
  {
    assert s.colors[0] in init && s.colors[1] in init;
    assert s.colors[0] in line && s.colors[1] in line && x in line;
  }

  /** A pixel with a colour seen so far, or with the second colour, keeps
      the line at two colours. */
  lemma ExtendCovered(init: seq<Index>, x: Index, s: LineScan, line: seq<Index>)
    requires line == init + [x] && ScanOf(init, s) && (x in s.colors || |s.colors| < 2)
    ensures !ThreeColors(line)
  {
    ExtendKeepsScan(init, x, s);
    CoveredByTwo(line, Extend(s, x).colors);
  }

  /** The scan of a line succeeds exactly when the line has at most two colours. */
  lemma {:induction false} ScanLineFails(line: seq<Index>)
    ensures ScanLine(line).Ok? <==> !ThreeColors(line)
  {
    if |line| == 0 {
      assert forall v :: v !in line;
    } else {
      var init := line[..|line| - 1];
      var x := line[|line| - 1];
      assert line == init + [x];
      ScanLineFails(init);
      match ScanLine(init)
      case Err(_) =>
        ThreeColorsGrow(init, x, line);
      case Ok(s) =>
        if x !in s.colors && |s.colors| == 2 {
          ThirdColor(init, x, s, line);
        } else {
          ExtendCovered(init, x, s, line);
        }
    }
  }

  /** The two bytes the screen 2/4 writer emits for one line. */
  datatype LinePair = LinePair(pattern: nat, colors: nat)

  /** The two bytes of one screen 2/4 line: the pattern, and the colours as
      `(second << 4) | first`, the second colour 0 for a one-colour line. */
  function LineBytes(line: seq<Index>): (r: Result<LinePair>)
    requires |line| > 0
    ensures r.Ok? <==> !ThreeColors(line)
    ensures r.Err? ==> r.error == TooManyColorsPerLine
  {
    ScanLineFails(line);
    match ScanLine(line)
    case Err(e) => Err(e)
    case Ok(s) =>
      var colors := if |s.colors| == 1 then s.colors + [0] else s.colors;
      Ok(LinePair(PackBits(s.mask), JoinNibbles(colors[1], colors[0])))
  }

  /** Reads a line back: a set bit gives the high-nibble colour, a clear bit
      the low-nibble colour. */
  function DecodeLine(pattern: nat, colors: nat): (line: seq<nat>)
    ensures |line| == 8
  {
    var bits := UnpackBits(pattern, 8);
    seq(8, j requires 0 <= j < 8 => if bits[j] == 1 then HighNibble(colors) else LowNibble(colors))
  }

  /** A pixel is the second colour when its bit is set and the first otherwise. */
  lemma PixelFromBit(line: seq<Index>, s: LineScan, j: nat)
    requires ScanOf(line, s) && j < |line|
    ensures line[j] == (if s.mask[j] == 1 then s.colors[1] else s.colors[0])
  {
    assert line[j] in s.colors;
    if |s.colors| == 2 {
      assert s.colors == [s.colors[0], s.colors[1]];
    } else {
      assert s.colors == [s.colors[0]];
    }
  }

  /** Decoding a packed 8-bit mask with two nibble colours picks, pixel by
      pixel, the high colour for a set bit and the low colour otherwise. */
  lemma DecodeMask(mask: seq<nat>, hi: Index, lo: Index)
    requires |mask| == 8 && IsBits(mask)
    ensures PackBits(mask) < 256
    ensures forall j | 0 <= j < 8 ::
      DecodeLine(PackBits(mask), JoinNibbles(hi, lo))[j] == (if mask[j] == 1 then hi else lo)
  {
    PackBitsRoundTrip(mask);
    Pow2Values();
  }

  /** The bytes built from a successful scan decode back to the scanned line. */
  lemma ScanDecodes(line: seq<Index>, s: LineScan)
    requires |line| == 8 && ScanOf(line, s)
    ensures var colors := if |s.colors| == 1 then s.colors + [0] else s.colors;
      && PackBits(s.mask) < 256
      && DecodeLine(PackBits(s.mask), JoinNibbles(colors[1], colors[0])) == line
  {
    var colors := if |s.colors| == 1 then s.colors + [0] else s.colors;
    assert IsBits(s.mask);
    DecodeMask(s.mask, colors[1], colors[0]);
    var d := DecodeLine(PackBits(s.mask), JoinNibbles(colors[1], colors[0]));
    forall j | 0 <= j < 8
      ensures d[j] == line[j]
    {
      PixelFromBit(line, s, j);
    }
  }

  /** A line's pattern bits are all clear exactly when it has one colour. */
  lemma OneColorScan(line: seq<Index>, s: LineScan)
    requires |line| > 0 && ScanOf(line, s) && forall k | 0 <= k < |line| :: line[k] == line[0]
    ensures s.colors == [line[0]]
    ensures forall k | 0 <= k < |s.mask| :: s.mask[k] == 0
  {
    var last := s.colors[|s.colors| - 1];
    assert last in s.colors;
    assert last in line;
  }

  /** Every 8-pixel line with at most two colours is written as two bytes
      that decode back to the line, the first pixel's colour in the low
      nibble; a one-colour line is pattern 0 and colour byte `line[0]`, the
      second colour being 0. */
  lemma LineRoundTrip(line: seq<Index>)
    requires |line| == 8 && !ThreeColors(line)
    ensures LineBytes(line).Ok?
    ensures LineBytes(line).value.pattern < 256 && LineBytes(line).value.colors < 256
    ensures LowNibble(LineBytes(line).value.colors) == line[0]
    ensures DecodeLine(LineBytes(line).value.pattern, LineBytes(line).value.colors) == line
    ensures (forall k | 0 <= k < 8 :: line[k] == line[0]) ==> LineBytes(line).value == LinePair(0, line[0])
  {
    ScanLineFails(line);
    var s := ScanLine(line).value;
    ScanDecodes(line, s);
    if forall k | 0 <= k < 8 :: line[k] == line[0] {
      OneColorScan(line, s);
      PackBitsZeros(s.mask);
    }
  }

  /** The pattern and colour bytes of a screen 2/4 tile. */
  datatype TileLines = TileLines(patterns: seq<nat>, colors: seq<nat>)

  /** Line `i` of an 8x8 tile. */
  function TileLine(data: seq<Index>, i: nat): seq<Index>
    requires 8 * i + 8 <= |data|
  {
    data[8 * i..8 * i + 8]
  }

  /** The first `n` lines of the tile have at most two colours each and
      are written as their `LineBytes`. */
  ghost predicate WrittenLines(data: seq<Index>, patterns: seq<nat>, colors: seq<nat>, n: nat)
    requires 8 * n <= |data|
  {
    && n <= 8 && |patterns| == n && |colors| == n
    && forall k | 0 <= k < n :: LineWritten(TileLine(data, k), patterns[k], colors[k])
  }

  /** A line of at most two colours written as its `LineBytes`, which
      decode back to it. */
  ghost predicate LineWritten(line: seq<Index>, pattern: nat, colors: nat)
  {
    && |line| > 0
    && !ThreeColors(line)
    && LineBytes(line) == Ok(LinePair(pattern, colors))
    && pattern < 256 && colors < 256
    && DecodeLine(pattern, colors) == line
  }

  /** The bytes of one more two-colour line extend the written lines. */
  lemma WrittenLinesSnoc(data: seq<Index>, patterns: seq<nat>, colors: seq<nat>, n: nat, b: LinePair)
    requires 8 * n + 8 <= |data| && n < 8 && WrittenLines(data, patterns, colors, n)
    requires LineWritten(TileLine(data, n), b.pattern, b.colors)
    ensures WrittenLines(data, patterns + [b.pattern], colors + [b.colors], n + 1)
  {
    var p2 := patterns + [b.pattern];
    var c2 := colors + [b.colors];
    assert forall k | 0 <= k < n :: p2[k] == patterns[k] && c2[k] == colors[k];
    assert p2[n] == b.pattern && c2[n] == b.colors;
  }

  /** The pixels of line `i` of the tile that the pixel data holds: all
      eight, or the ones before the data ends. */
  function PartLine(data: seq<Index>, i: nat): (line: seq<Index>)
    requires 8 * i < |data|
    ensures 0 < |line| <= 8
    ensures 8 * i + 8 <= |data| ==> line == TileLine(data, i)
  {
    data[8 * i..Min(8 * i + 8, |data|)]
  }

  /** Some line from `i` on holds three colours among the pixels the data
      holds, so the writer stops with its own error before it reads past the
      end of a short tile. */
  ghost predicate ThirdColorBeforeEnd(data: seq<Index>, i: nat)
  {
    exists j | i <= j < 8 && 8 * j < |data| :: ThreeColors(PartLine(data, j))
  }

  /** The screen 2 and screen 4 writer: the eight lines of an 8x8 tile in
      order, each at most two colours; the first line with a third colour
      stops the writer, and otherwise every line is written as its
      `LineBytes` and decodes back from them. A tile of fewer than 64 pixels
      is accepted when a line's third colour comes before the data ends, and
      then fails like any other. */
  method Screens24(data: seq<Index>) returns (r: Result<TileLines>)
    requires |data| >= 64 || ThirdColorBeforeEnd(data, 0)
    ensures r.Ok? <==> |data| >= 64 && forall i | 0 <= i < 8 :: !ThreeColors(TileLine(data, i))
    ensures r.Err? ==> r.error == TooManyColorsPerLine
    ensures r.Ok? ==> |r.value.patterns| == 8 && |r.value.colors| == 8
    ensures r.Ok? ==> forall i | 0 <= i < 8 ::
      LineBytes(TileLine(data, i)) == Ok(LinePair(r.value.patterns[i], r.value.colors[i]))
    ensures r.Ok? ==> forall i | 0 <= i < 8 ::
      && r.value.patterns[i] < 256 && r.value.colors[i] < 256
      && DecodeLine(r.value.patterns[i], r.value.colors[i]) == TileLine(data, i)
  {
    var patterns: seq<nat> := [];
    var colors: seq<nat> := [];
    for i := 0 to 8
      invariant 8 * i <= |data|
      invariant WrittenLines(data, patterns, colors, i)
      invariant |data| >= 64 || ThirdColorBeforeEnd(data, i)
    {
      assert 8 * i < |data|;
      var line := PartLine(data, i);
      var bytes := LineBytes(line);
      if bytes.Err? {
        ShortTileFails(data, i);
        return Err(bytes.error);
      }
      NextLineWhole(data, i);
      LineRoundTrip(line);
      WrittenLinesSnoc(data, patterns, colors, i, bytes.value);
      patterns := patterns + [bytes.value.pattern];
      colors := colors + [bytes.value.colors];
    }
    return Ok(TileLines(patterns, colors));
  }

  /** A line with a third colour fails a tile that is not long enough as well. */
  lemma ShortTileFails(data: seq<Index>, i: nat)
    requires i < 8 && 8 * i < |data| && ThreeColors(PartLine(data, i))
    ensures !(|data| >= 64 && forall k | 0 <= k < 8 :: !ThreeColors(TileLine(data, k)))
  {
    if |data| >= 64 {
      assert PartLine(data, i) == TileLine(data, i);
    }
  }

  /** A line without a third colour among its pixels in the data is a whole
      line, and a short tile then still has its third colour further on. */
  lemma NextLineWhole(data: seq<Index>, i: nat)
    requires i < 8 && 8 * i < |data| && !ThreeColors(PartLine(data, i))
    requires |data| >= 64 || ThirdColorBeforeEnd(data, i)
    ensures 8 * i + 8 <= |data| && PartLine(data, i) == TileLine(data, i)
    ensures |data| >= 64 || ThirdColorBeforeEnd(data, i + 1)
  {
    if |data| < 64 {
      var j :| i <= j < 8 && 8 * j < |data| && ThreeColors(PartLine(data, j));
      assert j != i;
    }
  }

  /** A line's scan stops at the pixel that brings in a third colour and not
      earlier: the line's first two colours have been seen and this pixel has
      neither. */
  lemma ScanStopsAtThirdColor(line: seq<Index>, k: nat)
    requires k < |line| && !ThreeColors(line[..k]) && ThreeColors(line[..k + 1])
    ensures ScanLine(line[..k]).Ok? && ScanLine(line[..k + 1]).Err?
    ensures |ScanLine(line[..k]).value.colors| == 2 && line[k] !in ScanLine(line[..k]).value.colors
  {
    ScanLineFails(line[..k]);
    ScanLineFails(line[..k + 1]);
    var p := line[..k + 1];
    assert p[..k] == line[..k] && p[k] == line[k];
  }

  // ---------------------------------------------------------------- screen 3

  /** The pixel the screen 3 writer samples first in block (`i`, `j`): the
      block's top-left corner. */
  function BlockBase(w: nat, i: nat, j: nat): nat
  {
    8 * j + 8 * i * w
  }

  lemma BlockInRange(w: nat, h: nat, i: nat, j: nat)
    requires i < h / 8 && j < w / 8
    ensures BlockBase(w, i, j) + 4 * w + 4 < w * h
  {
    assert 8 * i + 8 <= h && 8 * j + 8 <= w;
    MulLe(8 * i, h - 8, w);
    assert 8 * i * w <= (h - 8) * w;
  }

  /** Byte `half` of block (`i`, `j`): top samples at offsets 0 and 4 of the
      block's first pixel line, bottom samples at the same columns four lines
      below, the left sample in the high nibble. */
  function BlockByte(data: seq<Index>, w: nat, h: nat, i: nat, j: nat, half: nat): (b: nat)
    requires |data| == w * h && i < h / 8 && j < w / 8 && half < 2
    ensures BlockBase(w, i, j) + 4 * w + 4 < |data|
    ensures b < 256
    ensures HighNibble(b) == data[BlockBase(w, i, j) + half * 4 * w]
    ensures LowNibble(b) == data[BlockBase(w, i, j) + half * 4 * w + 4]
  {
    BlockInRange(w, h, i, j);
    var base := BlockBase(w, i, j) + half * 4 * w;
    JoinNibbles(data[base], data[base + 4])
  }

  /** One output line of screen 3: the top and bottom bytes of every block in
      row of blocks `i`, left to right. */
  function Screen3Line(data: seq<Index>, w: nat, h: nat, i: nat): (line: seq<nat>)
    requires |data| == w * h && i < h / 8
    ensures |line| == 2 * (w / 8)
    ensures forall j | 0 <= j < w / 8 ::
      line[2 * j] == BlockByte(data, w, h, i, j, 0) && line[2 * j + 1] == BlockByte(data, w, h, i, j, 1)
  {
    var line := seq(2 * (w / 8), m requires 0 <= m < 2 * (w / 8) => BlockByte(data, w, h, i, m / 2, m % 2));
    assert forall j | 0 <= j < w / 8 :: (2 * j) / 2 == j && (2 * j) % 2 == 0 && (2 * j + 1) / 2 == j && (2 * j + 1) % 2 == 1;
    line
  }

  /** `top` and `bottom` are the bytes of the block whose first pixel is
      `b`: its samples at (0, 0) and (0, 4), then at (4, 0) and (4, 4), row
      before column, each pair as two nibbles with the left sample high. */
  ghost predicate BlockSamples(data: seq<Index>, w: nat, b: nat, top: nat, bottom: nat)
  {
    && b + 4 * w + 4 < |data|
    && top < 256 && bottom < 256
    && HighNibble(top) == data[b] && LowNibble(top) == data[b + 4]
    && HighNibble(bottom) == data[b + 4 * w] && LowNibble(bottom) == data[b + 4 * w + 4]
  }

  /** The screen 3 writer: one output line per row of 8x8 blocks, holding
      for every block of the row, left to right, a top and a bottom byte of
      four sampled colours. */
  function Screen3(data: seq<Index>, w: nat, h: nat): (lines: seq<seq<nat>>)
    requires |data| == w * h
    ensures |lines| == h / 8
    ensures forall i | 0 <= i < h / 8 :: |lines[i]| == 2 * (w / 8)
    ensures forall i, j | 0 <= i < h / 8 && 0 <= j < w / 8 ::
      BlockSamples(data, w, BlockBase(w, i, j), lines[i][2 * j], lines[i][2 * j + 1])
  {
    var lines := seq(h / 8, i requires 0 <= i < h / 8 => Screen3Line(data, w, h, i));
    LinesSample(data, w, h, lines);
    lines
  }

  lemma LinesSample(data: seq<Index>, w: nat, h: nat, lines: seq<seq<nat>>)
    requires |data| == w * h && |lines| == h / 8
    requires forall i | 0 <= i < h / 8 :: lines[i] == Screen3Line(data, w, h, i)
    requires forall i | 0 <= i < h / 8 :: |lines[i]| == 2 * (w / 8)
    ensures forall i, j | 0 <= i < h / 8 && 0 <= j < w / 8 ::
      BlockSamples(data, w, BlockBase(w, i, j), lines[i][2 * j], lines[i][2 * j + 1])
  {
    forall i, j | 0 <= i < h / 8 && 0 <= j < w / 8
      ensures BlockSamples(data, w, BlockBase(w, i, j), lines[i][2 * j], lines[i][2 * j + 1])
    {
      var top := BlockByte(data, w, h, i, j, 0);
      var bottom := BlockByte(data, w, h, i, j, 1);
      assert lines[i][2 * j] == top && lines[i][2 * j + 1] == bottom;
    }
  }
}
