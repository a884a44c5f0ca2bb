/** The hardware sprite writers: every 8x8 block of the image becomes eight
    pattern bytes, one bit per pixel (set for any colour but 0); sprite
    mode 1 allows one colour for the whole sprite, sprite mode 2 one colour
    per pixel line. */
module Sprites {

  import opened Types
  import opened Bits

  /** The number of 8x8 blocks the writers visit: `width * height // 64`,
      and none for a top-down image, whose height is negative. */
  function Blocks(w: nat, h: int): nat
  {
    if h <= 0 then 0 else w * h / 64
  }

  /** The pixel the writers read for pixel `k` of line `j` of block `i`:
      even blocks start at the top, odd blocks 8 lines (128 pixels of a
      16-pixel-wide image) lower, and every pair of blocks 8 pixels further
      right. */
  function SpriteIndex(w: nat, i: nat, j: nat, k: nat): nat
  {
    k + j * w + (i % 2) * 128 + (i / 2) * 8
  }

  /** The `t`-th pixel in the writers' visiting order (block, line, pixel). */
  function PixelIndex(w: nat, t: nat): nat
  {
    SpriteIndex(w, t / 64, (t / 8) % 8, t % 8)
  }

  lemma VisitOrder(i: nat, j: nat, k: nat)
    requires j < 8 && k < 8
    ensures var t := 64 * i + 8 * j + k;
      t / 64 == i && (t / 8) % 8 == j && t % 8 == k
  {
    var t := 64 * i + 8 * j + k;
    assert t / 8 == 8 * i + j;
  }

  /** The `t`-th visited pixel is pixel `t % 8` of line `(t / 8) % 8` of
      block `t / 64`, the order of the writers' three nested loops. */
  lemma PixelOrder(w: nat, i: nat, j: nat, k: nat)
    requires j < 8 && k < 8
    ensures PixelIndex(w, 64 * i + 8 * j + k) == SpriteIndex(w, i, j, k)
  {
    VisitOrder(i, j, k);
  }

  /** Every pixel the writers read lies inside the pixel data. */
  predicate Readable(data: seq<Index>, w: nat, h: int)
  {
    forall t | 0 <= t < 64 * Blocks(w, h) :: PixelIndex(w, t) < |data|
  }

  lemma WholeLines(n: nat)
    ensures (64 * n) % 8 == 0 && (64 * n) / 8 == 8 * n
  {
    assert 64 * n == 8 * (8 * n);
  }

  /** The visited pixels, in visiting order: eight lines of eight pixels
      per block. */
  function Pixels(data: seq<Index>, w: nat, h: int): (px: seq<Index>)
    requires Readable(data, w, h)
    ensures |px| == 64 * Blocks(w, h)
    ensures |px| % 8 == 0 && |px| / 8 == 8 * Blocks(w, h)
  {
    WholeLines(Blocks(w, h));
    seq(64 * Blocks(w, h), t requires 0 <= t < 64 * Blocks(w, h) => data[PixelIndex(w, t)])
  }

  /** The first `n` visited pixels, stopping at the first one outside the
      pixel data: what the writers read before `data[...]` raises
      `IndexError`. */
  function Visited(data: seq<Index>, w: nat, n: nat): (px: seq<Index>)
    ensures |px| <= n
    ensures forall t | 0 <= t < |px| :: PixelIndex(w, t) < |data| && px[t] == data[PixelIndex(w, t)]
    ensures |px| < n ==> PixelIndex(w, |px|) >= |data|
  {
    if n == 0 then []
    else
      var px := Visited(data, w, n - 1);
      if |px| == n - 1 && PixelIndex(w, n - 1) < |data| then px + [data[PixelIndex(w, n - 1)]] else px
  }

  /** The pixels a writer reads before it either finishes or reads past the
      end of the pixel data. */
  function Read(data: seq<Index>, w: nat, h: int): seq<Index>
  {
    Visited(data, w, 64 * Blocks(w, h))
  }

  /** A readable sprite is read to its last visited pixel, and an
      unreadable one stops short of it. */
  lemma ReadAll(data: seq<Index>, w: nat, h: int)
    ensures Readable(data, w, h) <==> |Read(data, w, h)| == 64 * Blocks(w, h)
    ensures Readable(data, w, h) ==> Read(data, w, h) == Pixels(data, w, h)
  {
    var px := Read(data, w, h);
    if Readable(data, w, h) {
      assert |px| == 64 * Blocks(w, h);
      assert px == Pixels(data, w, h);
    }
  }

  /** Visited line `l`: eight pixels. */
  function Line(px: seq<Index>, l: nat): seq<Index>
    requires 8 * l + 8 <= |px|
  {
    px[8 * l..8 * l + 8]
  }

  /** A pixel's pattern bit: set for every colour but 0. */
  function Mask(line: seq<Index>): (m: seq<nat>)
    ensures |m| == |line| && IsBits(m)
  {
    seq(|line|, k requires 0 <= k < |line| => if line[k] != 0 then 1 else 0)
  }

  /** The pattern byte of a line: `line_pattern |= 1` for a coloured pixel,
      shifted left after every pixel but the last. */
  function LinePattern(line: seq<Index>): nat
  {
    PackBits(Mask(line))
  }

  /** A line's pattern is a byte that unpacks to the line's colour mask:
      bit `7 - k` is set exactly when pixel `k` has a colour. */
  lemma LinePatternBits(line: seq<Index>)
    requires |line| == 8
    ensures LinePattern(line) < 256
    ensures UnpackBits(LinePattern(line), 8) == Mask(line)
  {
    PackBitsRoundTrip(Mask(line));
    Pow2Values();
  }

  /** The pattern bytes of all visited lines: one byte per line, unpacking
      to that line's colour mask. */
  function Patterns(px: seq<Index>): (ps: seq<nat>)
    requires |px| % 8 == 0
    ensures |ps| == |px| / 8
    ensures forall l | 0 <= l < |ps| :: ps[l] < 256 && UnpackBits(ps[l], 8) == Mask(Line(px, l))
  {
    var ps := seq(|px| / 8, l requires 0 <= l < |px| / 8 => LinePattern(Line(px, l)));
    forall l | 0 <= l < |ps|
      ensures ps[l] < 256 && UnpackBits(ps[l], 8) == Mask(Line(px, l))
    {
      LinePatternBits(Line(px, l));
    }
    ps
  }

  // ------------------------------------------------------------- colours

  /** The writers' `colorvalue` list: empty, one colour, or stopped by a
      second colour. */
  datatype Tracker = NoColor | OneColor(c: Index) | Conflict

  /** One pixel of the colour check: colour 0 is ignored, the first colour
      is kept, a different colour stops the writer. */
  function Track(t: Tracker, pixel: Index): Tracker
  {
    if pixel == 0 then t
    else match t
      case NoColor => OneColor(pixel)
      case OneColor(c) => if c != pixel then Conflict else t
      case Conflict => Conflict
  }

  /** Two pixels with different colours, neither of them 0. */
  ghost predicate TwoColors(s: seq<Index>)
  {
    exists a, b | 0 <= a < |s| && 0 <= b < |s| :: s[a] != 0 && s[b] != 0 && s[a] != s[b]
  }

  /** What the colour check has learned about a run of pixels. */
  ghost predicate Summarizes(t: Tracker, s: seq<Index>)
  {
    && (t.Conflict? <==> TwoColors(s))
    && (t.NoColor? <==> forall k | 0 <= k < |s| :: s[k] == 0)
    && (t.OneColor? ==>
      && t.c != 0
      && (exists k | 0 <= k < |s| :: s[k] == t.c)
      && forall k | 0 <= k < |s| :: s[k] == 0 || s[k] == t.c)
  }

  /** Checking one more pixel keeps the summary true. */
  lemma TrackStep(t0: Tracker, init: seq<Index>, x: Index)
    requires Summarizes(t0, init)
    ensures Summarizes(Track(t0, x), init + [x])
  {
    var s := init + [x];
    assert forall k | 0 <= k < |init| :: s[k] == init[k];
    assert s[|init|] == x;
    if t0.Conflict? {
      var a, b :| 0 <= a < |init| && 0 <= b < |init| && init[a] != 0 && init[b] != 0 && init[a] != init[b];
      assert s[a] != 0 && s[b] != 0 && s[a] != s[b];
    } else if t0.OneColor? {
      var k0 :| 0 <= k0 < |init| && init[k0] == t0.c;
      assert s[k0] == t0.c;
      if x != 0 && x != t0.c {
        assert s[k0] != 0 && s[|init|] != 0 && s[k0] != s[|init|];
      } else {
        assert forall k | 0 <= k < |s| :: s[k] == 0 || s[k] == t0.c;
        assert forall a, b | 0 <= a < |s| && 0 <= b < |s| && s[a] != 0 && s[b] != 0 :: s[a] == s[b];
      }
    } else {
      assert forall k | 0 <= k < |init| :: init[k] == 0;
      assert forall k | 0 <= k < |s| && s[k] != 0 :: s[k] == x;
    }
  }

  /** The colour check over a run of pixels in order. It fails exactly when
      two pixels have different colours; otherwise it keeps the one colour
      of every coloured pixel, or none when no pixel has a colour. */
  function TrackAll(s: seq<Index>): (t: Tracker)
    ensures t.Conflict? <==> TwoColors(s)
    ensures t.NoColor? <==> forall k | 0 <= k < |s| :: s[k] == 0
    ensures t.OneColor? ==>
      && t.c != 0
      && (exists k | 0 <= k < |s| :: s[k] == t.c)
      && forall k | 0 <= k < |s| :: s[k] == 0 || s[k] == t.c
  {
    if |s| == 0 then NoColor
    else
      var init := s[..|s| - 1];
      var t0 := TrackAll(init);
      TrackStep(t0, init, s[|s| - 1]);
      assert init + [s[|s| - 1]] == s;
      Track(t0, s[|s| - 1])
  }

  /** The colour byte of a sprite mode 2 line with no colour conflict. */
  function ColorOf(t: Tracker): Index
  {
    match t
    case OneColor(c) => c
    case _ => 0
  }

  // ------------------------------------------------------------- sprite 1

  /** `c` is the colour byte of `line`: 0 for a line without colour, and
      otherwise the colour of every coloured pixel. */
  ghost predicate ColorOfLine(c: Index, line: seq<Index>)
  {
    && (c == 0 <==> forall k | 0 <= k < |line| :: line[k] == 0)
    && forall k | 0 <= k < |line| :: line[k] == 0 || line[k] == c
  }

  /** The colour byte of an optional colour, 0 for none. */
  function ColorByte(c: Option<Index>): Index
  {
    match c
    case Some(v) => v
    case None => 0
  }

  /** `c` is the colour of a sprite: none when no pixel has a colour, and
      otherwise the colour of every coloured pixel. */
  ghost predicate ColorOfSprite(c: Option<Index>, px: seq<Index>)
  {
    && (c.None? <==> forall t | 0 <= t < |px| :: px[t] == 0)
    && (c.Some? ==> ColorOfLine(c.value, px))
  }

  datatype Sprite1Out = Sprite1Out(patterns: seq<nat>, color: Option<Index>)

  /** The sprite mode 1 writer: the pattern bytes of every line of every
      block, and the one colour of the sprite, none for an empty sprite; two
      colours anywhere in the sprite fail it. */
  function Sprite1(data: seq<Index>, w: nat, h: int): (r: Result<Sprite1Out>)
    requires Readable(data, w, h) || TwoColors(Read(data, w, h))
    ensures r.Err? <==> TwoColors(Read(data, w, h))
    ensures r.Err? ==> r.error == MultipleSpriteColors
    ensures r.Ok? ==> Readable(data, w, h)
    ensures Readable(data, w, h) ==> (r.Err? <==> TwoColors(Pixels(data, w, h)))
    ensures r.Ok? ==> |r.value.patterns| == 8 * Blocks(w, h)
    ensures r.Ok? ==> r.value.patterns == Patterns(Pixels(data, w, h))
    ensures r.Ok? ==> ColorOfSprite(r.value.color, Pixels(data, w, h))
  {
    ReadAll(data, w, h);
    match TrackAll(Read(data, w, h))
    case Conflict => Err(MultipleSpriteColors)
    case NoColor => Ok(Sprite1Out(Patterns(Pixels(data, w, h)), None))
    case OneColor(c) => Ok(Sprite1Out(Patterns(Pixels(data, w, h)), Some(c)))
  }

  // ------------------------------------------------------------- sprite 2

  datatype Sprite2Out = Sprite2Out(patterns: seq<nat>, colors: seq<Index>, consistent: bool)

  /** Visited line `l` as far as it was read: all eight pixels, or the ones
      before the read stopped. */
  function PartLine(px: seq<Index>, l: nat): (line: seq<Index>)
    requires 8 * l < |px|
    ensures 0 < |line| <= 8
    ensures 8 * l + 8 <= |px| ==> line == Line(px, l)
  {
    px[8 * l..Min(8 * l + 8, |px|)]
  }

  /** Some line, as far as it was read, has two colours. */
  ghost predicate LineConflict(px: seq<Index>)
  {
    exists l | 0 <= l && 8 * l < |px| :: TwoColors(PartLine(px, l))
  }

  /** The colour of every visited line, 0 for a line without colour. */
  function LineColors(px: seq<Index>): (cs: seq<Index>)
    requires |px| % 8 == 0
    requires !LineConflict(px)
    ensures |cs| == |px| / 8
    ensures forall l | 0 <= l < |cs| :: ColorOfLine(cs[l], Line(px, l))
  {
    var cs := seq(|px| / 8, l requires 0 <= l < |px| / 8 => ColorOf(TrackAll(Line(px, l))));
    forall l | 0 <= l < |cs|
      ensures !TrackAll(Line(px, l)).Conflict?
    {
      assert PartLine(px, l) == Line(px, l);
    }
    cs
  }

  /** The colour lines of a 16x16 sprite agree: the lines of its right
      half (blocks 2 and 3) have the colours of the lines of its left half
      (blocks 0 and 1) beside them. */
  predicate ColorsAgree(cs: seq<Index>)
  {
    |cs| >= 32 && cs[0..8] == cs[16..24] && cs[8..16] == cs[24..32]
  }

  /** The last block ends the colour text without a line break after it:
      the writer appends one after every block whose number is not
      `width * height / 64 - 1` (a float), so the text ends with an empty
      `db` line unless the blocks cover the image exactly. */
  predicate LastBlockEndsText(w: nat, h: int)
  {
    Blocks(w, h) > 0 && (w * h) % 64 == 0
  }

  /** The lines of a written colour table: the label, the `db` line of every
      block, and an empty last `db` line unless the last block ends the text
      (the label and one empty `db` line when there are no blocks). */
  function ColorTableLines(w: nat, h: int): nat
  {
    1 + Blocks(w, h) + (if LastBlockEndsText(w, h) then 0 else 1)
  }

  /** The lines of a text one after the other. */
  function Concat(rows: seq<seq<Index>>): seq<Index>
  {
    if |rows| == 0 then [] else Concat(rows[..|rows| - 1]) + rows[|rows| - 1]
  }

  /** `cs` cut into `n` lines of eight. */
  function Chunks(cs: seq<Index>, n: nat): seq<seq<Index>>
    requires |cs| == 8 * n
  {
    seq(n, i requires 0 <= i < n => cs[8 * i..8 * i + 8])
  }

  /** Lines of eight put back together give the colours they were cut from. */
  lemma {:induction false} ConcatChunks(cs: seq<Index>, n: nat)
    requires |cs| == 8 * n
    ensures Concat(Chunks(cs, n)) == cs
  {
    if n > 0 {
      var init := cs[..8 * (n - 1)];
      ConcatChunks(init, n - 1);
      var rows, before := Chunks(cs, n), Chunks(init, n - 1);
      forall i | 0 <= i < n - 1
        ensures rows[i] == before[i]
      {
        assert init[8 * i..8 * i + 8] == cs[8 * i..8 * i + 8];
      }
      assert rows[..n - 1] == before;
      assert init + cs[8 * (n - 1)..8 * n] == cs;
    }
  }

  /** The `db` lines of the colour text, after the label: lines of eight
      colours that together list the colours of every line of every block in
      order, and one empty line, last, exactly when the last block does not
      end the text. A line is written in one fixed format, so two lines are
      the same text exactly when they list the same colours. */
  function ColorRows(cs: seq<Index>, w: nat, h: int): (rows: seq<seq<Index>>)
    requires |cs| == 8 * Blocks(w, h)
    ensures |rows| == ColorTableLines(w, h) - 1 > 0
    ensures Concat(rows) == cs
    ensures forall i | 0 <= i < |rows| :: |rows[i]| == 8 || (rows[i] == [] && i == |rows| - 1)
    ensures rows[|rows| - 1] == [] <==> !LastBlockEndsText(w, h)
  {
    var chunks := Chunks(cs, Blocks(w, h));
    ConcatChunks(cs, Blocks(w, h));
    if LastBlockEndsText(w, h) then chunks
    else
      assert (chunks + [[]])[..|chunks|] == chunks;
      chunks + [[]]
  }

  /** The comparison `color_lines[1] != color_lines[3] or color_lines[2] !=
      color_lines[4]` over the `db` lines (`color_lines[k]` is `rows[k - 1]`),
      evaluated left to right as Python's `or` does: none where it would
      index a line the text does not have, which raises `IndexError`. */
  function ColorMismatch(rows: seq<seq<Index>>): Option<bool>
  {
    if |rows| < 3 then None
    else if rows[0] != rows[2] then Some(true)
    else if |rows| < 4 then None
    else Some(rows[1] != rows[3])
  }

  /** The colour comparison of a sprite of more than one block reads only
      lines its colour text has; a sprite failed by a two-colour line never
      gets that far. */
  ghost predicate ColorCheckInRange(data: seq<Index>, w: nat, h: int)
    requires Readable(data, w, h)
  {
    var px := Pixels(data, w, h);
    LineConflict(px) || ColorMismatch(ColorRows(LineColors(px), w, h)).Some?
  }

  /** Which sprites of more than one block get through the comparison, and
      what it finds: four blocks or more compare the right half against the
      left; three blocks fail only when the text ends with block 2 and block
      2's colours equal block 0's; two blocks fail unless the text ends with
      an empty line, which never equals block 0's line. */
  lemma ColorMismatchBlocks(cs: seq<Index>, w: nat, h: int)
    requires |cs| == 8 * Blocks(w, h) && Blocks(w, h) != 1
    ensures ColorMismatch(ColorRows(cs, w, h)).Some? <==>
      || Blocks(w, h) >= 4
      || (Blocks(w, h) == 3 && (!LastBlockEndsText(w, h) || cs[0..8] != cs[16..24]))
      || (Blocks(w, h) == 2 && !LastBlockEndsText(w, h))
    ensures ColorMismatch(ColorRows(cs, w, h)).Some? ==>
      (ColorMismatch(ColorRows(cs, w, h)).value <==> !ColorsAgree(cs))
  {
    var rows := ColorRows(cs, w, h);
    var n := Blocks(w, h);
    if n >= 3 {
      assert rows[0] == cs[0..8] && rows[2] == cs[16..24];
    }
    if n >= 4 {
      assert rows[1] == cs[8..16] && rows[3] == cs[24..32];
    } else if n == 3 && !LastBlockEndsText(w, h) {
      assert |rows[1]| == 8 && rows[3] == [];
    } else if n == 2 && !LastBlockEndsText(w, h) {
      assert |rows[0]| == 8 && rows[2] == [];
    }
  }

  /** The writer's pass over the lines, which stops at the first line with
      two colours. */
  function HasConflict(px: seq<Index>): (b: bool)
    ensures b <==> LineConflict(px)
  {
    exists l | 0 <= l < |px| && 8 * l < |px| :: TrackAll(PartLine(px, l)).Conflict?
  }

  /** The sprite mode 2 writer: the pattern bytes of every line of every
      block and one colour byte per line; two colours in one line fail the
      sprite. Unless the sprite is one block, only the colours of the first
      two blocks are kept, and the colour text's lines are compared (a
      mismatch only prints a warning): a 16x16 sprite is consistent when its
      right half's line colours repeat its left half's, and no other sprite
      of more than one block is. */
  function Sprite2(data: seq<Index>, w: nat, h: int): (r: Result<Sprite2Out>)
    requires Readable(data, w, h) || LineConflict(Read(data, w, h))
    requires Readable(data, w, h) && Blocks(w, h) != 1 ==> ColorCheckInRange(data, w, h)
    ensures r.Err? <==> LineConflict(Read(data, w, h))
    ensures r.Err? ==> r.error == MultipleColorsPerLine
    ensures r.Ok? ==> Readable(data, w, h)
    ensures Readable(data, w, h) ==> (r.Err? <==> LineConflict(Pixels(data, w, h)))
    ensures r.Ok? ==> r.value.patterns == Patterns(Pixels(data, w, h))
    ensures r.Ok? ==> |r.value.colors| == (if Blocks(w, h) == 1 then 8 else 16)
    ensures r.Ok? ==> forall l | 0 <= l < |r.value.colors| ::
      ColorOfLine(r.value.colors[l], Line(Pixels(data, w, h), l))
    ensures r.Ok? ==> (r.value.consistent <==> Blocks(w, h) == 1 || ColorsAgree(LineColors(Pixels(data, w, h))))
  {
    ReadAll(data, w, h);
    if HasConflict(Read(data, w, h)) then
      Err(MultipleColorsPerLine)
    else
      var px := Pixels(data, w, h);
      var cs := LineColors(px);
      if Blocks(w, h) == 1 then Ok(Sprite2Out(Patterns(px), cs, true))
      else
        ColorMismatchBlocks(cs, w, h);
        Ok(Sprite2Out(Patterns(px), cs[..16], !ColorMismatch(ColorRows(cs, w, h)).value))
  }

  /** Two colours in one line are two colours in the sprite. */
  lemma LineConflictIsSpriteConflict(px: seq<Index>)
    ensures LineConflict(px) ==> TwoColors(px)
  {
    if LineConflict(px) {
      var l :| 0 <= l && 8 * l < |px| && TwoColors(PartLine(px, l));
      var line := PartLine(px, l);
      var a, b :| 0 <= a < |line| && 0 <= b < |line| && line[a] != 0 && line[b] != 0 && line[a] != line[b];
      assert line[a] == px[8 * l + a] && line[b] == px[8 * l + b];
    }
  }

  /** Every sprite the mode 1 writer accepts, the mode 2 writer accepts as
      well, with the same pattern bytes and the sprite's one colour (or 0)
      on every line. */
  lemma Sprite1Sprite2(data: seq<Index>, w: nat, h: int)
    requires Readable(data, w, h) || TwoColors(Read(data, w, h))
    requires Readable(data, w, h) || LineConflict(Read(data, w, h))
    requires Readable(data, w, h) && Blocks(w, h) != 1 ==> ColorCheckInRange(data, w, h)
    ensures Sprite1(data, w, h).Ok? ==> Sprite2(data, w, h).Ok?
    ensures Sprite1(data, w, h).Ok? ==>
      && Sprite2(data, w, h).value.patterns == Sprite1(data, w, h).value.patterns
      && forall l | 0 <= l < |Sprite2(data, w, h).value.colors| ::
        Sprite2(data, w, h).value.colors[l] in {0, ColorByte(Sprite1(data, w, h).value.color)}
  {
    if Sprite1(data, w, h).Ok? {
      assert Readable(data, w, h);
      var px := Pixels(data, w, h);
      assert !TwoColors(px);
      LineConflictIsSpriteConflict(px);
      assert Sprite2(data, w, h).Ok?;
      var s1 := Sprite1(data, w, h).value;
      var s2 := Sprite2(data, w, h).value;
      forall l | 0 <= l < |s2.colors|
        ensures s2.colors[l] in {0, ColorByte(s1.color)}
      {
        LineColorIsSpriteColor(px, s1.color, l, s2.colors[l]);
      }
    }
  }

  /** A line's colour byte is 0 or the colour of the whole sprite. */
  lemma LineColorIsSpriteColor(px: seq<Index>, c: Option<Index>, l: nat, v: Index)
    requires |px| % 8 == 0 && l < |px| / 8
    requires ColorOfSprite(c, px) && ColorOfLine(v, Line(px, l))
    ensures v in {0, ColorByte(c)}
  {
    var line := Line(px, l);
    if v != 0 {
      var k :| 0 <= k < 8 && line[k] != 0;
      assert line[k] == px[8 * l + k];
    }
  }

  // ------------------------------------------------------------- layout

  /** In a 16x16 sprite the four blocks are its top-left, bottom-left,
      top-right and bottom-right quarters: pixel `k` of line `j` of block `i`
      is the image pixel in row `8 * (i % 2) + j` and column `8 * (i / 2) + k`. */
  lemma Sprite16Quarters(i: nat, j: nat, k: nat)
    requires i < 4 && j < 8 && k < 8
    ensures SpriteIndex(16, i, j, k) == (8 * (i % 2) + j) * 16 + 8 * (i / 2) + k
    ensures SpriteIndex(16, i, 0, 0) == [0, 128, 8, 136][i]
  {
  }

  /** An 8x8 sprite is one block read row by row. */
  lemma Sprite8RowMajor(j: nat, k: nat)
    requires j < 8 && k < 8
    ensures Blocks(8, 8) == 1
    ensures SpriteIndex(8, 0, j, k) == 8 * j + k
  {
  }

  /** Every 8x8 and 16x16 image holds all pixels the writers read. */
  lemma SquareSpritesReadable(data: seq<Index>, w: nat)
    requires w == 8 || w == 16
    requires |data| == w * w
    ensures Readable(data, w, w)
  {
    assert Blocks(w, w) == (if w == 8 then 1 else 4);
    forall t | 0 <= t < 64 * Blocks(w, w)
      ensures PixelIndex(w, t) < |data|
    {
      var i, j, k := t / 64, (t / 8) % 8, t % 8;
      assert i < Blocks(w, w);
      if w == 16 {
        Sprite16Quarters(i, j, k);
      } else {
        assert i == 0;
      }
    }
  }
}
