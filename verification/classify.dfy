/** The pixel classifier: finds every pixel's three bytes in the 24-bit pixel
    array (rows padded to four bytes, stored bottom-up for a positive height)
    and maps its colour to a palette index through the conversion table. */
module Classify {

  import opened Types
  import opened Palette
  import opened Bits

  /** The padding bytes at the end of each stored row. */
  function Padding(w: nat): (p: nat)
    ensures p <= 3
    ensures (3 * w + p) % 4 == 0
  {
    PaddingCompletes(w * 3);
    (4 - (w * 3) % 4) % 4
  }

  lemma PaddingCompletes(x: nat)
    ensures (x + (4 - x % 4) % 4) % 4 == 0
  {
    var q, m := x / 4, x % 4;
    assert x == 4 * q + m;
    if m == 0 {
      assert x + (4 - m) % 4 == 4 * q;
    } else {
      assert x + (4 - m) % 4 == 4 * (q + 1);
    }
  }

  /** Bytes per stored row. */
  function Stride(w: nat): nat
  {
    3 * w + Padding(w)
  }

  /** The offset of pixel `i`'s first byte, in the form the converter computes it. */
  function PixelOffset(w: nat, h: int, i: nat): int
    requires w > 0
  {
    if h > 0 then ((h - 1 - 2 * (i / w)) * w + i) * 3 + (h - 1 - i / w) * Padding(w)
    else i * 3 + (i / w) * Padding(w)
  }

  /** The stored row of logical row `i / w`: counted from the bottom for a
      positive height, from the top otherwise. */
  function StoredRow(w: nat, h: int, i: nat): int
    requires w > 0
  {
    if h > 0 then h - 1 - i / w else i / w
  }

  /** For a positive height the offset is that of column `i % w` in stored
      row `h - 1 - i / w`. */
  lemma OffsetBottomUp(w: nat, h: int, i: nat)
    requires w > 0 && h > 0
    ensures PixelOffset(w, h, i) == (h - 1 - i / w) * Stride(w) + 3 * (i % w)
  {
    var r, c := i / w, i % w;
    assert i == r * w + c;
    assert (h - 1 - 2 * r) * w + i == (h - 1 - r) * w + c;
  }

  /** Otherwise the offset is that of column `i % w` in stored row `i / w`. */
  lemma OffsetTopDown(w: nat, h: int, i: nat)
    requires w > 0 && h <= 0
    ensures PixelOffset(w, h, i) == (i / w) * Stride(w) + 3 * (i % w)
  {
    var r, c := i / w, i % w;
    assert i == r * w + c;
  }

  /** Both cases at once, in terms of the stored row. */
  lemma OffsetByStoredRow(w: nat, h: int, i: nat)
    requires w > 0
    ensures PixelOffset(w, h, i) == StoredRow(w, h, i) * Stride(w) + 3 * (i % w)
  {
    if h > 0 { OffsetBottomUp(w, h, i); } else { OffsetTopDown(w, h, i); }
  }

  /** The bytes the classifier reads: all rows but the last in full, and the
      three colour bytes of every pixel of the last. */
  predicate BufferCovers(size: nat, w: nat, h: int)
  {
    w * Abs(h) == 0 || size >= (Abs(h) - 1) * Stride(w) + 3 * w
  }

  /** Logical row `i / w` of a pixel of the image is one of its rows. */
  lemma RowInRange(w: nat, rows: nat, i: nat)
    requires i < w * rows
    ensures w > 0 && i / w < rows
  {
    assert w > 0;
    var r, c := i / w, i % w;
    assert i == r * w + c && 0 <= c < w;
    if r >= rows {
      MulLe(rows, r, w);
      assert false;
    }
  }

  lemma CellBound(row: int, rows: nat, stride: nat, c: int, w: nat)
    requires 0 <= row < rows && 0 <= c < w
    ensures 0 <= row * stride + 3 * c
    ensures row * stride + 3 * c + 2 < (rows - 1) * stride + 3 * w
  {
    MulLe(row, rows - 1, stride);
    MulLe(0, row, stride);
  }

  /** Every pixel's stored row is a row of the image. */
  lemma StoredRowInRange(w: nat, h: int, i: nat)
    requires i < w * Abs(h)
    ensures w > 0
    ensures 0 <= StoredRow(w, h, i) < Abs(h)
  {
    RowInRange(w, Abs(h), i);
  }

  /** Every pixel's three colour bytes lie in the bytes the classifier reads. */
  lemma OffsetInRange(w: nat, h: int, i: nat)
    requires i < w * Abs(h)
    ensures w > 0
    ensures 0 <= StoredRow(w, h, i) < Abs(h)
    ensures 0 <= StoredRow(w, h, i) * Stride(w) + 3 * (i % w)
    ensures StoredRow(w, h, i) * Stride(w) + 3 * (i % w) + 2 < (Abs(h) - 1) * Stride(w) + 3 * w
  {
    StoredRowInRange(w, h, i);
    var row, c := StoredRow(w, h, i), i % w;
    assert 0 <= c < w;
    CellBound(row, Abs(h), Stride(w), c, w);
  }

  /** The colour stored at byte offset `o`: its blue, green, red bytes in
      red, green, blue order, or nothing when the three bytes are not all there. */
  function ColorAt(bmp: seq<Byte>, o: int): seq<Byte>
  {
    if 0 <= o && o + 2 < |bmp| then [bmp[o + 2], bmp[o + 1], bmp[o]] else []
  }

  /** The colour of logical pixel `i` (rows top to bottom, pixels left to
      right): the colour stored at column `i % w` of its stored row. */
  function PixelRgb(bmp: seq<Byte>, w: nat, h: int, i: nat): (rgb: seq<Byte>)
    requires i < w * Abs(h) && BufferCovers(|bmp|, w, h)
    ensures w > 0 && rgb == ColorAt(bmp, StoredRow(w, h, i) * Stride(w) + 3 * (i % w))
  {
    OffsetInRange(w, h, i);
    OffsetByStoredRow(w, h, i);
    var o := PixelOffset(w, h, i);
    [bmp[o + 2], bmp[o + 1], bmp[o]]
  }

  /** Every pixel's three colour bytes are in the buffer, so its colour is
      never missing. */
  lemma PixelRgbComplete(bmp: seq<Byte>, w: nat, h: int, i: nat)
    requires i < w * Abs(h) && BufferCovers(|bmp|, w, h)
    ensures w > 0
    ensures var o := StoredRow(w, h, i) * Stride(w) + 3 * (i % w);
      && 0 <= o && o + 2 < |bmp|
      && PixelRgb(bmp, w, h, i) == [bmp[o + 2], bmp[o + 1], bmp[o]]
  {
    OffsetInRange(w, h, i);
  }

  /** Pixel `i`'s three colour bytes are all inside the pixel data. */
  predicate InBuffer(bmp: seq<Byte>, w: nat, h: int, i: nat)
    requires w > 0
  {
    var o := StoredRow(w, h, i) * Stride(w) + 3 * (i % w);
    0 <= o && o + 2 < |bmp|
  }

  /** The colours of the first `n` pixels as far as the classifier gets
      before a read runs past the end of the pixel data. */
  function ReadColors(bmp: seq<Byte>, w: nat, h: int, n: nat): (cs: seq<seq<Byte>>)
    requires w > 0
    ensures |cs| <= n
    ensures forall t | 0 <= t < |cs| ::
      InBuffer(bmp, w, h, t) && cs[t] == ColorAt(bmp, StoredRow(w, h, t) * Stride(w) + 3 * (t % w))
    ensures |cs| < n ==> !InBuffer(bmp, w, h, |cs|)
  {
    if n == 0 then []
    else
      var cs := ReadColors(bmp, w, h, n - 1);
      if |cs| == n - 1 && InBuffer(bmp, w, h, n - 1)
      then cs + [ColorAt(bmp, StoredRow(w, h, n - 1) * Stride(w) + 3 * ((n - 1) % w))]
      else cs
  }

  /** The colours read from the whole image, none for an empty one. */
  function Visit(bmp: seq<Byte>, w: nat, h: int): seq<seq<Byte>>
  {
    if w == 0 then [] else ReadColors(bmp, w, h, w * Abs(h))
  }

  /** The last byte of the last stored row is that of a pixel of the image:
      the top-right one for a bottom-up image, the bottom-right one otherwise. */
  lemma LastRowPixel(w: nat, h: int) returns (i: nat)
    requires w * Abs(h) > 0
    ensures i < w * Abs(h) && w > 0
    ensures StoredRow(w, h, i) * Stride(w) + 3 * (i % w) + 2 == (Abs(h) - 1) * Stride(w) + 3 * w - 1
  {
    var a := Abs(h);
    assert w > 0 && a > 0;
    if h > 0 {
      i := w - 1;
      DivModUnique(i, w, 0, w - 1);
      assert StoredRow(w, h, i) == a - 1;
    } else {
      MulLe(1, a, w);
      i := w * a - 1;
      assert w * a == (a - 1) * w + w;
      DivModUnique(i, w, a - 1, w - 1);
      assert StoredRow(w, h, i) == a - 1;
    }
  }

  lemma DivModUnique(x: nat, d: nat, q: nat, m: nat)
    requires d > 0 && m < d && x == q * d + m
    ensures x / d == q && x % d == m
  {
    var q', m' := x / d, x % d;
    assert q' * d + m' == q * d + m;
    if q < q' {
      MulLe(q + 1, q', d);
      assert false;
    } else if q' < q {
      MulLe(q' + 1, q, d);
      assert false;
    }
  }

  /** The classifier reads every pixel exactly when the pixel data covers
      every row, and then it reads each pixel's colour. */
  lemma VisitAll(bmp: seq<Byte>, w: nat, h: int)
    ensures |Visit(bmp, w, h)| == w * Abs(h) <==> BufferCovers(|bmp|, w, h)
    ensures BufferCovers(|bmp|, w, h) ==>
      forall i | 0 <= i < w * Abs(h) :: Visit(bmp, w, h)[i] == PixelRgb(bmp, w, h, i)
  {
    var cs := Visit(bmp, w, h);
    var n := w * Abs(h);
    if n == 0 {
      return;
    }
    if BufferCovers(|bmp|, w, h) {
      if |cs| < n {
        OffsetInRange(w, h, |cs|);
        assert InBuffer(bmp, w, h, |cs|);
        assert false;
      }
    } else {
      var i := LastRowPixel(w, h);
      assert !InBuffer(bmp, w, h, i);
      assert |cs| <= i;
    }
  }

  /** The classifier's pixel variable: still the colour bytes, or already
      replaced by a palette index. */
  datatype Pixel = Raw(rgb: seq<Byte>) | Mapped(index: int)

  /** The table scan: every entry is compared with the pixel in table order,
      and a match replaces the pixel by the entry's index. Once the pixel
      is an index no later colour compares equal to it. */
  function ScanTable(p: Pixel, table: Table): (r: Pixel)
    decreases |table|
    ensures p.Mapped? ==> r == p
    ensures p.Raw? && r.Raw? ==> r == p && forall k | 0 <= k < |table| :: table[k].rgb != p.rgb
    ensures p.Raw? && r.Mapped? ==>
      exists k | 0 <= k < |table| ::
        && table[k].rgb == p.rgb && r.index == table[k].index
        && forall k' | 0 <= k' < k :: table[k'].rgb != p.rgb
  {
    if |table| == 0 then p
    else
      var q := if p.Raw? && p.rgb == table[0].rgb then Mapped(table[0].index) else p;
      var r := ScanTable(q, table[1..]);
      assert p.Raw? && r.Mapped? && q.Raw? ==>
        exists k | 0 <= k < |table[1..]| :: && table[1..][k].rgb == p.rgb && r.index == table[1..][k].index
          && forall k' | 0 <= k' < k :: table[1..][k'].rgb != p.rgb;
      r
  }

  /** The palette index of a colour: that of the first entry with this
      colour, or none when no entry has it. */
  function Lookup(table: Table, rgb: seq<Byte>): (r: Option<int>)
    ensures r.None? <==> forall k | 0 <= k < |table| :: table[k].rgb != rgb
    ensures r.Some? ==>
      exists k | 0 <= k < |table| ::
        && table[k].rgb == rgb && r.value == table[k].index
        && forall k' | 0 <= k' < k :: table[k'].rgb != rgb
  {
    match ScanTable(Raw(rgb), table)
    case Raw(_) => None
    case Mapped(x) => Some(x)
  }

  /** The table entry pixel `i` finds, if any. */
  function PixelLookup(table: Table, bmp: seq<Byte>, w: nat, h: int, i: nat): Option<int>
    requires i < w * Abs(h) && BufferCovers(|bmp|, w, h)
  {
    Lookup(table, PixelRgb(bmp, w, h, i))
  }

  /** The index a found colour contributes, 0 for a missing one. */
  function IndexOr0(x: Option<int>): int
  {
    match x
    case Some(v) => v
    case None => 0
  }

  /** The table step of the classifier over the pixel colours in visiting
      order: the first colour missing from the table stops it, except in
      screen 0 where such a pixel becomes background index 0. */
  method ClassifyColors(table: Table, colors: seq<seq<Byte>>, mode: Mode) returns (r: Result<seq<int>>)
    ensures r.Ok? ==> |r.value| == |colors|
    ensures r.Ok? ==> forall i | 0 <= i < |r.value| :: r.value[i] == IndexOr0(Lookup(table, colors[i]))
    ensures r.Ok? <==> mode == Screen0 || forall i | 0 <= i < |colors| :: Lookup(table, colors[i]).Some?
    ensures r.Err? ==>
      exists i | 0 <= i < |colors| ::
        && Lookup(table, colors[i]).None?
        && r.error == UnmappedColor(colors[i])
        && forall i' | 0 <= i' < i :: Lookup(table, colors[i']).Some?
    ensures r.Ok? && WellFormed(table) ==> AllIndices(r.value)
  {
    var pixels: seq<int> := [];
    var i := 0;
    while i < |colors|
      invariant 0 <= i <= |colors|
      invariant |pixels| == i
      invariant forall i' | 0 <= i' < i :: pixels[i'] == IndexOr0(Lookup(table, colors[i']))
      invariant mode != Screen0 ==> forall i' | 0 <= i' < i :: Lookup(table, colors[i']).Some?
      invariant WellFormed(table) ==> AllIndices(pixels)
      decreases |colors| - i
    {
      var found := Lookup(table, colors[i]);
      if found.None? && mode != Screen0 {
        return Err(UnmappedColor(colors[i]));
      }
      pixels := pixels + [IndexOr0(found)];
      i := i + 1;
    }
    return Ok(pixels);
  }

  /** Looking up the colour list is looking up every pixel. */
  lemma SameLookups(table: Table, bmp: seq<Byte>, w: nat, h: int, colors: seq<seq<Byte>>)
    requires BufferCovers(|bmp|, w, h)
    requires |colors| == w * Abs(h)
    requires forall i | 0 <= i < |colors| :: colors[i] == PixelRgb(bmp, w, h, i)
    ensures forall i | 0 <= i < |colors| :: Lookup(table, colors[i]) == PixelLookup(table, bmp, w, h, i)
  {
  }

  /** The indices classified from the colour list are those of the pixels. */
  lemma ConvertValues(table: Table, bmp: seq<Byte>, w: nat, h: int, colors: seq<seq<Byte>>, r: Result<seq<int>>)
    requires BufferCovers(|bmp|, w, h)
    requires |colors| == w * Abs(h)
    requires forall i | 0 <= i < |colors| :: colors[i] == PixelRgb(bmp, w, h, i)
    requires r.Ok? ==> |r.value| == |colors|
    requires r.Ok? ==> forall i | 0 <= i < |r.value| :: r.value[i] == IndexOr0(Lookup(table, colors[i]))
    ensures r.Ok? ==>
      forall i | 0 <= i < |r.value| :: r.value[i] == IndexOr0(PixelLookup(table, bmp, w, h, i))
  {
    SameLookups(table, bmp, w, h, colors);
  }

  /** The colour list fails where the pixels fail, at the same first pixel. */
  lemma ConvertFails(table: Table, bmp: seq<Byte>, w: nat, h: int, mode: Mode, colors: seq<seq<Byte>>, r: Result<seq<int>>)
    requires BufferCovers(|bmp|, w, h)
    requires |colors| == w * Abs(h)
    requires forall i | 0 <= i < |colors| :: colors[i] == PixelRgb(bmp, w, h, i)
    requires r.Ok? <==> mode == Screen0 || forall i | 0 <= i < |colors| :: Lookup(table, colors[i]).Some?
    requires r.Err? ==>
      exists i | 0 <= i < |colors| ::
        && Lookup(table, colors[i]).None?
        && r.error == UnmappedColor(colors[i])
        && forall i' | 0 <= i' < i :: Lookup(table, colors[i']).Some?
    ensures r.Ok? <==> mode == Screen0 || forall i | 0 <= i < w * Abs(h) :: PixelLookup(table, bmp, w, h, i).Some?
    ensures r.Err? ==>
      exists i | 0 <= i < w * Abs(h) ::
        && PixelLookup(table, bmp, w, h, i).None?
        && r.error == UnmappedColor(PixelRgb(bmp, w, h, i))
        && forall i' | 0 <= i' < i :: PixelLookup(table, bmp, w, h, i').Some?
  {
    SameLookups(table, bmp, w, h, colors);
    if r.Err? {
      var k :| 0 <= k < |colors| && Lookup(table, colors[k]).None? && r.error == UnmappedColor(colors[k])
        && forall i' | 0 <= i' < k :: Lookup(table, colors[i']).Some?;
      assert PixelLookup(table, bmp, w, h, k).None? && r.error == UnmappedColor(PixelRgb(bmp, w, h, k));
    }
  }

  /** Some colour the classifier reads is missing from the table, outside
      screen 0 where a missing colour is the background. */
  predicate Unmapped(table: Table, colors: seq<seq<Byte>>, mode: Mode)
  {
    mode != Screen0 && exists i | 0 <= i < |colors| :: Lookup(table, colors[i]).None?
  }

  /** The classifier. Pixels are visited top row first, left to right, and
      each one's colour is looked up in the table; the first colour missing
      from the table stops it, except in screen 0 where such a pixel becomes
      background index 0. Pixel data too short for every row is accepted
      when an unmapped colour stops the classifier before the first read
      past its end. */
  method Convert(table: Table, bmp: seq<Byte>, w: nat, h: int, mode: Mode) returns (r: Result<seq<int>>)
    requires BufferCovers(|bmp|, w, h) || Unmapped(table, Visit(bmp, w, h), mode)
    ensures r.Ok? ==> BufferCovers(|bmp|, w, h)
    ensures r.Err? <==> Unmapped(table, Visit(bmp, w, h), mode)
    ensures r.Err? ==>
      exists i | 0 <= i < |Visit(bmp, w, h)| ::
        && Lookup(table, Visit(bmp, w, h)[i]).None?
        && r.error == UnmappedColor(Visit(bmp, w, h)[i])
        && forall i' | 0 <= i' < i :: Lookup(table, Visit(bmp, w, h)[i']).Some?
    ensures r.Ok? ==> |r.value| == w * Abs(h)
    ensures r.Ok? ==>
      forall i | 0 <= i < |r.value| :: r.value[i] == IndexOr0(PixelLookup(table, bmp, w, h, i))
    ensures BufferCovers(|bmp|, w, h) ==>
      (r.Ok? <==> mode == Screen0 || forall i | 0 <= i < w * Abs(h) :: PixelLookup(table, bmp, w, h, i).Some?)
    ensures BufferCovers(|bmp|, w, h) && r.Err? ==>
      exists i | 0 <= i < w * Abs(h) ::
        && PixelLookup(table, bmp, w, h, i).None?
        && r.error == UnmappedColor(PixelRgb(bmp, w, h, i))
        && forall i' | 0 <= i' < i :: PixelLookup(table, bmp, w, h, i').Some?
    ensures r.Ok? && WellFormed(table) ==> AllIndices(r.value)
  {
    var colors := Visit(bmp, w, h);
    VisitAll(bmp, w, h);
    r := ClassifyColors(table, colors, mode);
    if BufferCovers(|bmp|, w, h) {
      ConvertValues(table, bmp, w, h, colors, r);
      ConvertFails(table, bmp, w, h, mode, colors, r);
    }
  }
}
