/** The linear bitmap writers: screen 5 packs two 4-bit pixels per byte,
    screen 6 four 2-bit pixels per byte, each image line starting a new
    group of bytes; the SIF writer emits a 7-byte header and the screen 5
    bytes without line breaks. */
module Nibbles {

  import opened Types
  import opened Bits
  import opened Bmp

  /** Bits per pixel: four in screen 5 (two pixels per byte), two in
      screen 6 (four pixels per byte). */
  datatype Depth = Four | Two

  /** Pixels packed into one byte. */
  function PerByte(d: Depth): (m: nat)
    ensures m == 2 || m == 4
  {
    match d
    case Four => 2
    case Two => 4
  }

  /** The largest pixel value a byte slot of this depth holds. */
  function MaxPixel(d: Depth): nat
  {
    match d
    case Four => 15
    case Two => 3
  }

  /** `x` followed by zeros up to length `n`. */
  function Pad(x: seq<Index>, n: nat): (p: seq<Index>)
    requires |x| <= n
    ensures |p| == n && p[..|x|] == x
    ensures forall k | |x| <= k < n :: p[k] == 0
  {
    x + seq(n - |x|, _ => 0)
  }

  /** `dot4 | (dot3 << 2) | (dot2 << 4) | (dot1 << 6)`, or-ed left to right. */
  function Crumbs(d1: Index, d2: Index, d3: Index, d4: Index): nat
  {
    Or(Or(Or(d4, d3 as nat * 4), d2 as nat * 16), d1 as nat * 64)
  }

  /** One output byte from a full group of pixels, the first pixel in the
      highest bits: `dot2 | (dot1 << 4)` in screen 5. */
  function PackGroup(d: Depth, g: seq<Index>): nat
    requires |g| == PerByte(d)
  {
    match d
    case Four => Or(g[1], g[0] as nat * 16)
    case Two => Crumbs(g[0], g[1], g[2], g[3])
  }

  /** The bytes of one image line: consecutive groups of pixels, the last
      group of a line whose width is not a multiple of the group size padded
      with zero pixels. */
  function PackRow(d: Depth, s: seq<Index>): (bytes: seq<nat>)
    decreases |s|
  {
    if |s| == 0 then []
    else
      var n := Min(PerByte(d), |s|);
      [PackGroup(d, Pad(s[..n], PerByte(d)))] + PackRow(d, s[n..])
  }

  /** A line has one byte per started group of pixels. */
  lemma {:induction false} PackRowLength(d: Depth, s: seq<Index>)
    ensures |PackRow(d, s)| == (|s| + PerByte(d) - 1) / PerByte(d)
    decreases |s|
  {
    var m := PerByte(d);
    if |s| > 0 {
      var n := Min(m, |s|);
      PackRowLength(d, s[n..]);
      if |s| >= m {
        assert (|s| + m - 1) / m == 1 + (|s| - m + m - 1) / m;
      }
    }
  }

  /** A line cut after a whole number of groups packs as its two parts. */
  lemma {:induction false} PackRowAppend(d: Depth, a: seq<Index>, b: seq<Index>)
    requires |a| % PerByte(d) == 0
    ensures PackRow(d, a + b) == PackRow(d, a) + PackRow(d, b)
    decreases |a|
  {
    var m := PerByte(d);
    if |a| > 0 {
      assert |a| >= m;
      var ab := a + b;
      assert ab[..m] == a[..m];
      assert ab[m..] == a[m..] + b;
      PackRowAppend(d, a[m..], b);
    } else {
      assert a + b == b;
    }
  }

  /** The pixels of one output byte of each depth, first pixel first. */
  function UnpackGroup(d: Depth, b: nat): (g: seq<nat>)
    ensures |g| == PerByte(d)
  {
    match d
    case Four => [b / 16, b % 16]
    case Two => [(b / 64) % 4, (b / 16) % 4, (b / 4) % 4, b % 4]
  }

  /** Reads a line's bytes back into pixels. */
  function UnpackRow(d: Depth, bytes: seq<nat>): (s: seq<nat>)
    ensures |s| == PerByte(d) * |bytes|
  {
    if |bytes| == 0 then [] else UnpackGroup(d, bytes[0]) + UnpackRow(d, bytes[1..])
  }

  /** Every pixel fits the byte slots of its depth. */
  predicate Fits(d: Depth, s: seq<Index>)
  {
    forall k | 0 <= k < |s| :: s[k] <= MaxPixel(d)
  }

  /** A full group of pixels that fit is a byte that unpacks to the group. */
  lemma GroupRoundTrip(d: Depth, g: seq<Index>)
    requires |g| == PerByte(d) && Fits(d, g)
    ensures PackGroup(d, g) < 256
    ensures UnpackGroup(d, PackGroup(d, g)) == g
  {
    match d
    case Four =>
      assert g == [g[0], g[1]];
      NibblesRoundTrip(g[0], g[1]);
    case Two =>
      assert g == [g[0], g[1], g[2], g[3]];
      CrumbsRoundTrip(g[0], g[1], g[2], g[3]);
  }

  /** Two 4-bit pixels are the base-16 digits of their screen 5 byte. */
  lemma NibblesRoundTrip(a: Index, b: Index)
    ensures PackGroup(Four, [a, b]) == 16 * a + b
    ensures UnpackGroup(Four, 16 * a + b) == [a, b]
  {
    assert Or(b, a as nat * 16) == 16 * a + b by {
      Pow2Values();
      OrDisjoint(a, b, 4);
    }
  }

  /** Four 2-bit pixels are the base-4 digits of their screen 6 byte. */
  lemma CrumbsRoundTrip(a: Index, b: Index, c: Index, e: Index)
    requires a <= 3 && b <= 3 && c <= 3 && e <= 3
    ensures Crumbs(a, b, c, e) == 64 * a + 16 * b + 4 * c + e
    ensures UnpackGroup(Two, Crumbs(a, b, c, e)) == [a, b, c, e]
  {
    CrumbsValue(a, b, c, e);
    CrumbDigits(a, b, c, e);
  }

  /** The or-ed shifts of four 2-bit pixels add up. */
  lemma CrumbsValue(a: Index, b: Index, c: Index, e: Index)
    requires a <= 3 && b <= 3 && c <= 3 && e <= 3
    ensures Crumbs(a, b, c, e) == 64 * a + 16 * b + 4 * c + e
  {
    Pow2Values();
    var low := Or(e, c as nat * 4);
    OrPlaced(e, c, 2, 4);
    var mid := Or(low, b as nat * 16);
    OrPlaced(low, b, 4, 16);
    OrPlaced(mid, a, 6, 64);
  }

  /** Or-ing `lo` below `m = 2^k` with `hi` shifted left by `k` adds them. */
  lemma OrPlaced(lo: nat, hi: nat, k: nat, m: nat)
    requires m == Pow2(k) && lo < m
    ensures Or(lo, hi * m) == hi * m + lo
  {
    OrDisjoint(hi, lo, k);
  }

  /** A byte made of four base-4 digits unpacks to those digits. */
  lemma CrumbDigits(a: nat, b: nat, c: nat, e: nat)
    requires a <= 3 && b <= 3 && c <= 3 && e <= 3
    ensures 64 * a + 16 * b + 4 * c + e < 256
    ensures UnpackGroup(Two, 64 * a + 16 * b + 4 * c + e) == [a, b, c, e]
  {
    var v := 64 * a + 16 * b + 4 * c + e;
    assert v / 64 == a;
    assert v / 16 == 4 * a + b;
    assert v / 4 == 16 * a + 4 * b + c;
  }

  /** Every byte of a line whose pixels fit is below 256. */
  lemma {:induction false} RowBytesFit(d: Depth, s: seq<Index>)
    requires Fits(d, s)
    ensures forall k | 0 <= k < |PackRow(d, s)| :: PackRow(d, s)[k] < 256
    decreases |s|
  {
    if |s| > 0 {
      var n := Min(PerByte(d), |s|);
      var g := Pad(s[..n], PerByte(d));
      assert Fits(d, g);
      GroupRoundTrip(d, g);
      assert Fits(d, s[n..]);
      RowBytesFit(d, s[n..]);
    }
  }

  /** The bytes of a line hold at least all of its pixels. */
  lemma RowHoldsPixels(d: Depth, s: seq<Index>)
    ensures |s| <= PerByte(d) * |PackRow(d, s)|
  {
    var m := PerByte(d);
    PackRowLength(d, s);
    var q := (|s| + m - 1) / m;
    assert (|s| + m - 1) - m < m * q;
  }

  /** Unpacking a packed line gives the line back, followed by the zero
      pixels that padded its last byte. */
  lemma {:induction false} RowRoundTrip(d: Depth, s: seq<Index>)
    requires Fits(d, s)
    ensures |s| <= PerByte(d) * |PackRow(d, s)|
    ensures UnpackRow(d, PackRow(d, s)) == Pad(s, PerByte(d) * |PackRow(d, s)|)
    decreases |s|
  {
    RowHoldsPixels(d, s);
    var m := PerByte(d);
    if |s| > 0 {
      var n := Min(m, |s|);
      var g := Pad(s[..n], m);
      var rest := s[n..];
      assert Fits(d, g);
      GroupRoundTrip(d, g);
      assert Fits(d, rest);
      RowRoundTrip(d, rest);
      UnpackCons(d, s);
      var k := |PackRow(d, rest)|;
      assert |PackRow(d, s)| == 1 + k;
      assert m * (1 + k) == m + m * k;
      PadSplit(s, m, m * k);
    }
  }

  /** Unpacking a line's bytes unpacks its first byte, then the rest. */
  lemma UnpackCons(d: Depth, s: seq<Index>)
    requires |s| > 0
    ensures var n := Min(PerByte(d), |s|);
      && |PackRow(d, s)| == 1 + |PackRow(d, s[n..])|
      && UnpackRow(d, PackRow(d, s))
         == UnpackGroup(d, PackGroup(d, Pad(s[..n], PerByte(d)))) + UnpackRow(d, PackRow(d, s[n..]))
  {
    var n := Min(PerByte(d), |s|);
    var bytes := PackRow(d, s);
    assert bytes[1..] == PackRow(d, s[n..]);
  }

  /** A line padded to whole groups is its first group, padded, followed by
      the rest, padded. */
  lemma PadSplit(s: seq<Index>, m: nat, k: nat)
    requires |s| > 0 && m > 0
    requires |s[Min(m, |s|)..]| <= k
    requires |s| < m ==> k == 0
    ensures |s| <= m + k
    ensures Pad(s, m + k) == Pad(s[..Min(m, |s|)], m) + Pad(s[Min(m, |s|)..], k)
  {
    var n := Min(m, |s|);
    if n == m {
      PadConcat(s[..m], s[m..], k);
      assert s[..m] + s[m..] == s;
    } else {
      assert s[..n] == s;
    }
  }

  lemma PadConcat(x: seq<Index>, y: seq<Index>, n: nat)
    requires |y| <= n
    ensures x + Pad(y, n) == Pad(x + y, |x| + n)
  {
  }

  /** With every pixel below 16, a screen 5 byte is the two pixels as its
      high and low nibble. */
  lemma GroupIsJoinNibbles(x: Index, y: Index)
    ensures PackGroup(Four, [x, y]) == JoinNibbles(x, y)
  {
    Pow2Values();
    OrDisjoint(x, y, 4);
  }

  /** Screen 6 packs 2-bit pixels: an index of 4, which the palette check
      admits for screen 6, spills into the neighbouring pixel's bits, so two
      different lines can give the same byte, and a leading 4 gives a value
      that no longer fits a byte. */
  lemma Screen6IndexFour()
    ensures PackRow(Two, [0, 0, 4, 0]) == PackRow(Two, [0, 1, 0, 0]) == [16]
    ensures PackRow(Two, [4]) == [256]
  {
    var a: seq<Index> := [0, 0, 4, 0];
    var b: seq<Index> := [0, 1, 0, 0];
    var c: seq<Index> := [4];
    assert a[..4] == a && a[4..] == [];
    assert b[..4] == b && b[4..] == [];
    assert c[..1] == c && c[1..] == [];
    assert Pad(c, 4) == [4, 0, 0, 0];
  }

  // ------------------------------------------------------------ image rows

  /** Image line `r` of a `w`-pixel-wide image: the pixels the writer treats
      as that line (the last line may be short). */
  function RowOf(data: seq<Index>, w: nat, r: nat): seq<Index>
  {
    data[Min(r * w, |data|)..Min(r * w + w, |data|)]
  }

  /** The number of image lines the writer starts. */
  function RowCount(n: nat, w: nat): nat
  {
    if w == 0 then 0 else (n + w - 1) / w
  }

  /** Reference output of a linear writer: every image line packed on its own. */
  function Rows(d: Depth, data: seq<Index>, w: nat): seq<seq<nat>>
  {
    seq(RowCount(|data|, w), r requires 0 <= r => PackRow(d, RowOf(data, w, r)))
  }

  /** The packed image lines before pixel `base`, the start of a line:
      each line of `w` pixels packed on its own. */
  ghost function Done(d: Depth, data: seq<Index>, w: nat, base: nat): seq<seq<nat>>
    requires base <= |data|
    decreases base
  {
    if w == 0 || base < w then [] else Done(d, data, w, base - w) + [PackRow(d, data[base - w..base])]
  }

  /** The bytes of the line the writer is in, pixels `base .. i - 1`, once
      it has started one. */
  ghost function Open(d: Depth, data: seq<Index>, base: nat, i: nat): seq<seq<nat>>
    requires base <= i <= |data|
  {
    if i > base then [PackRow(d, data[base..i])] else []
  }

  /** What the writer has produced when it stands at pixel `i` of the line
      that starts at pixel `base`. */
  ghost function Written(d: Depth, data: seq<Index>, w: nat, base: nat, i: nat): seq<seq<nat>>
    requires base <= i <= |data|
  {
    Done(d, data, w, base) + Open(d, data, base, i)
  }

  /** The bytes of the line that starts at `base` before column `c`: none
      before the line starts. */
  ghost function Front(d: Depth, data: seq<Index>, base: nat, c: nat): seq<nat>
    requires base + c <= |data|
  {
    if c > 0 then PackRow(d, data[base..base + c]) else []
  }

  lemma DivMod(r: nat, w: nat, c: nat)
    requires 0 <= c < w
    ensures (r * w + c) / w == r && (r * w + c) % w == c
  {
    var q, m := (r * w + c) / w, (r * w + c) % w;
    assert q * w + m == r * w + c;
    if q > r {
      MulLe(r + 1, q, w);
      assert false;
    } else if q < r {
      MulLe(q + 1, r, w);
      assert false;
    }
  }

  /** In the writer's loop `i % w` is the column `c` of the pixel
      `i = base + c`, and it wraps to 0 exactly at the end of a line. */
  lemma ColumnOf(base: nat, w: nat, c: nat)
    requires 0 <= c <= w && w > 0 && base % w == 0
    ensures (base + c) % w == (if c == w then 0 else c)
  {
    var r := base / w;
    assert base == r * w;
    if c == w {
      assert base + c == (r + 1) * w + 0;
      DivMod(r + 1, w, 0);
    } else {
      DivMod(r, w, c);
    }
  }

  /** Multiples of `m` below one another are at least `m` apart. */
  lemma MultipleGap(m: nat, c: nat, p: nat)
    requires m > 0 && c % m == 0 && p % m == 0 && c < p
    ensures c + m <= p
  {
    var a, b := c / m, p / m;
    assert c == m * a && p == m * b;
    if a + 1 > b {
      MulLe(b, a, m);
    }
    assert a + 1 <= b;
    MulLe(a + 1, b, m);
    assert (a + 1) * m == m * a + m;
  }

  /** A line start at or before the last pixel leaves fewer than `w` pixels
      only when it is the start of the short last line. */
  lemma LastLine(n: nat, w: nat, base: nat)
    requires w > 0 && base % w == 0 && base <= n < base + w
    ensures n % w == n - base
  {
    var r := base / w;
    assert base == r * w;
    DivMod(r, w, n - base);
  }

  /** When the last line has a whole number of groups, every pixel the
      writer reads inside the current group exists. */
  lemma GroupInRange(n: nat, w: nat, m: nat, base: nat, c: nat, q: nat)
    requires w > 0 && m > 0 && (n % w) % m == 0 && base % w == 0
    requires c % m == 0 && c < w && base + c < n
    requires q < m && c + q < w
    ensures base + c + q < n
  {
    if n < base + w {
      LastLine(n, w, base);
      MultipleGap(m, c, n - base);
    }
  }

  lemma NextMultiple(m: nat, c: nat)
    requires m > 0 && c % m == 0
    ensures (c + m) % m == 0
  {
    var q := c / m;
    assert c == q * m;
    assert c + m == (q + 1) * m + 0;
    DivMod(q + 1, m, 0);
  }

  /** Line `r` of an image that holds it completely. */
  lemma RowOfFull(data: seq<Index>, w: nat, r: nat)
    requires r * w + w <= |data|
    ensures RowOf(data, w, r) == data[r * w..r * w + w]
  {
  }

  /** A line's bytes grow group by group: the group of pixels `c .. e - 1`,
      padded, is one more byte after those of pixels `0 .. c - 1`. */
  lemma RowStep(d: Depth, s: seq<Index>, c: nat)
    requires c % PerByte(d) == 0 && c < |s| <= c + PerByte(d)
    ensures PackRow(d, s) == PackRow(d, s[..c]) + [PackGroup(d, Pad(s[c..], PerByte(d)))]
  {
    var m := PerByte(d);
    var a, b := s[..c], s[c..];
    assert s == a + b;
    PackRowAppend(d, a, b);
    assert PackRow(d, b) == [PackGroup(d, Pad(b, m))] by {
      assert Min(m, |b|) == |b|;
      assert b[..|b|] == b && b[|b|..] == [];
    }
  }

  lemma SliceOfSlice(data: seq<Index>, base: nat, c: nat, e: nat)
    requires c <= e && base + e <= |data|
    ensures data[base..base + e][..c] == data[base..base + c]
    ensures data[base..base + e][c..] == data[base + c..base + e]
  {
  }

  /** RowStep on the pixels `base .. base + e - 1` of the image. */
  lemma SliceStep(d: Depth, data: seq<Index>, base: nat, c: nat, e: nat)
    requires c % PerByte(d) == 0 && c < e <= c + PerByte(d) && base + e <= |data|
    ensures PackRow(d, data[base..base + e])
      == PackRow(d, data[base..base + c]) + [PackGroup(d, Pad(data[base + c..base + e], PerByte(d)))]
  {
    SliceOfSlice(data, base, c, e);
    RowStep(d, data[base..base + e], c);
  }

  /** The line that starts at `base`, up to the group `c .. e - 1`: the
      bytes before the group and the group's byte. */
  lemma FrontStep(d: Depth, data: seq<Index>, base: nat, c: nat, e: nat)
    requires c % PerByte(d) == 0 && c < e <= c + PerByte(d) && base + e <= |data|
    ensures PackRow(d, data[base..base + e]) ==
      Front(d, data, base, c) + [PackGroup(d, Pad(data[base + c..base + e], PerByte(d)))]
  {
    if c == 0 {
      assert data[base..base + c] == [];
    }
    SliceStep(d, data, base, c, e);
  }

  /** Rows whose concatenation is the writer's byte stream. */
  ghost function Flatten(rows: seq<seq<nat>>): seq<nat>
  {
    if |rows| == 0 then [] else Flatten(rows[..|rows| - 1]) + rows[|rows| - 1]
  }

  lemma FlattenSnoc(rows: seq<seq<nat>>, x: seq<nat>)
    ensures Flatten(rows + [x]) == Flatten(rows) + x
  {
    assert (rows + [x])[..|rows|] == rows;
  }

  /** The end of the group the writer packs at column `c`. */
  function GroupEnd(d: Depth, w: nat, c: nat): nat
  {
    Min(c + PerByte(d), w)
  }

  /** The line start after a group that ends at column `e`. */
  function NextBase(w: nat, base: nat, e: nat): nat
  {
    if e == w then base + w else base
  }

  /** The column after a group that ends at column `e`. */
  function NextColumn(w: nat, e: nat): nat
  {
    if e == w then 0 else e
  }

  /** The writer's output lines after one byte: a new line is opened first
      when `newLine`, and the byte ends the last line. */
  function Grow(rows: seq<seq<nat>>, newLine: bool, b: nat): seq<seq<nat>>
    requires newLine || |rows| > 0
  {
    var grown := if newLine then rows + [[]] else rows;
    grown[..|grown| - 1] + [grown[|grown| - 1] + [b]]
  }

  /** Growing the lines produced so far adds the byte to the open line. */
  lemma AppendToOpen(full: seq<seq<nat>>, open: seq<seq<nat>>, row: seq<nat>, b: nat)
    requires open == [] || open == [row]
    requires open == [] ==> row == []
    ensures Grow(full + open, open == [], b) == full + [row + [b]]
  {
    var before := full + open;
    var grown := if open == [] then before + [[]] else before;
    assert grown == full + [row];
    assert grown[..|grown| - 1] == full;
  }

  /** Growing what the writer has produced at column `c`. */
  lemma GrowWritten(d: Depth, data: seq<Index>, w: nat, base: nat, c: nat, b: nat)
    requires base + c <= |data|
    ensures Grow(Written(d, data, w, base, base + c), c == 0, b)
      == Done(d, data, w, base) + [Front(d, data, base, c) + [b]]
  {
    AppendToOpen(Done(d, data, w, base), Open(d, data, base, base + c), Front(d, data, base, c), b);
  }

  /** Where the writer stands after the group that starts at column `c`. */
  lemma NextState(d: Depth, w: nat, base: nat, c: nat)
    requires w > 0 && c < w && c % PerByte(d) == 0 && base % w == 0
    ensures var e := GroupEnd(d, w, c);
      && NextBase(w, base, e) % w == 0 && NextBase(w, base, e) + NextColumn(w, e) == base + e
      && NextColumn(w, e) < w && NextColumn(w, e) % PerByte(d) == 0
  {
    if c + PerByte(d) < w {
      NextMultiple(PerByte(d), c);
    } else {
      NextMultiple(w, base);
    }
  }

  /** The group's byte ends the open line, which then holds the line's
      pixels up to the group's end. */
  lemma GrowWithin(d: Depth, data: seq<Index>, w: nat, base: nat, c: nat, e: nat, b: nat)
    requires c % PerByte(d) == 0 && c < e <= c + PerByte(d) && base + e <= |data|
    requires b == PackGroup(d, Pad(data[base + c..base + e], PerByte(d)))
    ensures Grow(Written(d, data, w, base, base + c), c == 0, b) == Written(d, data, w, base, base + e)
  {
    FrontStep(d, data, base, c, e);
    GrowWritten(d, data, w, base, c, b);
  }

  /** A line whose last group is written is done. */
  lemma CloseLine(d: Depth, data: seq<Index>, w: nat, base: nat)
    requires w > 0 && base + w <= |data|
    ensures Written(d, data, w, base, base + w) == Written(d, data, w, base + w, base + w)
  {
    DoneSnoc(d, data, w, base + w);
  }

  /** The finished lines up to a line end are those up to the line's start
      and the line itself. */
  lemma DoneSnoc(d: Depth, data: seq<Index>, w: nat, base: nat)
    requires 0 < w <= base <= |data|
    ensures Done(d, data, w, base) == Done(d, data, w, base - w) + [PackRow(d, data[base - w..base])]
  {
  }

  /** One writer step on lines of bytes: a line is opened at the first
      group of an image line, the group's byte ends the last line, and a
      line whose last group is written is done. */
  lemma AdvanceRows(d: Depth, data: seq<Index>, w: nat, base: nat, c: nat, b: nat, rows: seq<seq<nat>>, i: nat)
    requires w > 0 && c < w && c % PerByte(d) == 0 && base % w == 0
    requires i == base + GroupEnd(d, w, c) <= |data|
    requires b == PackGroup(d, Pad(data[base + c..i], PerByte(d)))
    requires rows == Written(d, data, w, base, base + c)
    ensures var e := GroupEnd(d, w, c);
      && NextBase(w, base, e) % w == 0 && NextBase(w, base, e) + NextColumn(w, e) == i
      && NextColumn(w, e) < w && NextColumn(w, e) % PerByte(d) == 0
    ensures c == 0 || |rows| > 0
    ensures Grow(rows, c == 0, b) == Written(d, data, w, NextBase(w, base, GroupEnd(d, w, c)), i)
  {
    var e := GroupEnd(d, w, c);
    NextState(d, w, base, c);
    GrowWithin(d, data, w, base, c, e, b);
    if e == w {
      CloseLine(d, data, w, base);
      assert NextBase(w, base, e) == i;
    } else {
      assert NextBase(w, base, e) == base;
    }
  }

  /** The line before a line start past the first is a full line. */
  lemma PrevLine(data: seq<Index>, w: nat, base: nat)
    requires w > 0 && base % w == 0 && w <= base <= |data|
    ensures (base - w) % w == 0 && (base - w) / w == base / w - 1
    ensures RowOf(data, w, base / w - 1) == data[base - w..base]
  {
    var q := base / w;
    assert base == q * w;
    assert base - w == (q - 1) * w;
    DivMod(q - 1, w, 0);
    RowOfFull(data, w, q - 1);
  }

  /** The finished lines are the first lines of the reference output. */
  lemma {:induction false} DoneRows(d: Depth, data: seq<Index>, w: nat, base: nat)
    requires w > 0 && base % w == 0 && base <= |data|
    ensures |Done(d, data, w, base)| == base / w
    ensures forall k | 0 <= k < base / w :: Done(d, data, w, base)[k] == PackRow(d, RowOf(data, w, k))
    decreases base
  {
    if base >= w {
      var prev := base - w;
      PrevLine(data, w, base);
      DoneRows(d, data, w, prev);
      DoneSnoc(d, data, w, base);
      var done, before := Done(d, data, w, base), Done(d, data, w, prev);
      assert |done| == base / w;
      forall k | 0 <= k < base / w
        ensures done[k] == PackRow(d, RowOf(data, w, k))
      {
        if k < prev / w {
          assert done[k] == before[k];
        } else {
          assert done[k] == PackRow(d, data[prev..base]);
        }
      }
    } else {
      assert base / w == 0;
    }
  }

  /** The line count of an image that ends at column `c` of the line that
      starts at `base`: the lines before it, and that line if it has pixels. */
  lemma RowCountAt(n: nat, w: nat, base: nat, c: nat)
    requires w > 0 && base % w == 0 && c < w && base + c == n
    ensures RowCount(n, w) == base / w + (if c > 0 then 1 else 0)
  {
    var q := base / w;
    assert base == q * w;
    if c == 0 {
      DivMod(q, w, w - 1);
    } else {
      assert (q + 1) * w == q * w + w;
      DivMod(q + 1, w, c - 1);
    }
  }

  /** The short last line of an image is the pixels after its last line start. */
  lemma LastRowOf(data: seq<Index>, w: nat, base: nat)
    requires w > 0 && base % w == 0 && base <= |data| < base + w
    ensures RowOf(data, w, base / w) == data[base..]
  {
    var q := base / w;
    assert base == q * w;
  }

  /** When the writer has consumed all pixels it has written every line of
      the reference output. */
  lemma WrittenDone(d: Depth, data: seq<Index>, w: nat, base: nat, c: nat)
    requires w > 0 && base % w == 0 && c < w && base + c == |data|
    ensures Written(d, data, w, base, |data|) == Rows(d, data, w)
  {
    DoneRows(d, data, w, base);
    RowCountAt(|data|, w, base, c);
    if c > 0 {
      LastRowOf(data, w, base);
      assert data[base..|data|] == data[base..];
    }
  }

  /** Opening an empty line of bytes leaves the stream as it is. */
  lemma FlattenOpen(rows: seq<seq<nat>>)
    ensures Flatten(rows + [[]]) == Flatten(rows)
  {
    FlattenSnoc(rows, []);
  }

  /** A byte added to the last line of bytes is added to the end of the stream. */
  lemma FlattenLast(rows: seq<seq<nat>>, b: nat)
    requires |rows| > 0
    ensures Flatten(rows[..|rows| - 1] + [rows[|rows| - 1] + [b]]) == Flatten(rows) + [b]
  {
    var init, last := rows[..|rows| - 1], rows[|rows| - 1];
    FlattenSnoc(init, last + [b]);
    AppendAssoc(Flatten(init), last, b);
  }

  lemma AppendAssoc(x: seq<nat>, y: seq<nat>, b: nat)
    ensures x + (y + [b]) == (x + y) + [b]
  {
  }

  /** A byte the writer adds, in a new line or the last one, is added to
      the end of the stream. */
  lemma FlattenGrow(rows: seq<seq<nat>>, newLine: bool, b: nat)
    requires newLine || |rows| > 0
    ensures Flatten(Grow(rows, newLine, b)) == Flatten(rows) + [b]
  {
    var grown := if newLine then rows + [[]] else rows;
    if newLine {
      FlattenOpen(rows);
    }
    FlattenLast(grown, b);
  }

  /** The two pixels the screen 5 and SIF writers read at column `c` are
      the group that ends at GroupEnd, padded. */
  lemma PairGroup(data: seq<Index>, w: nat, base: nat, c: nat, dot1: Index, dot2: Index)
    requires c < w && base + GroupEnd(Four, w, c) <= |data|
    requires dot1 == data[base + c]
    requires dot2 == if c + 1 < w then data[base + c + 1] else 0
    ensures [dot1, dot2] == Pad(data[base + c..base + GroupEnd(Four, w, c)], 2)
  {
  }

  /** The four pixels the screen 6 writer reads at column `c` are the group
      that ends at GroupEnd, padded. */
  lemma QuadGroup(data: seq<Index>, w: nat, base: nat, c: nat, dots: seq<Index>)
    requires c < w && base + GroupEnd(Two, w, c) <= |data| && |dots| == 4
    requires dots[0] == data[base + c]
    requires forall q | 1 <= q < 4 :: dots[q] == if c + q < w then data[base + c + q] else 0
    ensures dots == Pad(data[base + c..base + GroupEnd(Two, w, c)], 4)
  {
  }

  /** The tests the screen 5 and SIF writers make at pixel `i`, column `c`
      of the line that starts at `base`: a new line starts exactly at column
      0, a second pixel is read exactly when the line has one, and it exists. */
  lemma PairReads(n: nat, w: nat, base: nat, c: nat, i: nat)
    requires w > 0 && (n % w) % 2 == 0 && base % w == 0
    requires c < w && c % 2 == 0 && i == base + c && i < n
    ensures (i % w == 0) == (c == 0)
    ensures ((i + 1) % w != 0) == (c + 1 < w)
    ensures c + 1 < w ==> i + 1 < n
    ensures base + GroupEnd(Four, w, c) <= n
  {
    ColumnOf(base, w, c);
    ColumnOf(base, w, c + 1);
    if c + 1 < w {
      GroupInRange(n, w, 2, base, c, 1);
    }
  }

  /** The tests the screen 6 writer makes at pixel `i`, column `c` of the
      line that starts at `base`: pixel `c + q` is read exactly when the line
      has it, and it exists. */
  lemma QuadReads(n: nat, w: nat, base: nat, c: nat, i: nat)
    requires w > 0 && (n % w) % 4 == 0 && base % w == 0
    requires c < w && c % 4 == 0 && i == base + c && i < n
    ensures (i % w == 0) == (c == 0)
    ensures ((i + 1) % w != 0) == (c + 1 < w)
    ensures c + 1 < w ==> ((i + 2) % w != 0) == (c + 2 < w)
    ensures c + 2 < w ==> ((i + 3) % w != 0) == (c + 3 < w)
    ensures c + 1 < w ==> i + 1 < n
    ensures c + 2 < w ==> i + 2 < n
    ensures c + 3 < w ==> i + 3 < n
    ensures base + GroupEnd(Two, w, c) <= n
  {
    ColumnOf(base, w, c);
    ColumnOf(base, w, c + 1);
    if c + 1 < w {
      ColumnOf(base, w, c + 2);
      GroupInRange(n, w, 4, base, c, 1);
    }
    if c + 2 < w {
      ColumnOf(base, w, c + 3);
      GroupInRange(n, w, 4, base, c, 2);
    }
    if c + 3 < w {
      GroupInRange(n, w, 4, base, c, 3);
    }
  }

  // -------------------------------------------------------------- screen 5

  /** One screen 5 byte at pixel `i`, column `c` of the line that starts at
      `base`: the pixel in the high nibble and, unless it ends its line, the
      next pixel in the low nibble. The byte is the line's group packed as
      in the reference, and `next` is the pixel after the group. */
  method PairByte(data: seq<Index>, w: nat, i: nat, ghost base: nat, ghost c: nat) returns (b: nat, next: nat)
    requires w > 0 && (|data| % w) % 2 == 0 && base % w == 0
    requires c < w && c % 2 == 0 && i == base + c && i < |data|
    ensures next == base + GroupEnd(Four, w, c) <= |data|
    ensures b == PackGroup(Four, Pad(data[i..next], 2))
  {
    PairReads(|data|, w, base, c, i);
    var dot1 := data[i];
    var dot2 := 0;
    next := i;
    if (i + 1) % w != 0 {
      dot2 := data[i + 1];
      next := next + 1;
    }
    next := next + 1;
    b := Or(dot2, dot1 as nat * 16);
    PairGroup(data, w, base, c, dot1, dot2);
  }

  /** One pass of the screen 5 writer's loop at pixel `i`, column `c` of
      the line that starts at `base`: a new line of bytes at column 0, then
      the group's byte at the end of the last line. */
  method Screen5Step(data: seq<Index>, w: nat, rows: seq<seq<nat>>, i: nat, ghost base: nat, ghost c: nat)
    returns (rows': seq<seq<nat>>, next: nat)
    requires w > 0 && (|data| % w) % 2 == 0 && base % w == 0
    requires c < w && c % 2 == 0 && i == base + c && i < |data|
    requires rows == Written(Four, data, w, base, i)
    ensures var e := GroupEnd(Four, w, c);
      && next == base + e <= |data|
      && NextBase(w, base, e) % w == 0 && NextBase(w, base, e) + NextColumn(w, e) == next
      && NextColumn(w, e) < w && NextColumn(w, e) % 2 == 0
    ensures rows' == Written(Four, data, w, NextBase(w, base, GroupEnd(Four, w, c)), next)
  {
    ColumnOf(base, w, c);
    var newLine := i % w == 0;
    var b;
    b, next := PairByte(data, w, i, base, c);
    AdvanceRows(Four, data, w, base, c, b, rows, next);
    rows' := Grow(rows, newLine, b);
  }

  /** The screen 5 writer: a new line of bytes at every image line, two
      pixels per byte, the first in the high nibble; an odd last pixel of a
      line is paired with 0. Its lines are exactly the image lines packed
      on their own. */
  method Screen5(data: seq<Index>, w: nat) returns (rows: seq<seq<nat>>)
    requires w == 0 ==> |data| == 0
    requires w > 0 ==> (|data| % w) % 2 == 0
    ensures rows == Rows(Four, data, w)
  {
    rows := [];
    var i := 0;
    ghost var base: nat, c: nat := 0, 0;
    while i < |data|
      invariant w == 0 ==> i == |data|
      invariant i == base + c && i <= |data|
      invariant w > 0 ==> base % w == 0 && c < w && c % 2 == 0
      invariant rows == Written(Four, data, w, base, i)
      decreases |data| - i
    {
      ghost var e := GroupEnd(Four, w, c);
      rows, i := Screen5Step(data, w, rows, i, base, c);
      base, c := NextBase(w, base, e), NextColumn(w, e);
    }
    if w > 0 {
      WrittenDone(Four, data, w, base, c);
    }
  }

  // -------------------------------------------------------------- screen 6

  /** One screen 6 byte at pixel `i`, column `c` of the line that starts at
      `base`: up to four pixels, two bits each, the first in the highest
      bits, reading stops at the line's end and the missing pixels count as
      0. The byte is the line's group packed as in the reference, and `next`
      is the pixel after the group. */
  method QuadByte(data: seq<Index>, w: nat, i: nat, ghost base: nat, ghost c: nat) returns (b: nat, next: nat)
    requires w > 0 && (|data| % w) % 4 == 0 && base % w == 0
    requires c < w && c % 4 == 0 && i == base + c && i < |data|
    ensures next == base + GroupEnd(Two, w, c) <= |data|
    ensures b == PackGroup(Two, Pad(data[i..next], 4))
  {
    QuadReads(|data|, w, base, c, i);
    var dot1 := data[i];
    var dot2, dot3, dot4 := 0, 0, 0;
    var j := 0;
    if (i + 1) % w != 0 {
      dot2 := data[i + 1];
      j := j + 1;
    }
    if (i + 1) % w != 0 && (i + 2) % w != 0 {
      dot3 := data[i + 2];
      j := j + 1;
    }
    if (i + 1) % w != 0 && (i + 2) % w != 0 && (i + 3) % w != 0 {
      dot4 := data[i + 3];
      j := j + 1;
    }
    next := i + 1 + j;
    b := Or(Or(Or(dot4, dot3 as nat * 4), dot2 as nat * 16), dot1 as nat * 64);
    QuadGroup(data, w, base, c, [dot1, dot2, dot3, dot4]);
  }

  /** One pass of the screen 6 writer's loop at pixel `i`, column `c` of
      the line that starts at `base`: a new line of bytes at column 0, then
      the group's byte at the end of the last line. */
  method Screen6Step(data: seq<Index>, w: nat, rows: seq<seq<nat>>, i: nat, ghost base: nat, ghost c: nat)
    returns (rows': seq<seq<nat>>, next: nat)
    requires w > 0 && (|data| % w) % 4 == 0 && base % w == 0
    requires c < w && c % 4 == 0 && i == base + c && i < |data|
    requires rows == Written(Two, data, w, base, i)
    ensures var e := GroupEnd(Two, w, c);
      && next == base + e <= |data|
      && NextBase(w, base, e) % w == 0 && NextBase(w, base, e) + NextColumn(w, e) == next
      && NextColumn(w, e) < w && NextColumn(w, e) % 4 == 0
    ensures rows' == Written(Two, data, w, NextBase(w, base, GroupEnd(Two, w, c)), next)
  {
    ColumnOf(base, w, c);
    var newLine := i % w == 0;
    var b;
    b, next := QuadByte(data, w, i, base, c);
    AdvanceRows(Two, data, w, base, c, b, rows, next);
    rows' := Grow(rows, newLine, b);
  }

  /** The screen 6 writer: a new line of bytes at every image line, four
      pixels per byte, the first in the two highest bits; the pixels missing
      from a line's last group count as 0. Its lines are exactly the image
      lines packed on their own. */
  method Screen6(data: seq<Index>, w: nat) returns (rows: seq<seq<nat>>)
    requires w == 0 ==> |data| == 0
    requires w > 0 ==> (|data| % w) % 4 == 0
    ensures rows == Rows(Two, data, w)
  {
    rows := [];
    var i := 0;
    ghost var base: nat, c: nat := 0, 0;
    while i < |data|
      invariant w == 0 ==> i == |data|
      invariant i == base + c && i <= |data|
      invariant w > 0 ==> base % w == 0 && c < w && c % 4 == 0
      invariant rows == Written(Two, data, w, base, i)
      decreases |data| - i
    {
      ghost var e := GroupEnd(Two, w, c);
      rows, i := Screen6Step(data, w, rows, i, base, c);
      base, c := NextBase(w, base, e), NextColumn(w, e);
    }
    if w > 0 {
      WrittenDone(Two, data, w, base, c);
    }
  }

  // ------------------------------------------------------------------- SIF

  /** The SIF header: "SIF", the width rounded up to even and the absolute
      height, each as two little-endian bytes. */
  function SifHeader(w: nat, h: int): (bs: seq<Byte>)
    requires w + w % 2 < 0x1_0000 && Abs(h) < 0x1_0000
    ensures |bs| == 7 && bs[..3] == [0x53, 0x49, 0x46]
    ensures LittleEndian(bs[3..5]) == w + w % 2 && LittleEndian(bs[5..7]) == Abs(h)
  {
    Pow256Values();
    var bs := [0x53, 0x49, 0x46] + ToLittleEndian(w + w % 2, 2) + ToLittleEndian(Abs(h), 2);
    assert bs[3..5] == ToLittleEndian(w + w % 2, 2);
    assert bs[5..7] == ToLittleEndian(Abs(h), 2);
    LittleEndianRoundTrip(w + w % 2, 2);
    LittleEndianRoundTrip(Abs(h), 2);
    bs
  }

  /** The header width is even and counts the nibbles of every full line of
      the body: a full line of a `w`-wide image is `(w + w % 2) / 2` bytes. */
  lemma SifWidthMatchesRows(data: seq<Index>, w: nat, r: nat)
    requires w > 0 && r * w + w <= |data|
    ensures (w + w % 2) % 2 == 0 && w <= w + w % 2
    ensures 2 * |PackRow(Four, RowOf(data, w, r))| == w + w % 2
  {
    RowOfFull(data, w, r);
    var line := RowOf(data, w, r);
    assert |line| == w;
    PackRowLength(Four, line);
    HalfUp(w);
  }

  /** Half of `w` rounded up, doubled, is `w` rounded up to even. */
  lemma HalfUp(w: nat)
    ensures 2 * ((w + 2 - 1) / 2) == w + w % 2
  {
  }

  /** One SIF body byte at pixel `i`: the pixel in the high nibble and, at
      the first pixel or unless the pixel ends its line, the next pixel in
      the low nibble. From a line start `base` and column `c` of an image
      wider than one pixel this is the screen 5 byte; otherwise the first
      byte takes pixels 0 and 1 and every later byte one pixel. */
  method SifPair(data: seq<Index>, w: nat, i: nat, ghost base: nat, ghost c: nat) returns (b: nat, next: nat)
    requires i < |data|
    requires w < 2 ==> (i == 0 ==> |data| >= 2) && (i > 0 ==> w == 1)
    requires w >= 2 ==> (|data| % w) % 2 == 0 && base % w == 0 && c < w && c % 2 == 0 && i == base + c
    ensures w < 2 ==> next == (if i == 0 then 2 else i + 1)
    ensures w < 2 ==> b == JoinNibbles(data[i], if i == 0 then data[1] else 0)
    ensures w >= 2 ==> next == base + GroupEnd(Four, w, c) <= |data|
    ensures w >= 2 ==> b == PackGroup(Four, Pad(data[i..next], 2))
  {
    if w >= 2 {
      PairReads(|data|, w, base, c, i);
    }
    var dot1 := data[i];
    var dot2 := 0;
    next := i;
    if i == 0 || (i + 1) % w != 0 {
      dot2 := data[i + 1];
      next := next + 1;
    }
    next := next + 1;
    b := Or(dot2, dot1 as nat * 16);
    GroupIsJoinNibbles(dot1, dot2);
    if w >= 2 {
      PairGroup(data, w, base, c, dot1, dot2);
    }
  }

  /** The SIF writer's progress on an image at most one pixel wide: the
      first byte holds pixels 0 and 1, every later byte one pixel. */
  ghost predicate NarrowState(data: seq<Index>, w: nat, bytes: seq<nat>, i: nat)
  {
    && i <= |data| && i != 1
    && (w == 0 ==> i == 0 || i == |data|)
    && (i == 0 ==> bytes == [])
    && (i >= 2 ==>
      && |bytes| == i - 1
      && bytes[0] == JoinNibbles(data[0], data[1])
      && forall k | 1 <= k < |bytes| :: bytes[k] == JoinNibbles(data[k + 1], 0))
  }

  /** The SIF writer's progress on a wider image, at pixel `i`, column `c`
      of the line that starts at `base`: its bytes are those of the lines
      written so far. */
  ghost predicate WideState(data: seq<Index>, w: nat, bytes: seq<nat>, i: nat, base: nat, c: nat, rows: seq<seq<nat>>)
  {
    && w > 0 && i == base + c && i <= |data|
    && base % w == 0 && c < w && c % 2 == 0
    && rows == Written(Four, data, w, base, i) && bytes == Flatten(rows)
  }

  lemma NarrowStep(data: seq<Index>, w: nat, bytes: seq<nat>, i: nat, b: nat, next: nat)
    requires w == 0 ==> |data| == 0 || |data| == 2
    requires w == 1 ==> |data| != 1
    requires w < 2 && NarrowState(data, w, bytes, i) && i < |data|
    requires next == (if i == 0 then 2 else i + 1)
    requires b == JoinNibbles(data[i], if i == 0 then data[1] else 0)
    ensures NarrowState(data, w, bytes + [b], next)
  {
  }

  lemma WideStep(data: seq<Index>, w: nat, bytes: seq<nat>, i: nat, base: nat, c: nat, rows: seq<seq<nat>>, b: nat, next: nat)
    returns (base': nat, c': nat, rows': seq<seq<nat>>)
    requires WideState(data, w, bytes, i, base, c, rows) && i < |data|
    requires next == base + GroupEnd(Four, w, c) <= |data|
    requires b == PackGroup(Four, Pad(data[i..next], 2))
    ensures WideState(data, w, bytes + [b], next, base', c', rows')
  {
    AdvanceRows(Four, data, w, base, c, b, rows, next);
    FlattenGrow(rows, c == 0, b);
    rows' := Grow(rows, c == 0, b);
    var e := GroupEnd(Four, w, c);
    base', c' := NextBase(w, base, e), NextColumn(w, e);
  }

  /** The SIF body writer. After the first byte it pairs pixels as the
      screen 5 writer does, but its first byte always takes pixels 0 and 1:
      for images wider than one pixel this is the screen 5 byte stream; a
      one-pixel-wide image gets pixels 0 and 1 in its first byte and one
      pixel per byte after that. */
  method SifBody(data: seq<Index>, w: nat) returns (bytes: seq<nat>)
    requires w == 0 ==> |data| == 0 || |data| == 2
    requires w == 1 ==> |data| != 1
    requires w >= 2 ==> (|data| % w) % 2 == 0
    ensures w >= 2 ==> bytes == Flatten(Rows(Four, data, w))
    ensures w < 2 && |data| == 0 ==> bytes == []
    ensures w < 2 && |data| >= 2 ==>
      && |bytes| == |data| - 1
      && bytes[0] == JoinNibbles(data[0], data[1])
      && forall k | 1 <= k < |bytes| :: bytes[k] == JoinNibbles(data[k + 1], 0)
  {
    bytes := [];
    var i := 0;
    ghost var base: nat, c: nat := 0, 0;
    ghost var rows: seq<seq<nat>> := [];
    while i < |data|
      invariant i <= |data|
      invariant w < 2 ==> NarrowState(data, w, bytes, i)
      invariant w >= 2 ==> WideState(data, w, bytes, i, base, c, rows)
      decreases |data| - i
    {
      ghost var i0 := i;
      var b;
      b, i := SifPair(data, w, i, base, c);
      if w >= 2 {
        base, c, rows := WideStep(data, w, bytes, i0, base, c, rows, b, i);
      } else {
        NarrowStep(data, w, bytes, i0, b, i);
      }
      bytes := bytes + [b];
    }
    SifDone(data, w, bytes, base, c, rows);
  }

  /** Once the SIF writer has passed the last pixel, its bytes are the
      whole body. */
  lemma SifDone(data: seq<Index>, w: nat, bytes: seq<nat>, base: nat, c: nat, rows: seq<seq<nat>>)
    requires w == 0 ==> |data| == 0 || |data| == 2
    requires w == 1 ==> |data| != 1
    requires w < 2 ==> NarrowState(data, w, bytes, |data|)
    requires w >= 2 ==> WideState(data, w, bytes, |data|, base, c, rows)
    ensures w >= 2 ==> bytes == Flatten(Rows(Four, data, w))
    ensures w < 2 && |data| == 0 ==> bytes == []
    ensures w < 2 && |data| >= 2 ==>
      && |bytes| == |data| - 1
      && bytes[0] == JoinNibbles(data[0], data[1])
      && forall k | 1 <= k < |bytes| :: bytes[k] == JoinNibbles(data[k + 1], 0)
  {
    if w >= 2 {
      WrittenDone(Four, data, w, base, c);
    }
  }

  /** The SIF file: header, then body. */
  method Sif(data: seq<Index>, w: nat, h: int) returns (file: seq<nat>)
    requires w + w % 2 < 0x1_0000 && Abs(h) < 0x1_0000
    requires w == 0 ==> |data| == 0 || |data| == 2
    requires w == 1 ==> |data| != 1
    requires w >= 2 ==> (|data| % w) % 2 == 0
    ensures |file| >= 7 && file[..7] == SifHeader(w, h)
    ensures w >= 2 ==> file[7..] == Flatten(Rows(Four, data, w))
    ensures w < 2 && |data| == 0 ==> |file| == 7
    ensures w < 2 && |data| >= 2 ==>
      && |file| == 7 + |data| - 1
      && file[7] == JoinNibbles(data[0], data[1])
      && forall k | 8 <= k < |file| :: file[k] == JoinNibbles(data[k - 6], 0)
  {
    var body := SifBody(data, w);
    file := SifHeader(w, h) + body;
    assert file[7..] == body;
  }

  /** A line of one pixel is one byte with the pixel in the high nibble. */
  lemma SinglePixelRow(x: Index)
    ensures PackRow(Four, [x]) == [x * 16]
  {
    var s: seq<Index> := [x];
    assert s[..1] == s && s[1..] == [];
    assert Pad(s, 2) == [x, 0];
  }

  /** A one-pixel-wide image shows where SIF and screen 5 part: pixels 1 and
      2 stacked give the SIF byte 0x12 but the screen 5 lines 0x10 and 0x20. */
  lemma SifNarrowImage()
    ensures JoinNibbles(1, 2) == 0x12
    ensures Rows(Four, [1, 2], 1) == [[0x10], [0x20]]
  {
    var data: seq<Index> := [1, 2];
    Pow2Values();
    OrDisjoint(1, 2, 4);
    assert RowOf(data, 1, 0) == [1] && RowOf(data, 1, 1) == [2];
    SinglePixelRow(1);
    SinglePixelRow(2);
    var rows := Rows(Four, data, 1);
    assert |rows| == 2;
    assert rows[0] == [0x10] && rows[1] == [0x20];
  }
}
