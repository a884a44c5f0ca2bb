/** Integer bit arithmetic as the converter uses it: Python's `|` on
    non-negative integers, left shifts, and the shift register that packs
    one pixel per bit, most significant bit first. */
module Bits {

  import opened Types

  function Pow2(k: nat): (r: nat)
    ensures r >= 1
  {
    if k == 0 then 1 else 2 * Pow2(k - 1)
  }

  /** The powers of two the packers shift by. */
  lemma Pow2Values()
    ensures Pow2(2) == 4 && Pow2(4) == 16 && Pow2(6) == 64 && Pow2(8) == 256
  {
    assert Pow2(1) == 2;
    assert Pow2(2) == 4;
    assert Pow2(3) == 8;
    assert Pow2(4) == 16;
    assert Pow2(5) == 32;
    assert Pow2(6) == 64;
    assert Pow2(7) == 128;
  }

  /** Python's `a | b` for non-negative integers, one bit at a time from the
      least significant end. */
  function Or(a: nat, b: nat): nat
    decreases a + b
  {
    if a == 0 then b
    else if b == 0 then a
    else 2 * Or(a / 2, b / 2) + (if a % 2 == 1 || b % 2 == 1 then 1 else 0)
  }

  /** Bit `k` of `v` (bit 0 is the least significant). */
  function Bit(v: nat, k: nat): (b: nat)
    ensures b <= 1
  {
    if k == 0 then v % 2 else Bit(v / 2, k - 1)
  }

  /** Or-ing a value below `2^k` into a value shifted left by `k` adds the two. */
  lemma {:induction false} OrDisjoint(hi: nat, lo: nat, k: nat)
    requires lo < Pow2(k)
    ensures Or(hi * Pow2(k), lo) == hi * Pow2(k) + lo
    ensures Or(lo, hi * Pow2(k)) == hi * Pow2(k) + lo
  {
    if k == 0 {
      assert lo == 0;
    } else if hi == 0 || lo == 0 {
    } else {
      var m := hi * Pow2(k - 1);
      assert hi * Pow2(k) == 2 * m;
      assert (2 * m) / 2 == m && (2 * m) % 2 == 0;
      OrDisjoint(hi, lo / 2, k - 1);
    }
  }

  /** The packing register of the tile and sprite writers: for every pixel
      `p |= pixel`, with `p <<= 1` before every pixel but the first. */
  function PackBits(s: seq<nat>): nat
  {
    if |s| == 0 then 0 else Or(PackBits(s[..|s| - 1]) * 2, s[|s| - 1])
  }

  /** Every element of `s` is a single bit. */
  predicate IsBits(s: seq<nat>)
  {
    forall k | 0 <= k < |s| :: s[k] <= 1
  }

  /** The `n` bits of `v`, most significant first: the inverse of PackBits. */
  function UnpackBits(v: nat, n: nat): (s: seq<nat>)
    ensures |s| == n && IsBits(s)
  {
    seq(n, j requires 0 <= j < n => Bit(v, n - 1 - j))
  }

  lemma BitOfDouble(x: nat, b: nat, k: nat)
    requires b <= 1
    ensures Bit(2 * x + b, 0) == b
    ensures Bit(2 * x + b, k + 1) == Bit(x, k)
  {
    assert (2 * x + b) / 2 == x;
  }

  /** On single-bit pixels the register holds the plain binary number they
      spell, so it stays below `2^n` and each pixel can be read back from its
      bit, the first pixel at the top. */
  lemma {:induction false} PackBitsRoundTrip(s: seq<nat>)
    requires IsBits(s)
    ensures PackBits(s) < Pow2(|s|)
    ensures UnpackBits(PackBits(s), |s|) == s
    ensures forall j | 0 <= j < |s| :: Bit(PackBits(s), |s| - 1 - j) == s[j]
  {
    if |s| > 0 {
      var n := |s|;
      var init := s[..n - 1];
      var x := PackBits(init);
      PackBitsRoundTrip(init);
      PackBitsStep(s);
      var p := PackBits(s);
      assert forall j | 0 <= j < n - 1 :: init[j] == s[j];
      BitsOfSnoc(s, x);
      assert forall j | 0 <= j < n :: Bit(p, n - 1 - j) == s[j];
      assert UnpackBits(p, n) == s;
    }
  }

  lemma PackBitsStep(s: seq<nat>)
    requires |s| > 0 && s[|s| - 1] <= 1
    ensures PackBits(s) == 2 * PackBits(s[..|s| - 1]) + s[|s| - 1]
  {
    OrDisjoint(PackBits(s[..|s| - 1]), s[|s| - 1], 1);
  }

  /** Appending bit `b` to a register holding the bits of `s` without its
      last element shifts every earlier bit up by one place. */
  lemma BitsOfSnoc(s: seq<nat>, x: nat)
    requires IsBits(s) && |s| > 0
    requires forall j | 0 <= j < |s| - 1 :: Bit(x, |s| - 2 - j) == s[j]
    ensures forall j | 0 <= j < |s| :: Bit(2 * x + s[|s| - 1], |s| - 1 - j) == s[j]
  {
    var n := |s|;
    forall j | 0 <= j < n
      ensures Bit(2 * x + s[n - 1], n - 1 - j) == s[j]
    {
      if j < n - 1 {
        BitOfDouble(x, s[n - 1], n - 2 - j);
      } else {
        BitOfDouble(x, s[n - 1], 0);
      }
    }
  }

  lemma MulLe(a: int, b: int, c: nat)
    requires a <= b
    ensures a * c <= b * c
  {
  }

  /** `(hi << 4) | lo`: one byte holding two palette indices, `hi` in the
      high nibble. */
  function JoinNibbles(hi: Index, lo: Index): (b: nat)
    ensures b < 256
    ensures HighNibble(b) == hi && LowNibble(b) == lo
  {
    Pow2Values();
    OrDisjoint(hi, lo, 4);
    Or(hi * 16, lo)
  }

  /** Or-ing one more bit into the doubled register appends it. */
  lemma PackBitsSnoc(s: seq<nat>, b: nat)
    requires b <= 1
    ensures PackBits(s + [b]) == 2 * PackBits(s) + b
  {
    assert (s + [b])[..|s|] == s;
    OrDisjoint(PackBits(s), b, 1);
  }

  /** All-zero bits spell 0. */
  lemma {:induction false} PackBitsZeros(s: seq<nat>)
    requires forall k | 0 <= k < |s| :: s[k] == 0
    ensures PackBits(s) == 0
  {
    if |s| > 0 {
      PackBitsZeros(s[..|s| - 1]);
    }
  }

  /** `n` one-bits spell `2^n - 1`. */
  lemma {:induction false} PackBitsOnes(n: nat)
    ensures PackBits(seq(n, _ => 1)) == Pow2(n) - 1
  {
    if n > 0 {
      PackBitsOnes(n - 1);
      assert seq(n, _ => 1) == seq(n - 1, _ => 1) + [1];
      PackBitsSnoc(seq(n - 1, _ => 1), 1);
    }
  }

  /** The high nibble of a two-nibble byte. */
  function HighNibble(b: nat): nat
  {
    b / 16
  }

  /** The low nibble of a two-nibble byte. */
  function LowNibble(b: nat): nat
  {
    b % 16
  }
}
