/** The two measures of how well soft bits fit bits: the scaled squared distance that the generic decoder of
    src/core/conv.c adds up, and the correlation that the accelerated decoder of src/core/conv_acc.c adds up. */
module SoftBits {
  import opened Bits

  // ---------------------------------------------------------------------------
  // Distance

  /** The soft bit a sender of `b` would like to be received. */
  function Ideal(b: Bit): int {
    if b == 1 then -127 else 127
  }

  function Square(d: int): int {
    d * d
  }

  /** Scaled squared distance between a soft bit and the ideal soft bit of `b`; unknown bits are free. */
  function Err(x: SBit, b: Bit): (e: nat)
    ensures e <= 127
  {
    if x == 0 then 0
    else
      SquareBound(x - Ideal(b));
      Square(x - Ideal(b)) / 512
  }

  lemma {:induction false} SquareBound(d: int)
    requires -255 <= d <= 254
    ensures 0 <= Square(d) <= 65025
  {
    if d >= 0 {
      MulMono(d, 255, d);
    } else {
      assert d * d == (-d) * (-d);
      MulMono(-d, 255, -d);
    }
  }

  /** Error of a block of soft bits against a block of bits. */
  function BlockErr(x: seq<SBit>, bits: seq<Bit>): (e: nat)
    requires |x| == |bits|
    decreases |x|
  {
    if x == [] then 0
    else
      var n := |x| - 1;
      BlockErr(x[..n], bits[..n]) + Err(x[n], bits[n])
  }

  lemma {:induction false} BlockErrAppend(x: seq<SBit>, y: seq<SBit>, a: seq<Bit>, b: seq<Bit>)
    requires |x| == |a| && |y| == |b|
    ensures BlockErr(x + y, a + b) == BlockErr(x, a) + BlockErr(y, b)
    decreases |y|
  {
    if y == [] {
      assert x + y == x && a + b == a;
    } else {
      var n := |y| - 1;
      assert (x + y)[..|x + y| - 1] == x + y[..n];
      assert (a + b)[..|a + b| - 1] == a + b[..n];
      BlockErrAppend(x, y[..n], a, b[..n]);
    }
  }

  lemma {:induction false} BlockErrBound(x: seq<SBit>, bits: seq<Bit>)
    requires |x| == |bits|
    ensures BlockErr(x, bits) <= 127 * |x|
    decreases |x|
  {
    if x == [] {
    } else {
      BlockErrBound(x[..|x| - 1], bits[..|x| - 1]);
    }
  }

  // ---------------------------------------------------------------------------
  // Correlation

  /** Correlation of soft bits with bits, a 0 bit being +1. */
  function Corr(x: seq<SBit>, bits: seq<Bit>): int
    requires |x| == |bits|
    decreases |x|
  {
    if x == [] then 0
    else
      var n := |x| - 1;
      Corr(x[..n], bits[..n]) + (if bits[n] == 0 then x[n] else -(x[n] as int))
  }

  lemma {:induction false} CorrAppend(x: seq<SBit>, y: seq<SBit>, a: seq<Bit>, b: seq<Bit>)
    requires |x| == |a| && |y| == |b|
    ensures Corr(x + y, a + b) == Corr(x, a) + Corr(y, b)
    decreases |y|
  {
    if y == [] {
      assert x + y == x && a + b == a;
    } else {
      var n := |y| - 1;
      assert (x + y)[..|x + y| - 1] == x + y[..n];
      assert (a + b)[..|a + b| - 1] == a + b[..n];
      CorrAppend(x, y[..n], a, b[..n]);
    }
  }

  lemma {:induction false} CorrOpposite(x: seq<SBit>, a: seq<Bit>, b: seq<Bit>)
    requires |x| == |a| == |b| && forall j :: 0 <= j < |a| ==> a[j] == 1 - b[j]
    ensures Corr(x, a) == -Corr(x, b)
    decreases |x|
  {
    if x == [] {
    } else {
      CorrOpposite(x[..|x| - 1], a[..|x| - 1], b[..|x| - 1]);
    }
  }

  // ---------------------------------------------------------------------------
  // What the distance says

  /** Squared distance between soft bits and the ideal soft bits, without scaling. */
  function Squares(x: seq<SBit>, bits: seq<Bit>): int
    requires |x| == |bits|
    decreases |x|
  {
    if x == [] then 0
    else
      var n := |x| - 1;
      Squares(x[..n], bits[..n]) + if x[n] == 0 then 0 else Square(x[n] - Ideal(bits[n]))
  }

  /** How many soft bits are not "unknown". */
  function Known(x: seq<SBit>): nat {
    if x == [] then 0 else Known(x[..|x| - 1]) + if x[|x| - 1] == 0 then 0 else 1
  }

  /** The error is the squared distance divided by 512, but for the rounding of each soft bit. */
  lemma {:induction false} ErrorIsRounded(x: seq<SBit>, bits: seq<Bit>)
    requires |x| == |bits|
    ensures 512 * BlockErr(x, bits) <= Squares(x, bits) <= 512 * BlockErr(x, bits) + 511 * Known(x)
    decreases |x|
  {
    if x == [] {
    } else {
      var n := |x| - 1;
      ErrorIsRounded(x[..n], bits[..n]);
      SquareBound(x[n] - Ideal(bits[n]));
    }
  }

  /** The bit on whose side a soft bit is. */
  function Side(x: SBit): Bit {
    if x < 0 then 1 else 0
  }

  function Magnitude(x: SBit): nat {
    if x < 0 then -(x as int) else x
  }

  /** The wrong bit costs as much more than the right one as the soft bit is strong, but for rounding. */
  lemma {:induction false} ErrGap(x: SBit)
    requires x != 0
    ensures Magnitude(x) - 1 <= Err(x, 1 - Side(x)) - Err(x, Side(x)) <= Magnitude(x)
  {
    var a: int := Magnitude(x);
    var near := Square(127 - a);
    assert Square(-127 - a) == Square(127 + a) == near + 508 * a && Square(a - 127) == near;
    SquareBound(127 - a);
    Quotients(near, a);
  }

  lemma {:induction false} Quotients(near: int, a: int)
    requires near >= 0 && 1 <= a <= 128
    ensures a - 1 <= (near + 508 * a) / 512 - near / 512 <= a
  {
    var q, t := near / 512, near % 512;
    assert near + 508 * a == 512 * q + (t + 508 * a);
    assert (near + 508 * a) / 512 == q + (t + 508 * a) / 512;
  }

  /** Known soft bits whose bits differ in two blocks. */
  function Differ(x: seq<SBit>, a: seq<Bit>, b: seq<Bit>): nat
    requires |x| == |a| == |b|
    decreases |x|
  {
    if x == [] then 0
    else
      var n := |x| - 1;
      Differ(x[..n], a[..n], b[..n]) + if x[n] != 0 && a[n] != b[n] then 1 else 0
  }

  /** Twice the difference of two errors is the difference of the correlations, but for two per soft bit that tells
      them apart. */
  lemma {:induction false} CorrTracksErr(x: seq<SBit>, a: seq<Bit>, b: seq<Bit>)
    requires |x| == |a| == |b|
    ensures var gap := Corr(x, a) - Corr(x, b) - 2 * (BlockErr(x, b) - BlockErr(x, a));
            -2 * Differ(x, a, b) <= gap <= 2 * Differ(x, a, b)
    decreases |x|
  {
    if x == [] {
    } else {
      var n := |x| - 1;
      CorrTracksErr(x[..n], a[..n], b[..n]);
      if x[n] != 0 {
        ErrGap(x[n]);
      }
    }
  }
}
