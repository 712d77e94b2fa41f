/** Packed and unpacked bits: osmo_pbit2ubit_ext and osmo_ubit2pbit_ext of src/core/bits.c. */
module PackedBits {
  import opened Bits

  type Byte = b: int | 0 <= b < 256

  /** `v` with bit `k` replaced. */
  function SetBit(v: nat, k: nat, b: Bit): nat {
    if k == 0 then 2 * (v / 2) + b else 2 * SetBit(v / 2, k - 1, b) + v % 2
  }

  lemma {:induction false} SetBitAt(v: nat, k: nat, b: Bit, j: nat)
    ensures BitAt(SetBit(v, k, b), j) == if j == k then b else BitAt(v, j)
  {
    var w := SetBit(v, k, b);
    if k == 0 {
      assert w / 2 == v / 2 && w % 2 == b;
    } else {
      assert w / 2 == SetBit(v / 2, k - 1, b) && w % 2 == v % 2;
      if j > 0 {
        SetBitAt(v / 2, k - 1, b, j - 1);
      }
    }
  }

  lemma {:induction false} SetBitRange(n: nat, v: nat, k: nat, b: Bit)
    requires v < Pow2(n) && k < n
    ensures SetBit(v, k, b) < Pow2(n)
  {
    var half := Pow2(n - 1);
    assert v / 2 < half;
    if k == 0 {
      assert SetBit(v, k, b) == 2 * (v / 2) + b;
    } else {
      SetBitRange(n - 1, v / 2, k - 1, b);
      assert SetBit(v, k, b) == 2 * SetBit(v / 2, k - 1, b) + v % 2;
    }
  }

  /** Bit number of bit `i` within its byte. */
  function BitNo(i: nat, lsb: bool): nat {
    if lsb then i % 8 else 7 - i % 8
  }

  function PackedBit(bytes: seq<Byte>, i: nat, lsb: bool): Bit
    requires i / 8 < |bytes|
  {
    BitAt(bytes[i / 8], BitNo(i, lsb))
  }

  /** Two byte strings with the same bits are equal. */
  lemma {:induction false} SameBits(a: seq<Byte>, b: seq<Byte>, lsb: bool)
    requires |a| == |b| && forall i :: 0 <= i < 8 * |a| ==> PackedBit(a, i, lsb) == PackedBit(b, i, lsb)
    ensures a == b
  {
    forall k | 0 <= k < |a|
      ensures a[k] == b[k]
    {
      forall j | 0 <= j < 8
        ensures BitAt(a[k], j) == BitAt(b[k], j)
      {
        var i := 8 * k + (if lsb then j else 7 - j);
        assert i / 8 == k && BitNo(i, lsb) == j;
        assert PackedBit(a, i, lsb) == PackedBit(b, i, lsb);
      }
      assert Pow2(8) == 256;
      SameBitsSameValue(8, a[k], b[k]);
    }
  }

  /** `osmo_pbit2ubit_ext`. */
  method Pbit2Ubit(input: seq<Byte>, inOfs: nat, numBits: nat, lsb: bool) returns (out: seq<Bit>)
    requires inOfs + numBits <= 8 * |input|
    ensures out == Unpacked(input, inOfs, numBits, lsb)
  {
    out := [];
    for i := 0 to numBits
      invariant out == Unpacked(input, inOfs, i, lsb)
    {
      var ip := inOfs + i;
      var bn := if lsb then ip % 8 else 7 - ip % 8;
      out := out + [BitAt(input[ip / 8], bn)];
    }
  }

  function Unpacked(input: seq<Byte>, inOfs: nat, n: nat, lsb: bool): (out: seq<Bit>)
    requires inOfs + n <= 8 * |input|
    ensures |out| == n && forall i :: 0 <= i < n ==> out[i] == PackedBit(input, inOfs + i, lsb)
  {
    if n == 0 then [] else Unpacked(input, inOfs, n - 1, lsb) + [PackedBit(input, inOfs + n - 1, lsb)]
  }

  /** `osmo_ubit2pbit_ext`: writes the bits in place and leaves all others alone. */
  method Ubit2Pbit(out: array<Byte>, outOfs: nat, input: seq<Bit>, lsb: bool)
    requires outOfs + |input| <= 8 * out.Length
    modifies out
    ensures forall q :: 0 <= q < 8 * out.Length ==>
              PackedBit(out[..], q, lsb) ==
              if outOfs <= q < outOfs + |input| then input[q - outOfs] else old(PackedBit(out[..], q, lsb))
  {
    ghost var before := out[..];
    for i := 0 to |input|
      invariant forall q :: 0 <= q < 8 * out.Length ==>
                  PackedBit(out[..], q, lsb) ==
                  if outOfs <= q < outOfs + i then input[q - outOfs] else PackedBit(before, q, lsb)
    {
      var op := outOfs + i;
      var bn := if lsb then op % 8 else 7 - op % 8;
      ghost var prev := out[..];
      PutBit(prev, op, lsb, input[i]);
      out[op / 8] := SetBit(out[op / 8], bn, input[i]);
      assert out[..] == prev[op / 8 := SetBit(prev[op / 8], bn, input[i])];
    }
  }

  /** Replacing one bit of one byte. */
  lemma {:induction false} PutBit(bytes: seq<Byte>, i: nat, lsb: bool, b: Bit)
    requires i < 8 * |bytes|
    ensures SetBit(bytes[i / 8], BitNo(i, lsb), b) < 256
    ensures var after := bytes[i / 8 := SetBit(bytes[i / 8], BitNo(i, lsb), b)];
            forall q :: 0 <= q < 8 * |bytes| ==>
              PackedBit(after, q, lsb) == if q == i then b else PackedBit(bytes, q, lsb)
  {
    assert Pow2(8) == 256;
    SetBitRange(8, bytes[i / 8], BitNo(i, lsb), b);
    var after := bytes[i / 8 := SetBit(bytes[i / 8], BitNo(i, lsb), b)];
    forall q | 0 <= q < 8 * |bytes|
      ensures PackedBit(after, q, lsb) == if q == i then b else PackedBit(bytes, q, lsb)
    {
      if q / 8 == i / 8 {
        SetBitAt(bytes[i / 8], BitNo(i, lsb), b, BitNo(q, lsb));
      }
    }
  }
}
