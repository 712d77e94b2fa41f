/** GSM full-rate frames in RTP format and the SID classifier: src/codec/gsm610.c. */
module FrSid {

  type Frame = f: seq<bv8> | |f| == 33 witness seq(33, _ => 0)

  datatype SidClass = Speech | Invalid | Valid

  // ---------------------------------------------------------------------------
  // The SID code word

  /** Entry `i` of sid_code_word_bits: two of the three bits of every RPE pulse in the first three subframes and in the
      first four pulses of the last one, one bit of its other pulses. */
  function CodeWordBit(i: nat): (n: nat)
    requires i < 95
    ensures 57 <= n < 264
  {
    var sub, j := i / 26, i % 26;
    if sub == 3 && j >= 8 then 237 + 3 * (j - 8) else 57 + 56 * sub + 3 * (j / 2) + j % 2
  }

  /** The 95 bits are listed in order, none twice. */
  lemma CodeWordRises(i: nat)
    requires i < 94
    ensures CodeWordBit(i) < CodeWordBit(i + 1)
  {
  }

  /** Bit `n` of a frame, high bit of the first byte first. */
  function FrameBit(f: Frame, n: nat): bool
    requires n < 264
  {
    f[n / 8] & (0x80 >> (n % 8)) != 0
  }

  /** Bits among the first `n` of the code word that are not 0. */
  function Errors(f: Frame, n: nat): nat
    requires n <= 95
  {
    if n == 0 then 0 else Errors(f, n - 1) + if FrameBit(f, CodeWordBit(n - 1)) then 1 else 0
  }

  /** The classes of section 6.1.1 of GSM 06.31. */
  function ClassOf(errors: nat): SidClass {
    if errors >= 16 then Speech else if errors >= 2 then Invalid else Valid
  }

  lemma {:induction false} ErrorsGrow(f: Frame, m: nat, n: nat)
    requires m <= n <= 95
    ensures Errors(f, m) <= Errors(f, n)
    decreases n
  {
    if m == n {
    } else {
      ErrorsGrow(f, m, n - 1);
    }
  }

  /** `osmo_fr_sid_classify`. */
  method Classify(f: Frame) returns (c: SidClass)
    ensures c == ClassOf(Errors(f, 95))
    ensures c == Speech <==> Errors(f, 95) >= 16
    ensures c == Valid <==> Errors(f, 95) <= 1
  {
    var n: nat := 0;
    for i := 0 to 95
      invariant n == Errors(f, i) && n < 16
    {
      if FrameBit(f, CodeWordBit(i)) {
        n := n + 1;
      }
      if n >= 16 {
        ErrorsGrow(f, i + 1, 95);
        return Speech;
      }
    }
    return if n >= 2 then Invalid else Valid;
  }

  /** `osmo_fr_check_sid`: a perfect SID frame. */
  method CheckSid(f: Frame) returns (ok: bool)
    ensures ok <==> f[0] >> 4 == 0xD && Errors(f, 95) == 0
  {
    if f[0] >> 4 != 0xD {
      return false;
    }
    for i := 0 to 95
      invariant Errors(f, i) == 0
    {
      if FrameBit(f, CodeWordBit(i)) {
        ErrorsGrow(f, i + 1, 95);
        return false;
      }
    }
    return true;
  }

  // ---------------------------------------------------------------------------
  // Subframes

  /** The block amplitude of subframe `sub`. */
  function Xmaxc(f: Frame, sub: nat): bv8
    requires sub < 4
  {
    ((f[sub * 7 + 6] & 0x1F) << 1) | (f[sub * 7 + 7] >> 7)
  }

  /** The bits a pristine SID frame may have besides the first five bytes: the four block amplitudes. */
  function SidMask(i: nat): bv8 {
    if i < 5 then 0xFF else if (i - 5) % 7 == 1 then 0x1F else if (i - 5) % 7 == 2 then 0x80 else 0
  }

  /** Nothing but LARc and the block amplitudes. */
  predicate Pristine(f: Frame) {
    forall i :: 0 <= i < 33 ==> f[i] & !SidMask(i) == 0
  }

  /** The code word avoids them. */
  lemma {:induction false} CodeWordApart(i: nat)
    requires i < 95
    ensures var n := CodeWordBit(i); (0x80 as bv8 >> (n % 8)) & SidMask(n / 8) == 0
  {
    var sub, j := i / 26, i % 26;
    var n := CodeWordBit(i);
    var r := n - 56 * sub;
    assert 57 <= r < 96 && n == 56 * sub + r && sub < 4;
    assert n / 8 == 7 * sub + r / 8 && n % 8 == r % 8;
    assert (n / 8 - 5) % 7 == (r / 8 - 5) % 7;
    if r < 64 {
      assert r / 8 == 7;
      SmallShift(r % 8);
    } else {
      assert 8 <= r / 8 <= 11;
    }
  }

  lemma {:induction false} SmallShift(m: nat)
    requires 1 <= m < 8
    ensures (0x80 as bv8 >> m) & 0x80 == 0
  {
    if m == 1 {
    } else if m == 2 {
    } else if m == 3 {
    } else if m == 4 {
    } else if m == 5 {
    } else if m == 6 {
    } else {
    }
  }

  /** A pristine frame has no error in its code word. */
  lemma {:induction false} PristineErrors(f: Frame, n: nat)
    requires n <= 95 && Pristine(f)
    ensures Errors(f, n) == 0
  {
    if n == 0 {
    } else {
      PristineErrors(f, n - 1);
      CodeWordApart(n - 1);
      var k := CodeWordBit(n - 1);
      MaskedBit(f[k / 8], 0x80 >> (k % 8), SidMask(k / 8));
    }
  }

  lemma MaskedBit(v: bv8, bit: bv8, mask: bv8)
    requires v & !mask == 0 && bit & mask == 0
    ensures v & bit == 0
  {
  }

  // ---------------------------------------------------------------------------
  // Repairing SID frames in place

  /** Masks one byte of a subframe. */
  method MaskByte(a: array<bv8>, i: nat, mask: bv8)
    requires i < a.Length
    modifies a
    ensures a[i] == old(a[i]) & mask
    ensures forall k :: 0 <= k < a.Length && k != i ==> a[k] == old(a[k])
  {
    a[i] := a[i] & mask;
  }

  /** `osmo_fr_sid_reset`: everything but LARc and the block amplitudes becomes 0. */
  method SidReset(a: array<bv8>)
    requires a.Length == 33
    modifies a
    ensures forall i :: 0 <= i < 33 ==> a[i] == old(a[i]) & SidMask(i)
  {
    for i := 5 to 33
      invariant forall k :: 0 <= k < i ==> a[k] == old(a[k]) & SidMask(k)
      invariant forall k :: i <= k < 33 ==> a[k] == old(a[k])
    {
      var at := (i - 5) % 7;
      MaskByte(a, i, if at == 1 then 0x1F else if at == 2 then 0x80 else 0);
    }
  }

  lemma {:induction false} MaskedPristine(f: Frame, g: Frame)
    requires forall i :: 0 <= i < 33 ==> g[i] == f[i] & SidMask(i)
    ensures Pristine(g) && g[..5] == f[..5] && forall sub :: 0 <= sub < 4 ==> Xmaxc(g, sub) == Xmaxc(f, sub)
  {
    forall i | 0 <= i < 33
      ensures g[i] & !SidMask(i) == 0
    {
      MaskedOut(f[i], SidMask(i));
    }
    forall i | 0 <= i < 5
      ensures g[i] == f[i]
    {
      AllOnes(f[i]);
    }
    forall sub | 0 <= sub < 4
      ensures Xmaxc(g, sub) == Xmaxc(f, sub)
    {
      assert (sub * 7 + 6 - 5) % 7 == 1 && (sub * 7 + 7 - 5) % 7 == 2;
      MaskedXmaxc(f[sub * 7 + 6], f[sub * 7 + 7]);
    }
  }

  lemma AllOnes(v: bv8)
    ensures v & 0xFF == v
  {
  }

  lemma MaskedOut(v: bv8, mask: bv8)
    ensures (v & mask) & !mask == 0
  {
  }

  lemma MaskedXmaxc(a: bv8, b: bv8)
    ensures (((a & 0x1F) & 0x1F) << 1) | ((b & 0x80) >> 7) == ((a & 0x1F) << 1) | (b >> 7)
  {
  }

  /** `g` is a SID frame without error, with the parameters of `f` and nothing else. */
  ghost predicate SidOf(f: Frame, g: Frame) {
    && Pristine(g) && Errors(g, 95) == 0 && g[..5] == f[..5]
    && forall sub :: 0 <= sub < 4 ==> Xmaxc(g, sub) == Xmaxc(f, sub)
  }

  lemma {:induction false} Preened(f: Frame, g: Frame)
    requires forall i :: 0 <= i < 33 ==> g[i] == f[i] & SidMask(i)
    ensures SidOf(f, g)
  {
    MaskedPristine(f, g);
    PristineErrors(g, 95);
  }

  /** `osmo_fr_sid_preen`: a frame that passes is speech, untouched, or a SID frame with its parameters and no error. */
  method SidPreen(a: array<bv8>) returns (good: bool)
    requires a.Length == 33
    modifies a
    ensures good <==> ClassOf(Errors(old(a[..]), 95)) != Invalid
    ensures ClassOf(Errors(old(a[..]), 95)) != Valid ==> a[..] == old(a[..])
    ensures ClassOf(Errors(old(a[..]), 95)) == Valid ==>
              SidOf(old(a[..]), a[..])
  {
    var c := Classify(a[..]);
    if c == Valid {
      SidReset(a);
      Preened(old(a[..]), a[..]);
    }
    good := c != Invalid;
  }
}
