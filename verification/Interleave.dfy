/** Interleaving of coded blocks over bursts and the mapping on bursts: src/coding/gsm0503_interleaving.c and
    src/coding/gsm0503_mapping.c, after 3GPP TS 45.003 sections 3.1.3, 3.1.4, 3.3.4 and 4.1.4. */
module Interleave {
  import opened Bits

  /** xCCH: rectangular, over 4 bursts. TCH/FS: diagonal, over 8 bursts, a new block every 4. TCH/F9.6: diagonal,
      over 22 bursts, a new block every 4. */
  datatype Scheme = Xcch | TchFr | TchF96

  const BLOCK := 456

  function Bursts(sch: Scheme): nat {
    match sch
    case Xcch => 4
    case TchFr => 8
    case TchF96 => 22
  }

  /** The burst, counted from the block's first one, that carries coded bit `k`. */
  function BurstOf(sch: Scheme, k: nat): nat {
    match sch
    case Xcch => k % 4
    case TchFr => k % 8
    case TchF96 => k % 19 + k / 114
  }

  /** The position of coded bit `k` among the 114 bits of its burst. */
  function PosOf(sch: Scheme, k: nat): nat {
    if sch.TchF96? then k % 19 + 19 * (k % 6) else 2 * ((49 * k) % 57) + (k % 8) / 4
  }

  lemma CellRange(sch: Scheme, k: nat)
    requires k < BLOCK
    ensures BurstOf(sch, k) < Bursts(sch) && PosOf(sch, k) < 114
  {
  }

  lemma Modulo57(a: int, b: int, t: int)
    requires a == b + 57 * t
    ensures a % 57 == b % 57
  {
  }

  /** 7 is the inverse of 49 modulo 57. */
  lemma {:induction false} Times49(k: nat)
    ensures (7 * ((49 * k) % 57)) % 57 == k % 57
  {
    var q, r := (49 * k) / 57, (49 * k) % 57;
    Modulo57(7 * r, k, 6 * k - 7 * q);
  }

  /** 57 * 8 == 456: the residues modulo 57 and 8 determine a bit of the block. */
  lemma {:induction false} Residues(k: nat, k': nat)
    requires k < BLOCK && k' < BLOCK && k % 57 == k' % 57 && k % 8 == k' % 8
    ensures k == k'
  {
    var x, y := k / 57 - k' / 57, k / 8 - k' / 8;
    assert k - k' == 57 * x == 8 * y;
    assert x == 8 * (y - 7 * x);
  }

  /** Over an unbounded stream with a new block every four bursts, distinct (block, bit) pairs never meet. */
  lemma {:induction false} StreamInjective(sch: Scheme, n: nat, k: nat, n': nat, k': nat)
    requires k < BLOCK && k' < BLOCK
    requires 4 * n + BurstOf(sch, k) == 4 * n' + BurstOf(sch, k') && PosOf(sch, k) == PosOf(sch, k')
    ensures n == n' && k == k'
  {
    if sch.TchF96? {
      F96Injective(n, k, n', k');
    } else {
      var e, e' := (k % 8) / 4, (k' % 8) / 4;
      EvenOdd((49 * k) % 57, e, (49 * k') % 57, e');
      Times49(k);
      Times49(k');
      if sch.TchFr? {
        Eights(n, k % 8, n', k' % 8);
      } else {
        Octal(k);
        Octal(k');
        Fours(n, k % 4, n', k' % 4);
      }
      Residues(k, k');
    }
  }

  lemma EvenOdd(a: nat, e: nat, a': nat, e': nat)
    requires e <= 1 && e' <= 1 && 2 * a + e == 2 * a' + e'
    ensures a == a' && e == e'
  {
  }

  lemma Eights(n: nat, r: nat, n': nat, r': nat)
    requires r < 8 && r' < 8 && r / 4 == r' / 4 && 4 * n + r == 4 * n' + r'
    ensures n == n' && r == r'
  {
  }

  lemma Fours(n: nat, r: nat, n': nat, r': nat)
    requires r < 4 && r' < 4 && 4 * n + r == 4 * n' + r'
    ensures n == n' && r == r'
  {
  }

  lemma Octal(k: nat)
    ensures k % 8 == 4 * ((k % 8) / 4) + k % 4
  {
  }

  lemma {:induction false} F96Injective(n: nat, k: nat, n': nat, k': nat)
    requires k < BLOCK && k' < BLOCK
    requires 4 * n + k % 19 + k / 114 == 4 * n' + k' % 19 + k' / 114
    requires k % 19 + 19 * (k % 6) == k' % 19 + 19 * (k' % 6)
    ensures n == n' && k == k'
  {
    Nineteens(k % 19, k % 6, k' % 19, k' % 6);
    Fours(n, k / 114, n', k' / 114);
    SameBlockPart(k, k');
  }

  lemma Nineteens(r: nat, q: nat, r': nat, q': nat)
    requires r < 19 && r' < 19 && r + 19 * q == r' + 19 * q'
    ensures r == r' && q == q'
  {
  }

  /** 19 * 6 == 114: the residues modulo 19 and 6 determine a bit of a quarter block. */
  lemma {:induction false} SameBlockPart(k: nat, k': nat)
    requires k / 114 == k' / 114 && k % 19 == k' % 19 && k % 6 == k' % 6
    ensures k == k'
  {
    var x, y := k / 19 - k' / 19, k / 6 - k' / 6;
    assert k - k' == 19 * x == 6 * y;
    assert x == 6 * (y - 3 * x);
  }

  // ---------------------------------------------------------------------------
  // How far the bits of a block are spread

  function Distance(sch: Scheme): nat {
    match sch
    case Xcch => 4
    case TchFr => 8
    case TchF96 => 18
  }

  /** Coded bits that are near each other go to different bursts. */
  lemma {:induction false} Spread(sch: Scheme, k: nat, k': nat)
    requires k < k' < BLOCK && k' - k < Distance(sch)
    ensures BurstOf(sch, k) != BurstOf(sch, k')
  {
    match sch
    case Xcch => NotNear(k, k', k / 4, k % 4, k' / 4, k' % 4);
    case TchFr => NotNear(k, k', k / 8, k % 8, k' / 8, k' % 8);
    case TchF96 => F96Spread(k, k', k / 19, k % 19, k' / 19, k' % 19);
  }

  lemma NotNear(k: nat, k': nat, q: nat, r: nat, q': nat, r': nat)
    requires k < k'
    ensures k' < k + 4 && k == 4 * q + r && k' == 4 * q' + r' ==> r != r'
    ensures k' < k + 8 && k == 8 * q + r && k' == 8 * q' + r' ==> r != r'
  {
  }

  lemma F96Spread(k: nat, k': nat, q: nat, r: nat, q': nat, r': nat)
    requires k < k' < k + 18 && k == 19 * q + r && k' == 19 * q' + r' && r < 19 && r' < 19
    ensures r + k / 114 != r' + k' / 114
  {
    assert q' == q || q' == q + 1;
    assert k' / 114 == k / 114 || k' / 114 == k / 114 + 1;
  }

  /** The coded bit of xCCH with the given residues modulo 8 and 57. */
  function BitWith(r8: nat, r57: nat): (k: nat)
    requires r8 < 8 && r57 < 57
    ensures k < BLOCK && k % 8 == r8 && k % 57 == r57
  {
    var v := 57 * r8 + 400 * r57;
    Wrapped(v);
    assert v == 8 * (7 * r8 + 50 * r57) + r8 && v == 57 * (r8 + 7 * r57) + r57;
    v % 456
  }

  lemma Wrapped(v: nat)
    ensures (v % 456) % 8 == v % 8 && (v % 456) % 57 == v % 57
  {
    WrappedTo(v, v / 456, v % 456);
  }

  lemma WrappedTo(v: nat, q: nat, r: nat)
    requires v == 456 * q + r
    ensures r % 8 == v % 8 && r % 57 == v % 57
  {
    Modulo57(v, r, 8 * q);
    assert v == 8 * (57 * q) + r;
  }

  /** 49 undoes 7 modulo 57. */
  lemma Undone(m: nat)
    requires m < 57
    ensures (49 * ((7 * m) % 57)) % 57 == m
  {
    var q, r := (7 * m) / 57, (7 * m) % 57;
    Modulo57(49 * r, m, 6 * m - 49 * q);
  }

  lemma Product49(k: nat, r: nat)
    requires k % 57 == r
    ensures (49 * k) % 57 == (49 * r) % 57
  {
    Modulo57(49 * k, 49 * r, 49 * (k / 57));
  }

  /** Every position of the four bursts of an xCCH block carries a coded bit. */
  lemma {:induction false} XcchFilled(b: nat, j: nat) returns (k: nat)
    requires b < 4 && j < 114
    ensures k < BLOCK && BurstOf(Xcch, k) == b && PosOf(Xcch, k) == j
  {
    k := BitWith(b + 4 * (j % 2), (7 * (j / 2)) % 57);
    Undone(j / 2);
    Product49(k, (7 * (j / 2)) % 57);
    Octal(k);
    Quarter(k % 8, b, j % 2);
  }

  lemma Quarter(r8: nat, b: nat, e: nat)
    requires b < 4 && e < 2 && r8 == b + 4 * e
    ensures r8 / 4 == e
  {
  }

  lemma HalfBlock(k: nat, k': nat)
    requires k < BLOCK && k' < BLOCK && k % 57 == k' % 57 && k' % 8 == k % 8 + 4
    ensures k' == k + 228 || k == k' + 228
  {
    var x, y := k' / 57 - k / 57, k' / 8 - k / 8;
    assert k' - k == 57 * x == 8 * y + 4;
    assert x == 8 * (y - 7 * x) + 4;
  }

  lemma Apart(d: int, x: int, y: int)
    requires -BLOCK < d < BLOCK && d == 57 * x + 7 == 8 * y - 4
    ensures d == 292 || d == -164
  {
    assert x == 8 * (y - 7 * x) - 11;
  }

  lemma SevenOn(k: nat, k': nat)
    requires k < BLOCK && k' < BLOCK && k' % 57 == (k % 57 + 7) % 57 && k % 8 == k' % 8 + 4
    ensures k' == k + 292 || k == k' + 164
  {
    Apart(k' - k, k' / 57 - k / 57 - (if k % 57 < 50 then 0 else 1), k' / 8 - k / 8);
  }

  /** Neighbours in a burst of xCCH are 228, or 164 or 292, places apart in the block. */
  lemma {:induction false} XcchApart(k: nat, k': nat)
    requires k < BLOCK && k' < BLOCK && BurstOf(Xcch, k) == BurstOf(Xcch, k')
    requires PosOf(Xcch, k') == PosOf(Xcch, k) + 1
    ensures k' == k + 228 || k == k' + 228 || k' == k + 292 || k == k' + 164
  {
    var a, a', e, e' := (49 * k) % 57, (49 * k') % 57, (k % 8) / 4, (k' % 8) / 4;
    Times49(k);
    Times49(k');
    Octal(k);
    Octal(k');
    if e == 0 {
      EvenOdd(a, 1, a', e');
      HalfBlock(k, k');
    } else {
      EvenOdd(a + 1, 0, a', e');
      Modulo57(7 * a', k % 57 + 7, (7 * a) / 57);
      SevenOn(k, k');
    }
  }

  /** Index of coded bit `k` in the interleaver's buffer of 114-bit rows. */
  function CellOf(sch: Scheme, k: nat): nat {
    BurstOf(sch, k) * 114 + PosOf(sch, k)
  }

  lemma {:induction false} CellInjective(sch: Scheme, k: nat, k': nat)
    requires k < BLOCK && k' < BLOCK && CellOf(sch, k) == CellOf(sch, k')
    ensures k == k'
  {
    CellRange(sch, k);
    CellRange(sch, k');
    assert BurstOf(sch, k) == BurstOf(sch, k') && PosOf(sch, k) == PosOf(sch, k');
    StreamInjective(sch, 0, k, 0, k');
  }

  /** gsm0503_xcch_interleave, gsm0503_tch_fr_interleave and gsm0503_tch_f96_interleave: scatters a coded block
      into a buffer; cells of other blocks keep their contents. */
  method Interleaved<T>(sch: Scheme, cB: seq<T>, buffer: seq<T>) returns (iB: seq<T>)
    requires |cB| == BLOCK && |buffer| == Bursts(sch) * 114
    ensures |iB| == |buffer|
    ensures forall k :: 0 <= k < BLOCK ==> CellOf(sch, k) < |iB| && iB[CellOf(sch, k)] == cB[k]
    ensures forall c :: 0 <= c < |iB| && Free(sch, BLOCK, c) ==> iB[c] == buffer[c]
  {
    iB := buffer;
    for k := 0 to BLOCK
      invariant |iB| == |buffer|
      invariant forall j :: 0 <= j < k ==> CellOf(sch, j) < |iB| && iB[CellOf(sch, j)] == cB[j]
      invariant forall c :: 0 <= c < |iB| && Free(sch, k, c) ==> iB[c] == buffer[c]
    {
      CellRange(sch, k);
      ghost var before := iB;
      iB := iB[CellOf(sch, k) := cB[k]];
      forall j | 0 <= j < k
        ensures iB[CellOf(sch, j)] == cB[j]
      {
        if CellOf(sch, j) == CellOf(sch, k) {
          CellInjective(sch, j, k);
        }
      }
      forall c | 0 <= c < |iB| && Free(sch, k + 1, c)
        ensures iB[c] == buffer[c]
      {
        assert c != CellOf(sch, k);
        assert Free(sch, k, c);
      }
    }
  }

  /** None of the first `n` bits of a block goes to cell `c`. */
  ghost predicate Free(sch: Scheme, n: nat, c: nat) {
    forall k :: 0 <= k < n ==> CellOf(sch, k) != c
  }

  /** The three deinterleavers: gathers a coded block. */
  method Deinterleaved<T>(sch: Scheme, iB: seq<T>) returns (cB: seq<T>)
    requires |iB| == Bursts(sch) * 114
    ensures |cB| == BLOCK
    ensures forall k :: 0 <= k < BLOCK ==> CellOf(sch, k) < |iB| && cB[k] == iB[CellOf(sch, k)]
  {
    cB := [];
    for k := 0 to BLOCK
      invariant |cB| == k
      invariant forall j :: 0 <= j < k ==> CellOf(sch, j) < |iB| && cB[j] == iB[CellOf(sch, j)]
    {
      CellRange(sch, k);
      cB := cB + [iB[BurstOf(sch, k) * 114 + PosOf(sch, k)]];
    }
  }

  // ---------------------------------------------------------------------------
  // Bursts

  /** Burst position of interleaved bit `j`; the flags hl and hn sit at 57 and 58. */
  function Slot(j: nat): nat {
    if j < 57 then j else j + 2
  }

  /** gsm0503_xcch_burst_map with both flags. */
  function XcchBurst<T>(iB: seq<T>, hl: T, hn: T): (eB: seq<T>)
    requires |iB| == 114
    ensures |eB| == 116
  {
    iB[..57] + [hl, hn] + iB[57..]
  }

  /** gsm0503_xcch_burst_unmap. */
  function XcchUnmapped<T>(eB: seq<T>): (iB: seq<T>)
    requires |eB| == 116
    ensures |iB| == 114
  {
    eB[..57] + eB[59..]
  }

  lemma {:induction false} BurstRoundTrip<T>(iB: seq<T>, hl: T, hn: T)
    requires |iB| == 114
    ensures XcchUnmapped(XcchBurst(iB, hl, hn)) == iB
    ensures forall j :: 0 <= j < 114 ==> XcchBurst(iB, hl, hn)[Slot(j)] == iB[j]
  {
    assert iB == iB[..57] + iB[57..];
  }

  /** gsm0503_tch_burst_map: only the even or only the odd bits, and the flag that goes with them. */
  method TchBurstMap<T>(iB: seq<T>, burst: seq<T>, h: T, odd: Bit) returns (eB: seq<T>)
    requires |iB| == 114 && |burst| == 116
    ensures |eB| == 116
    ensures forall j :: 0 <= j < 114 ==> eB[Slot(j)] == if j % 2 == odd then iB[j] else burst[Slot(j)]
    ensures eB[if odd == 1 then 57 else 58] == h
    ensures eB[if odd == 1 then 58 else 57] == burst[if odd == 1 then 58 else 57]
  {
    eB := burst;
    var i: nat := odd;
    while i < 57
      invariant i % 2 == odd && i <= 58
      invariant |eB| == 116
      invariant forall j :: 0 <= j < 114 ==>
                eB[Slot(j)] == if j % 2 == odd && j < i && j < 57 then iB[j] else burst[Slot(j)]
      invariant eB[57] == burst[57] && eB[58] == burst[58]
    {
      eB := eB[i := iB[i]];
      i := i + 2;
    }
    i := 58 - odd;
    while i < 114
      invariant i % 2 == odd && 57 <= i <= 115
      invariant |eB| == 116
      invariant forall j :: 0 <= j < 114 ==> eB[Slot(j)] == if j % 2 == odd && j < i then iB[j] else burst[Slot(j)]
      invariant eB[57] == burst[57] && eB[58] == burst[58]
    {
      eB := eB[i + 2 := iB[i]];
      i := i + 2;
    }
    eB := eB[(if odd == 1 then 57 else 58) := h];
  }

  /** gsm0503_tch_burst_unmap: fills in the even or the odd bits. */
  method TchBurstUnmap<T>(buffer: seq<T>, eB: seq<T>, odd: Bit) returns (iB: seq<T>)
    requires |buffer| == 114 && |eB| == 116
    ensures |iB| == 114
    ensures forall j :: 0 <= j < 114 ==> iB[j] == if j % 2 == odd then eB[Slot(j)] else buffer[j]
  {
    iB := buffer;
    var i: nat := odd;
    while i < 57
      invariant i % 2 == odd && i <= 58
      invariant |iB| == 114
      invariant forall j :: 0 <= j < 114 ==> iB[j] == if j % 2 == odd && j < i && j < 57 then eB[Slot(j)] else buffer[j]
    {
      iB := iB[i := eB[i]];
      i := i + 2;
    }
    i := 58 - odd;
    while i < 114
      invariant i % 2 == odd && 57 <= i <= 115
      invariant |iB| == 114
      invariant forall j :: 0 <= j < 114 ==> iB[j] == if j % 2 == odd && j < i then eB[Slot(j)] else buffer[j]
    {
      iB := iB[i := eB[i + 2]];
      i := i + 2;
    }
  }

  function Or(a: Bit, b: Bit): Bit {
    if a == 1 then 1 else b
  }

  /** _tch_csd_burst_map: ORs in the even bits unless hu says they are stolen, the odd bits unless hl does. */
  method CsdBurstMap(burst: seq<Bit>, iB: seq<Bit>) returns (eB: seq<Bit>)
    requires |iB| == 114 && |burst| == 116
    ensures |eB| == 116 && eB[57] == burst[57] && eB[58] == burst[58]
    ensures forall j :: 0 <= j < 114 ==>
              eB[Slot(j)] == if burst[if j % 2 == 0 then 58 else 57] == 0 then Or(burst[Slot(j)], iB[j])
                  else burst[Slot(j)]
  {
    eB := burst;
    if eB[58] == 0 {
      eB := OrEvery(eB, iB, 0);
    }
    if eB[57] == 0 {
      eB := OrEvery(eB, iB, 1);
    }
  }

  method OrEvery(burst: seq<Bit>, iB: seq<Bit>, odd: Bit) returns (eB: seq<Bit>)
    requires |iB| == 114 && |burst| == 116
    ensures |eB| == 116 && eB[57] == burst[57] && eB[58] == burst[58]
    ensures forall j :: 0 <= j < 114 ==> eB[Slot(j)] == if j % 2 == odd then Or(burst[Slot(j)], iB[j])
            else burst[Slot(j)]
  {
    eB := burst;
    var i: nat := odd;
    while i < 57
      invariant i % 2 == odd && i <= 58
      invariant |eB| == 116
      invariant forall j :: 0 <= j < 114 ==>
                  eB[Slot(j)] == if j % 2 == odd && j < i && j < 57 then Or(burst[Slot(j)], iB[j]) else burst[Slot(j)]
      invariant eB[57] == burst[57] && eB[58] == burst[58]
    {
      eB := eB[i := Or(eB[i], iB[i])];
      i := i + 2;
    }
    i := 58 - odd;
    while i < 114
      invariant i % 2 == odd && 57 <= i <= 115
      invariant |eB| == 116
      invariant forall j :: 0 <= j < 114 ==>
                  eB[Slot(j)] == if j % 2 == odd && j < i then Or(burst[Slot(j)], iB[j]) else burst[Slot(j)]
      invariant eB[57] == burst[57] && eB[58] == burst[58]
    {
      eB := eB[i + 2 := Or(eB[i + 2], iB[i])];
      i := i + 2;
    }
  }
}
