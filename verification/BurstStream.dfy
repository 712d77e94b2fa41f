/** A stream of bursts that carries one diagonally interleaved block after the other, a new one every four
    bursts: the mapping part of the TCH/FS and TCH/F9.6 coders in src/coding/gsm0503_coding.c. */
module BurstStream {
  import opened Bits
  import opened Interleave

  /** Where bit `k` of block `n` is in the stream. */
  ghost predicate HoldsBit(sch: Scheme, bursts: seq<seq<Bit>>, n: nat, k: nat, b: Bit)
    requires k < BLOCK
  {
    var i := 4 * n + BurstOf(sch, k);
    CellRange(sch, k);
    i < |bursts| && |bursts[i]| == 116 && bursts[i][Slot(PosOf(sch, k))] == b
  }

  /** Block `n` can be read off the stream. */
  ghost predicate Holds(sch: Scheme, bursts: seq<seq<Bit>>, n: nat, cB: seq<Bit>) {
    |cB| == BLOCK && forall k :: 0 <= k < BLOCK ==> HoldsBit(sch, bursts, n, k, cB[k])
  }

  ghost predicate Stream(bursts: seq<seq<Bit>>) {
    forall i :: 0 <= i < |bursts| ==> |bursts[i]| == 116
  }

  /** The 114 cells that go to burst `i`. */
  function Row<T>(iB: seq<T>, i: nat): (r: seq<T>)
    requires (i + 1) * 114 <= |iB|
    ensures |r| == 114
  {
    iB[i * 114..(i + 1) * 114]
  }

  /** Bit `k` is in the row of its burst. */
  lemma {:induction false} InRow(sch: Scheme, iB: seq<Bit>, k: nat)
    requires |iB| == Bursts(sch) * 114 && k < BLOCK
    ensures BurstOf(sch, k) < Bursts(sch) && PosOf(sch, k) < 114
    ensures Row(iB, BurstOf(sch, k))[PosOf(sch, k)] == iB[CellOf(sch, k)]
  {
    CellRange(sch, k);
  }

  // ---------------------------------------------------------------------------
  // TCH/FS

  /** The last part of gsm0503_tch_fr_encode: interleave, then map even bits on four bursts and odd bits on the
      next four. */
  method SendTchFr(bursts: array<seq<Bit>>, n: nat, cB: seq<Bit>, h: Bit)
    requires |cB| == BLOCK && Stream(bursts[..]) && 4 * n + 8 <= bursts.Length
    modifies bursts
    ensures Stream(bursts[..])
    ensures Holds(TchFr, bursts[..], n, cB)
    ensures forall n': nat, cB' :: n' != n && Holds(TchFr, old(bursts[..]), n', cB') ==>
            Holds(TchFr, bursts[..], n', cB')
  {
    var iB := Interleaved(TchFr, cB, seq(912, i => 0));
    ghost var before := bursts[..];
    for i := 0 to 8
      invariant Stream(bursts[..])
      invariant forall b :: 0 <= b < bursts.Length && !(4 * n <= b < 4 * n + i) ==> bursts[b] == before[b]
      invariant forall r :: 0 <= r < i ==> Mapped(iB, before, bursts[..], n, r)
    {
      var eB := TchBurstMap(Row(iB, i), bursts[4 * n + i], h, i / 4);
      ghost var prev := bursts[..];
      bursts[4 * n + i] := eB;
      forall r | 0 <= r < i
        ensures Mapped(iB, before, bursts[..], n, r)
      {
        assert Mapped(iB, before, prev, n, r) && bursts[4 * n + r] == prev[4 * n + r];
      }
      assert Mapped(iB, before, bursts[..], n, i);
    }
    forall k | 0 <= k < BLOCK
      ensures HoldsBit(TchFr, bursts[..], n, k, cB[k])
    {
      InRow(TchFr, iB, k);
      assert Mapped(iB, before, bursts[..], n, k % 8);
      Parity(k);
    }
    forall n': nat, cB' | n' != n && Holds(TchFr, before, n', cB')
      ensures Holds(TchFr, bursts[..], n', cB')
    {
      KeepsOther(iB, before, bursts[..], n, n', cB');
    }
  }

  /** What mapping row r does to burst r of the block. */
  ghost predicate Mapped(iB: seq<Bit>, before: seq<seq<Bit>>, after: seq<seq<Bit>>, n: nat, r: nat)
    requires r < 8 && |iB| == 912 && 4 * n + r < |before| == |after|
  {
    var burst, eB := before[4 * n + r], after[4 * n + r];
    && |burst| == |eB| == 116
    && forall j :: 0 <= j < 114 ==> eB[Slot(j)] == if j % 2 == r / 4 then Row(iB, r)[j] else burst[Slot(j)]
  }

  /** TCH/FS uses even positions in a block's first four bursts and odd positions in the last four. */
  lemma Parity(k: nat)
    ensures PosOf(TchFr, k) % 2 == (k % 8) / 4
  {
  }

  lemma {:induction false} KeepsOther(iB: seq<Bit>, before: seq<seq<Bit>>, after: seq<seq<Bit>>, n: nat, n': nat,
                                      cB: seq<Bit>)
    requires |iB| == 912 && Stream(before) && |after| == |before| && 4 * n + 8 <= |before| && n' != n
    requires forall b :: 0 <= b < |before| && !(4 * n <= b < 4 * n + 8) ==> after[b] == before[b]
    requires forall r :: 0 <= r < 8 ==> Mapped(iB, before, after, n, r)
    requires Holds(TchFr, before, n', cB)
    ensures Holds(TchFr, after, n', cB)
  {
    forall k | 0 <= k < BLOCK
      ensures HoldsBit(TchFr, after, n', k, cB[k])
    {
      assert HoldsBit(TchFr, before, n', k, cB[k]);
      CellRange(TchFr, k);
      Parity(k);
      var b := 4 * n' + k % 8;
      if 4 * n <= b < 4 * n + 8 {
        var r := b - 4 * n;
        OtherHalf(n, r, n', k % 8);
        assert Mapped(iB, before, after, n, r);
      }
    }
  }

  /** Two blocks that share a burst use different halves of it. */
  lemma OtherHalf(n: nat, r: nat, n': nat, r': nat)
    requires r < 8 && r' < 8 && 4 * n + r == 4 * n' + r' && n != n'
    ensures r / 4 != r' / 4
  {
  }

  /** Any number of blocks, one after the other: all of them can be read off the stream in the end. */
  method SendAllTchFr(bursts: array<seq<Bit>>, blocks: seq<seq<Bit>>, flags: seq<Bit>)
    requires Stream(bursts[..]) && 4 * |blocks| + 4 <= bursts.Length && |flags| == |blocks|
    requires forall n :: 0 <= n < |blocks| ==> |blocks[n]| == BLOCK
    modifies bursts
    ensures Stream(bursts[..])
    ensures forall n :: 0 <= n < |blocks| ==> Holds(TchFr, bursts[..], n, blocks[n])
  {
    for m := 0 to |blocks|
      invariant Stream(bursts[..])
      invariant forall n :: 0 <= n < m ==> Holds(TchFr, bursts[..], n, blocks[n])
    {
      SendTchFr(bursts, m, blocks[m], flags[m]);
    }
  }

  /** The first part of gsm0503_tch_fr_decode: unmap eight bursts, then deinterleave. */
  method ReceiveTchFr(bursts: seq<seq<Bit>>, n: nat) returns (cB: seq<Bit>)
    requires Stream(bursts) && 4 * n + 8 <= |bursts|
    ensures Holds(TchFr, bursts, n, cB)
  {
    var iB: seq<Bit> := [];
    for i := 0 to 8
      invariant |iB| == i * 114
      invariant forall r :: 0 <= r < i ==> Unmapped(iB, bursts, n, r)
    {
      var row := TchBurstUnmap(seq(114, j => 0), bursts[4 * n + i], i / 4);
      ghost var before := iB;
      iB := iB + row;
      assert Row(iB, i) == row;
      forall r | 0 <= r < i
        ensures Unmapped(iB, bursts, n, r)
      {
        assert Unmapped(before, bursts, n, r);
        assert Row(iB, r) == Row(before, r);
      }
    }
    cB := Deinterleaved(TchFr, iB);
    forall k | 0 <= k < BLOCK
      ensures HoldsBit(TchFr, bursts, n, k, cB[k])
    {
      InRow(TchFr, iB, k);
      Parity(k);
      assert Unmapped(iB, bursts, n, k % 8);
    }
  }

  ghost predicate Unmapped(iB: seq<Bit>, bursts: seq<seq<Bit>>, n: nat, r: nat)
    requires r < 8 && (r + 1) * 114 <= |iB| && 4 * n + r < |bursts|
  {
    var burst := bursts[4 * n + r];
    |burst| == 116 && forall j :: 0 <= j < 114 && j % 2 == r / 4 ==> Row(iB, r)[j] == burst[Slot(j)]
  }

  /** A stream holds at most one block n. */
  lemma {:induction false} HeldOnce(sch: Scheme, bursts: seq<seq<Bit>>, n: nat, a: seq<Bit>, b: seq<Bit>)
    requires Holds(sch, bursts, n, a) && Holds(sch, bursts, n, b)
    ensures a == b
  {
    forall k | 0 <= k < BLOCK
      ensures a[k] == b[k]
    {
      assert HoldsBit(sch, bursts, n, k, a[k]) && HoldsBit(sch, bursts, n, k, b[k]);
    }
  }

  // ---------------------------------------------------------------------------
  // TCH/F9.6

  /** Bit `k` of block `n` goes to position `j` of burst `i`. */
  ghost predicate Goes(n: nat, k: nat, i: nat, j: nat) {
    k < BLOCK && 4 * n + BurstOf(TchF96, k) == i && PosOf(TchF96, k) == j
  }

  ghost predicate Owned(m: nat, i: nat, j: nat) {
    exists n: nat, k: nat :: n < m && Goes(n, k, i, j)
  }

  /** FACCH-free stream in which everything but the first `m` blocks is zero. */
  ghost predicate Clean(bursts: seq<seq<Bit>>, m: nat) {
    && Stream(bursts)
    && (forall i :: 0 <= i < |bursts| ==> bursts[i][57] == 0 && bursts[i][58] == 0)
    && (forall i, j :: 0 <= i < |bursts| && 0 <= j < 114 && !Owned(m, i, j) ==> bursts[i][Slot(j)] == 0)
  }

  /** The last part of gsm0503_tch_fr96_encode: interleave into zeroes, then OR into 22 bursts. */
  method SendTchF96(bursts: array<seq<Bit>>, m: nat, cB: seq<Bit>)
    requires |cB| == BLOCK && Clean(bursts[..], m) && 4 * m + 22 <= bursts.Length
    modifies bursts
    ensures Clean(bursts[..], m + 1)
    ensures Holds(TchF96, bursts[..], m, cB)
    ensures forall n: nat, cB' :: n < m && Holds(TchF96, old(bursts[..]), n, cB') ==> Holds(TchF96, bursts[..], n, cB')
  {
    var iB := Interleaved(TchF96, cB, seq(2508, i => 0));
    ghost var before := bursts[..];
    for i := 0 to 22
      invariant Stream(bursts[..])
      invariant forall b :: 0 <= b < bursts.Length && !(4 * m <= b < 4 * m + i) ==> bursts[b] == before[b]
      invariant forall r :: 0 <= r < i ==> Ored(iB, before, bursts[..], m, r)
    {
      var eB := CsdBurstMap(bursts[4 * m + i], Row(iB, i));
      ghost var prev := bursts[..];
      bursts[4 * m + i] := eB;
      forall r | 0 <= r < i
        ensures Ored(iB, before, bursts[..], m, r)
      {
        assert Ored(iB, before, prev, m, r) && bursts[4 * m + r] == prev[4 * m + r];
      }
      assert Ored(iB, before, bursts[..], m, i);
    }
    OredClean(iB, before, bursts[..], m, cB);
    OredHolds(iB, before, bursts[..], m, cB);
    forall n: nat, cB' | n < m && Holds(TchF96, before, n, cB')
      ensures Holds(TchF96, bursts[..], n, cB')
    {
      OredKeeps(iB, before, bursts[..], m, cB, n, cB');
    }
  }

  ghost predicate Ored(iB: seq<Bit>, before: seq<seq<Bit>>, after: seq<seq<Bit>>, m: nat, r: nat)
    requires r < 22 && |iB| == 2508 && 4 * m + r < |before| == |after|
  {
    var burst, eB := before[4 * m + r], after[4 * m + r];
    && |burst| == |eB| == 116 && eB[57] == burst[57] && eB[58] == burst[58]
    && (burst[57] == 0 && burst[58] == 0 ==>
          forall j :: 0 <= j < 114 ==> eB[Slot(j)] == Or(burst[Slot(j)], Row(iB, r)[j]))
  }

  /** `after` is `before` with the 22 rows of iB, the interleaved block cB, ORed into bursts 4m on. */
  ghost predicate Sent(iB: seq<Bit>, before: seq<seq<Bit>>, after: seq<seq<Bit>>, m: nat, cB: seq<Bit>) {
    && |iB| == 2508 && |cB| == BLOCK && |after| == |before| && 4 * m + 22 <= |before|
    && Clean(before, m)
    && (forall b :: 0 <= b < |before| && !(4 * m <= b < 4 * m + 22) ==> after[b] == before[b])
    && (forall r :: 0 <= r < 22 ==> Ored(iB, before, after, m, r))
    && (forall k :: 0 <= k < BLOCK ==> CellOf(TchF96, k) < |iB| && iB[CellOf(TchF96, k)] == cB[k])
    && (forall c :: 0 <= c < |iB| && Free(TchF96, BLOCK, c) ==> iB[c] == 0)
  }

  /** Row cells that no bit of the block goes to are zero. */
  lemma {:induction false} RowZero(iB: seq<Bit>, before: seq<seq<Bit>>, after: seq<seq<Bit>>, m: nat, cB: seq<Bit>,
                                   i: nat, j: nat)
    requires Sent(iB, before, after, m, cB) && 4 * m <= i < 4 * m + 22 && j < 114
    requires forall k: nat :: !Goes(m, k, i, j)
    ensures Row(iB, i - 4 * m)[j] == 0
  {
    FreeCell(m, i, j);
    assert Row(iB, i - 4 * m)[j] == iB[(i - 4 * m) * 114 + j];
  }

  lemma {:induction false} FreeCell(m: nat, i: nat, j: nat)
    requires 4 * m <= i < 4 * m + 22 && j < 114 && forall k: nat :: !Goes(m, k, i, j)
    ensures Free(TchF96, BLOCK, (i - 4 * m) * 114 + j)
  {
    forall k | 0 <= k < BLOCK
      ensures CellOf(TchF96, k) != (i - 4 * m) * 114 + j
    {
      CellRange(TchF96, k);
      assert !Goes(m, k, i, j);
      if CellOf(TchF96, k) == (i - 4 * m) * 114 + j {
        SameCell(BurstOf(TchF96, k), PosOf(TchF96, k), i - 4 * m, j);
      }
    }
  }

  lemma SameCell(b: nat, p: nat, b': nat, p': nat)
    requires p < 114 && p' < 114 && b * 114 + p == b' * 114 + p'
    ensures b == b' && p == p'
  {
  }

  lemma {:induction false} OredClean(iB: seq<Bit>, before: seq<seq<Bit>>, after: seq<seq<Bit>>, m: nat, cB: seq<Bit>)
    requires Sent(iB, before, after, m, cB)
    ensures Clean(after, m + 1)
  {
    forall i | 0 <= i < |after|
      ensures |after[i]| == 116 && after[i][57] == 0 && after[i][58] == 0
    {
      if 4 * m <= i < 4 * m + 22 {
        assert Ored(iB, before, after, m, i - 4 * m);
      }
    }
    forall i, j | 0 <= i < |after| && 0 <= j < 114 && !Owned(m + 1, i, j)
      ensures after[i][Slot(j)] == 0
    {
      assert !Owned(m, i, j);
      if 4 * m <= i < 4 * m + 22 {
        var r := i - 4 * m;
        assert Ored(iB, before, after, m, r);
        forall k: nat
          ensures !Goes(m, k, i, j)
        {
        }
        RowZero(iB, before, after, m, cB, i, j);
      }
    }
  }

  lemma {:induction false} OredHolds(iB: seq<Bit>, before: seq<seq<Bit>>, after: seq<seq<Bit>>, m: nat, cB: seq<Bit>)
    requires Sent(iB, before, after, m, cB)
    ensures Holds(TchF96, after, m, cB)
  {
    forall k | 0 <= k < BLOCK
      ensures HoldsBit(TchF96, after, m, k, cB[k])
    {
      InRow(TchF96, iB, k);
      var r, j := BurstOf(TchF96, k), PosOf(TchF96, k);
      assert Ored(iB, before, after, m, r);
      if Owned(m, 4 * m + r, j) {
        var n': nat, k': nat :| n' < m && Goes(n', k', 4 * m + r, j);
        StreamInjective(TchF96, m, k, n', k');
      }
      assert before[4 * m + r][Slot(j)] == 0;
    }
  }

  lemma {:induction false} OredKeeps(iB: seq<Bit>, before: seq<seq<Bit>>, after: seq<seq<Bit>>, m: nat, cB: seq<Bit>,
                                     n: nat, cB': seq<Bit>)
    requires Sent(iB, before, after, m, cB) && n < m && Holds(TchF96, before, n, cB')
    ensures Holds(TchF96, after, n, cB')
  {
    forall k | 0 <= k < BLOCK
      ensures HoldsBit(TchF96, after, n, k, cB'[k])
    {
      assert HoldsBit(TchF96, before, n, k, cB'[k]);
      CellRange(TchF96, k);
      var i, j := 4 * n + BurstOf(TchF96, k), PosOf(TchF96, k);
      if 4 * m <= i < 4 * m + 22 {
        var r := i - 4 * m;
        assert Ored(iB, before, after, m, r);
        forall k': nat
          ensures !Goes(m, k', i, j)
        {
          if Goes(m, k', i, j) {
            StreamInjective(TchF96, n, k, m, k');
          }
        }
        RowZero(iB, before, after, m, cB, i, j);
      }
    }
  }

  /** Any number of blocks ORed into a zeroed stream: all of them can be read off it in the end. */
  method SendAllTchF96(bursts: array<seq<Bit>>, blocks: seq<seq<Bit>>)
    requires Clean(bursts[..], 0) && 4 * |blocks| + 18 <= bursts.Length
    requires forall n :: 0 <= n < |blocks| ==> |blocks[n]| == BLOCK
    modifies bursts
    ensures Clean(bursts[..], |blocks|)
    ensures forall n :: 0 <= n < |blocks| ==> Holds(TchF96, bursts[..], n, blocks[n])
  {
    for m := 0 to |blocks|
      invariant Clean(bursts[..], m)
      invariant forall n :: 0 <= n < m ==> Holds(TchF96, bursts[..], n, blocks[n])
    {
      SendTchF96(bursts, m, blocks[m]);
    }
  }

  /** The first part of gsm0503_tch_fr96_decode: drop the flags of 22 bursts, then deinterleave. */
  method ReceiveTchF96(bursts: seq<seq<Bit>>, n: nat) returns (cB: seq<Bit>)
    requires Stream(bursts) && 4 * n + 22 <= |bursts|
    ensures Holds(TchF96, bursts, n, cB)
  {
    var iB: seq<Bit> := [];
    for i := 0 to 22
      invariant |iB| == i * 114
      invariant forall r :: 0 <= r < i ==> Row(iB, r) == XcchUnmapped(bursts[4 * n + r])
    {
      ghost var before := iB;
      iB := iB + XcchUnmapped(bursts[4 * n + i]);
      forall r | 0 <= r < i
        ensures Row(iB, r) == Row(before, r)
      {
      }
    }
    cB := Deinterleaved(TchF96, iB);
    forall k | 0 <= k < BLOCK
      ensures HoldsBit(TchF96, bursts, n, k, cB[k])
    {
      InRow(TchF96, iB, k);
    }
  }

  // ---------------------------------------------------------------------------
  // Sending and receiving

  /** TCH/FS: whatever was in the bursts before, every block of a stream comes back. */
  method RecoverTchFr(initial: seq<seq<Bit>>, blocks: seq<seq<Bit>>, flags: seq<Bit>, n: nat) returns (cB: seq<Bit>)
    requires Stream(initial) && |initial| == 4 * |blocks| + 4 && |flags| == |blocks| && n < |blocks|
    requires forall i :: 0 <= i < |blocks| ==> |blocks[i]| == BLOCK
    ensures cB == blocks[n]
  {
    var bursts := new seq<Bit>[|initial|](i requires 0 <= i < |initial| => initial[i]);
    assert bursts[..] == initial;
    SendAllTchFr(bursts, blocks, flags);
    cB := ReceiveTchFr(bursts[..], n);
    HeldOnce(TchFr, bursts[..], n, cB, blocks[n]);
  }

  /** TCH/F9.6: from zeroed bursts, every block of a stream comes back. */
  method RecoverTchF96(blocks: seq<seq<Bit>>, n: nat) returns (cB: seq<Bit>)
    requires n < |blocks| && forall i :: 0 <= i < |blocks| ==> |blocks[i]| == BLOCK
    ensures cB == blocks[n]
  {
    var bursts := new seq<Bit>[4 * |blocks| + 18](_ => seq(116, _ => 0));
    SendAllTchF96(bursts, blocks);
    cB := ReceiveTchF96(bursts[..], n);
    HeldOnce(TchF96, bursts[..], n, cB, blocks[n]);
  }
}
