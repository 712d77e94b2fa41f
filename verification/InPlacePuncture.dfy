/** Puncturing and depuncturing in the same buffer, as gsm0503_pdtch_encode and gsm0503_pdtch_decode in
    src/coding/gsm0503_coding.c do for CS-2 and CS-3. */
module InPlacePuncture {

  /** The unpunctured elements, in order. */
  function Kept(mask: seq<bool>, x: seq<int>): (r: seq<int>)
    requires |mask| == |x|
    ensures |r| <= |x|
    decreases |x|
  {
    if x == [] then []
    else
      var n := |x| - 1;
      Kept(mask[..n], x[..n]) + (if mask[n] then [] else [x[n]])
  }

  /** How many elements a mask keeps. */
  function Count(mask: seq<bool>): (n: nat)
    ensures n <= |mask|
  {
    if mask == [] then 0 else Count(mask[..|mask| - 1]) + (if mask[|mask| - 1] then 0 else 1)
  }

  /** The kept elements back in place, 0 at the punctured positions. */
  function Refilled(mask: seq<bool>, kept: seq<int>): (x: seq<int>)
    requires |kept| == Count(mask)
    ensures |x| == |mask|
    decreases |mask|
  {
    if mask == [] then []
    else
      var n := |mask| - 1;
      if mask[n] then Refilled(mask[..n], kept) + [0]
      else Refilled(mask[..n], kept[..|kept| - 1]) + [kept[|kept| - 1]]
  }

  lemma {:induction false} KeptCount(mask: seq<bool>, x: seq<int>)
    requires |mask| == |x|
    ensures |Kept(mask, x)| == Count(mask)
    decreases |x|
  {
    if x == [] {
    } else {
      KeptCount(mask[..|x| - 1], x[..|x| - 1]);
    }
  }

  /** Element i of the refilled buffer: 0, or the kept element whose rank is the number of kept ones before i. */
  lemma {:induction false} RefilledAt(mask: seq<bool>, kept: seq<int>, i: nat)
    requires |kept| == Count(mask) && i < |mask|
    ensures mask[i] ==> Refilled(mask, kept)[i] == 0
    ensures !mask[i] ==> Count(mask[..i]) < |kept| && Refilled(mask, kept)[i] == kept[Count(mask[..i])]
    decreases |mask|
  {
    var n := |mask| - 1;
    if i == n {
    } else {
      assert mask[..n][..i] == mask[..i];
      RefilledAt(mask[..n], if mask[n] then kept else kept[..|kept| - 1], i);
    }
  }

  lemma {:induction false} KeptAt(mask: seq<bool>, x: seq<int>, i: nat)
    requires |mask| == |x| && i < |x| && !mask[i]
    ensures Count(mask[..i]) < |Kept(mask, x)| && Kept(mask, x)[Count(mask[..i])] == x[i]
    decreases |x|
  {
    var n := |x| - 1;
    KeptCount(mask[..n], x[..n]);
    if i == n {
    } else {
      assert mask[..n][..i] == mask[..i];
      KeptAt(mask[..n], x[..n], i);
    }
  }

  /** Depuncturing undoes puncturing: kept positions are restored, punctured ones are 0. */
  lemma {:induction false} RefilledKept(mask: seq<bool>, x: seq<int>, i: nat)
    requires |mask| == |x| && i < |x|
    ensures |Kept(mask, x)| == Count(mask)
    ensures Refilled(mask, Kept(mask, x))[i] == if mask[i] then 0 else x[i]
  {
    KeptCount(mask, x);
    RefilledAt(mask, Kept(mask, x), i);
    if !mask[i] {
      KeptAt(mask, x, i);
    }
  }

  /** And puncturing undoes depuncturing. */
  lemma {:induction false} KeptRefilled(mask: seq<bool>, kept: seq<int>)
    requires |kept| == Count(mask)
    ensures Kept(mask, Refilled(mask, kept)) == kept
    decreases |mask|
  {
    if mask == [] {
    } else {
      var n := |mask| - 1;
      var last := if mask[n] then [] else [kept[|kept| - 1]];
      var front := kept[..|kept| - |last|];
      assert kept == front + last;
      assert mask[n] ==> front == kept;
      var x := Refilled(mask[..n], front);
      assert Refilled(mask, kept) == x + (if mask[n] then [0] else last);
      assert Refilled(mask, kept)[..n] == x;
      KeptRefilled(mask[..n], front);
      assert Kept(mask, Refilled(mask, kept)) == Kept(mask[..n], x) + last;
    }
  }

  /** The encoder's loop: moves the kept elements to the front. */
  method Puncture(cB: array<int>, mask: seq<bool>) returns (j: nat)
    requires |mask| <= cB.Length
    modifies cB
    ensures j == Count(mask)
    ensures cB[..j] == Kept(mask, old(cB[..|mask|]))
    ensures cB[|mask|..] == old(cB[|mask|..])
  {
    ghost var x := cB[..|mask|];
    j := 0;
    for i := 0 to |mask|
      invariant j == |Kept(mask[..i], x[..i])| <= i
      invariant cB[..j] == Kept(mask[..i], x[..i])
      invariant forall k :: i <= k < cB.Length ==> cB[k] == old(cB[k])
    {
      assert mask[..i + 1][..i] == mask[..i] && x[..i + 1][..i] == x[..i];
      if !mask[i] {
        ghost var front := cB[..j];
        cB[j] := cB[i];
        assert cB[..j + 1] == front + [x[i]];
        j := j + 1;
      }
    }
    assert mask[..|mask|] == mask && x[..|mask|] == x;
    KeptCount(mask, x);
  }

  /** The decoder's loop: from the back, moves every kept element to its place and writes 0 elsewhere. */
  method Depuncture(cB: array<int>, mask: seq<bool>)
    requires |mask| <= cB.Length
    modifies cB
    ensures cB[..|mask|] == Refilled(mask, old(cB[..Count(mask)]))
    ensures cB[|mask|..] == old(cB[|mask|..])
  {
    ghost var kept := cB[..Count(mask)];
    ghost var goal := Refilled(mask, kept);
    var j := Count(mask) - 1;
    assert mask[..|mask|] == mask;
    for i := |mask| downto 0
      invariant j == Count(mask[..i]) - 1 < |kept|
      invariant forall k :: 0 <= k <= j ==> cB[k] == kept[k]
      invariant forall k :: i <= k < |mask| ==> cB[k] == goal[k]
      invariant forall k :: |mask| <= k < cB.Length ==> cB[k] == old(cB[k])
    {
      assert mask[..i + 1][..i] == mask[..i];
      RefilledAt(mask, kept, i);
      if !mask[i] {
        cB[i] := cB[j];
        j := j - 1;
      } else {
        cB[i] := 0;
      }
    }
  }

  /** Both loops one after the other on the same buffer: kept positions are as before, punctured ones 0. */
  method PunctureAndBack(cB: array<int>, mask: seq<bool>)
    requires |mask| <= cB.Length
    modifies cB
    ensures forall i :: 0 <= i < |mask| ==> cB[i] == if mask[i] then 0 else old(cB[i])
    ensures cB[|mask|..] == old(cB[|mask|..])
  {
    ghost var x := cB[..|mask|];
    var j := Puncture(cB, mask);
    Depuncture(cB, mask);
    forall i | 0 <= i < |mask|
      ensures cB[i] == if mask[i] then 0 else x[i]
    {
      RefilledKept(mask, x, i);
      assert cB[i] == cB[..|mask|][i];
    }
  }
}
