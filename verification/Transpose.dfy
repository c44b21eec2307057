/** Transposing a multi-array (CoreMLHelpers/MLMultiArray+Helpers.swift): an odometer over the source
    index, and the offsets it leads to. Arrays are laid out with the last dimension fastest. */
module Transpose {

  function Product(shape: seq<nat>): nat
  {
    if shape == [] then 1 else shape[0] * Product(shape[1..])
  }

  /** An index into an array of this shape. */
  predicate InShape(idx: seq<nat>, shape: seq<nat>)
  {
    |idx| == |shape| && forall i :: 0 <= i < |shape| ==> idx[i] < shape[i]
  }

  /** The number of elements one step in dimension `i` moves by. */
  function Stride(shape: seq<nat>, i: nat): nat
    requires i < |shape|
  {
    Product(shape[i + 1..])
  }

  function Offset(idx: seq<nat>, shape: seq<nat>): nat
    requires |idx| == |shape|
  {
    if idx == [] then 0 else idx[0] * Product(shape[1..]) + Offset(idx[1..], shape[1..])
  }

  /** The mixed-radix digits of `j`. */
  function Digits(j: nat, shape: seq<nat>): (r: seq<nat>)
    ensures |r| == |shape|
  {
    if shape == [] then []
    else
      var p := Product(shape[1..]);
      if p == 0 then seq(|shape|, i => 0) else [j / p] + Digits(j % p, shape[1..])
  }

  lemma {:induction false} OffsetInRange(idx: seq<nat>, shape: seq<nat>)
    requires InShape(idx, shape)
    ensures Offset(idx, shape) < Product(shape)
  {
    if idx != [] {
      var p := Product(shape[1..]);
      assert InShape(idx[1..], shape[1..]);
      OffsetInRange(idx[1..], shape[1..]);
      Below(idx[0], shape[0], p);
    }
  }

  lemma Below(a: nat, b: nat, p: nat)
    requires a < b
    ensures a * p + p <= b * p
  {
    assert (b - a - 1) * p >= 0;
    assert b * p == a * p + p + (b - a - 1) * p;
  }

  lemma Divide(a: nat, r: nat, p: nat)
    requires r < p
    ensures (a * p + r) / p == a && (a * p + r) % p == r
  {
    var q := (a * p + r) / p;
    assert q * p <= a * p + r < q * p + p;
    if q < a {
      Below(q, a, p);
    } else if q > a {
      Below(a, q, p);
    }
  }

  /** The digits of an index's offset are the index. */
  lemma {:induction false} DigitsOfOffset(idx: seq<nat>, shape: seq<nat>)
    requires InShape(idx, shape)
    ensures Digits(Offset(idx, shape), shape) == idx
  {
    if idx != [] {
      var p := Product(shape[1..]);
      assert InShape(idx[1..], shape[1..]);
      DigitsOfOffset(idx[1..], shape[1..]);
      OffsetInRange(idx[1..], shape[1..]);
      Divide(idx[0], Offset(idx[1..], shape[1..]), p);
      assert [idx[0]] + idx[1..] == idx;
    }
  }

  /** Every position is the offset of its digits. */
  lemma {:induction false} OffsetOfDigits(j: nat, shape: seq<nat>)
    requires j < Product(shape)
    ensures InShape(Digits(j, shape), shape) && Offset(Digits(j, shape), shape) == j
  {
    if shape != [] {
      var p := Product(shape[1..]);
      Positive(shape[0], p, j);
      var d := Digits(j, shape);
      OffsetOfDigits(j % p, shape[1..]);
      assert d[0] == j / p && d[1..] == Digits(j % p, shape[1..]);
      Quotient(j, shape[0], p);
    }
  }

  lemma Positive(n: nat, p: nat, j: nat)
    requires j < n * p
    ensures p > 0
  {
  }

  lemma Quotient(j: nat, n: nat, p: nat)
    requires p > 0 && j < n * p
    ensures j / p < n && (j / p) * p + j % p == j
  {
    if j / p >= n {
      Monotone(n, j / p, p);
    }
  }

  lemma Monotone(a: nat, b: nat, p: nat)
    requires a <= b
    ensures a * p <= b * p
  {
  }

  // ----- The odometer ------------------------------------------------------------------

  /** Changing one digit moves the offset by whole strides. */
  lemma {:induction false} OffsetUpdate(idx: seq<nat>, shape: seq<nat>, i: nat, v: nat)
    requires |idx| == |shape| && i < |idx|
    ensures Offset(idx[i := v], shape) == Offset(idx, shape) + (v - idx[i]) * Stride(shape, i)
  {
    var after := idx[i := v];
    if i == 0 {
      assert after[1..] == idx[1..];
      assert v * Product(shape[1..]) == idx[0] * Product(shape[1..]) + (v - idx[0]) * Product(shape[1..]);
    } else {
      assert after[1..] == idx[1..][i - 1 := v] && shape[1..][i..] == shape[i + 1..];
      OffsetUpdate(idx[1..], shape[1..], i - 1, v);
    }
  }

  lemma StrideBefore(shape: seq<nat>, i: nat)
    requires 0 < i < |shape|
    ensures Stride(shape, i - 1) == shape[i] * Stride(shape, i)
  {
    assert shape[i..][0] == shape[i] && shape[i..][1..] == shape[i + 1..];
  }

  /** A carry leaves the offset as it is. */
  lemma Carry(idx: seq<nat>, shape: seq<nat>, i: nat)
    requires |idx| == |shape| && 0 < i < |idx| && idx[i] == shape[i]
    ensures Offset(idx[i := 0][i - 1 := idx[i - 1] + 1], shape) == Offset(idx, shape)
  {
    hide Offset, Product, Stride;
    OffsetUpdate(idx, shape, i, 0);
    OffsetUpdate(idx[i := 0], shape, i - 1, idx[i - 1] + 1);
    StrideBefore(shape, i);
    var p := Stride(shape, i);
    var d: int := idx[i];
    assert (0 - d) * p == -(d * p);
  }

  /** All digits are in range but the first, which may have come to its end. */
  predicate Turned(idx: seq<nat>, shape: seq<nat>)
  {
    |idx| == |shape| > 0 && idx[0] <= shape[0] && forall k :: 0 < k < |shape| ==> idx[k] < shape[k]
  }

  /** The loop that updates the source index: from the digits of a position to those of the next. */
  method Advance(idx: seq<nat>, shape: seq<nat>) returns (r: seq<nat>)
    requires InShape(idx, shape) && |shape| > 0
    ensures Turned(r, shape) && Offset(r, shape) == Offset(idx, shape) + 1
  {
    var i := |shape| - 1;
    OffsetUpdate(idx, shape, i, idx[i] + 1);
    assert shape[i + 1..] == [];
    r := idx[i := idx[i] + 1];
    while i > 0 && r[i] >= shape[i]
      invariant 0 <= i < |shape| == |r| && Offset(r, shape) == Offset(idx, shape) + 1
      invariant r[i] <= shape[i] && forall k :: 0 <= k < |shape| && k != i ==> r[k] < shape[k]
      decreases i
    {
      Carry(r, shape, i);
      r := r[i := 0];
      r := r[i - 1 := r[i - 1] + 1];
      i := i - 1;
    }
  }

  lemma TurnedInRange(idx: seq<nat>, shape: seq<nat>)
    requires Turned(idx, shape) && Offset(idx, shape) < Product(shape)
    ensures InShape(idx, shape)
  {
    Smaller(idx[0], shape[0], Product(shape[1..]), Offset(idx, shape));
  }

  lemma Smaller(a: nat, b: nat, p: nat, x: nat)
    requires a * p <= x < b * p
    ensures a < b
  {
    if b <= a {
      Monotone(b, a, p);
    }
  }

  // ----- Transposition -----------------------------------------------------------------

  predicate IsPermutation(order: seq<nat>)
  {
    && (forall i :: 0 <= i < |order| ==> order[i] < |order|)
    && (forall i, j :: 0 <= i < j < |order| ==> order[i] != order[j])
    && (forall k :: 0 <= k < |order| ==> k in order)
  }

  /** What `s` looks like in the new order: its dimension `i` is the old dimension `order[i]`. */
  function Permuted(s: seq<nat>, order: seq<nat>): (r: seq<nat>)
    requires |s| == |order| && IsPermutation(order)
    ensures |r| == |s| && forall i :: 0 <= i < |s| ==> r[i] == s[order[i]]
  {
    seq(|order|, i requires 0 <= i < |order| => s[order[i]])
  }

  function IndexOf(order: seq<nat>, k: nat): (i: nat)
    requires k in order
    ensures i < |order| && order[i] == k
  {
    if order[0] == k then 0 else 1 + IndexOf(order[1..], k)
  }

  function Inverse(order: seq<nat>): (r: seq<nat>)
    requires IsPermutation(order)
    ensures |r| == |order| && forall k :: 0 <= k < |order| ==> r[k] < |order| && order[r[k]] == k
  {
    seq(|order|, k requires 0 <= k < |order| => IndexOf(order, k))
  }

  lemma InverseIsPermutation(order: seq<nat>)
    requires IsPermutation(order)
    ensures IsPermutation(Inverse(order))
  {
    var inv := Inverse(order);
    forall i | 0 <= i < |order|
      ensures i in inv
    {
      assert order[inv[order[i]]] == order[i];
      assert inv[order[i]] == i;
    }
  }

  lemma PermutedBack(s: seq<nat>, order: seq<nat>)
    requires |s| == |order| && IsPermutation(order)
    ensures IsPermutation(Inverse(order)) && Permuted(Permuted(s, order), Inverse(order)) == s
  {
    InverseIsPermutation(order);
    var inv := Inverse(order);
    assert forall k :: 0 <= k < |s| ==>
      Permuted(Permuted(s, order), inv)[k] == Permuted(s, order)[inv[k]] == s[order[inv[k]]];
  }

  lemma InversePermutedBack(s: seq<nat>, order: seq<nat>)
    requires |s| == |order| && IsPermutation(order)
    ensures IsPermutation(Inverse(order)) && Permuted(Permuted(s, Inverse(order)), order) == s
  {
    InverseIsPermutation(order);
    var inv := Inverse(order);
    forall i | 0 <= i < |s|
      ensures Permuted(Permuted(s, inv), order)[i] == s[i]
    {
      assert order[inv[order[i]]] == order[i];
      assert inv[order[i]] == i;
    }
  }

  /** Where element `j` of the source goes. */
  function Destination(j: nat, shape: seq<nat>, order: seq<nat>): nat
    requires |shape| == |order| && IsPermutation(order)
  {
    Offset(Permuted(Digits(j, shape), order), Permuted(shape, order))
  }

  /** Transposing by the inverse permutation takes every destination back: destinations are a bijection
      between the positions of the two arrays. */
  lemma DestinationBijective(j: nat, shape: seq<nat>, order: seq<nat>)
    requires |shape| == |order| && IsPermutation(order) && j < Product(shape)
    ensures Destination(j, shape, order) < Product(Permuted(shape, order)) && IsPermutation(Inverse(order))
    ensures Destination(Destination(j, shape, order), Permuted(shape, order), Inverse(order)) == j
  {
    var idx := Digits(j, shape);
    OffsetOfDigits(j, shape);
    var idx', shape' := Permuted(idx, order), Permuted(shape, order);
    assert InShape(idx', shape');
    OffsetInRange(idx', shape');
    DigitsOfOffset(idx', shape');
    PermutedBack(idx, order);
    PermutedBack(shape, order);
  }

  /** And every position of the new array is reached. */
  lemma DestinationOnto(k: nat, shape: seq<nat>, order: seq<nat>) returns (j: nat)
    requires |shape| == |order| && IsPermutation(order) && k < Product(Permuted(shape, order))
    ensures j < Product(shape) && Destination(j, shape, order) == k
  {
    var shape', inv := Permuted(shape, order), Inverse(order);
    InverseIsPermutation(order);
    PermutedBack(shape, order);
    var idx' := Digits(k, shape');
    OffsetOfDigits(k, shape');
    var idx := Permuted(idx', inv);
    InversePermutedBack(idx', order);
    assert InShape(idx, shape) by {
      forall i | 0 <= i < |shape|
        ensures idx[i] < shape[i]
      {
        assert idx[i] == idx'[inv[i]] && shape'[inv[i]] == shape[order[inv[i]]];
      }
    }
    OffsetInRange(idx, shape);
    DigitsOfOffset(idx, shape);
    j := Offset(idx, shape);
  }

  lemma DestinationDistinct(j: nat, k: nat, shape: seq<nat>, order: seq<nat>)
    requires |shape| == |order| && IsPermutation(order) && j < Product(shape) && k < Product(shape) && j != k
    ensures Destination(j, shape, order) != Destination(k, shape, order)
  {
    DestinationBijective(j, shape, order);
    DestinationBijective(k, shape, order);
  }

  /** The elements of `before` in the order of the new array. */
  function TransposedData(before: seq<real>, shape: seq<nat>, order: seq<nat>): (after: seq<real>)
    requires |shape| == |order| && IsPermutation(order) && |before| == Product(shape)
    ensures |after| == Product(Permuted(shape, order))
  {
    InverseIsPermutation(order);
    PermutedBack(shape, order);
    seq(Product(Permuted(shape, order)), k requires 0 <= k < Product(Permuted(shape, order)) =>
      DestinationBijective(k, Permuted(shape, order), Inverse(order));
      before[Destination(k, Permuted(shape, order), Inverse(order))])
  }

  /** Each element lands at its permuted index: dimension `i` of the new array is dimension `order[i]` of the old. */
  lemma ElementsLand(before: seq<real>, shape: seq<nat>, order: seq<nat>, idx: seq<nat>)
    requires |shape| == |order| && IsPermutation(order) && |before| == Product(shape) && InShape(idx, shape)
    ensures InShape(Permuted(idx, order), Permuted(shape, order))
    ensures forall i :: 0 <= i < |order| ==>
              Permuted(shape, order)[i] == shape[order[i]] && Permuted(idx, order)[i] == idx[order[i]]
    ensures Offset(idx, shape) < |before|
            && Offset(Permuted(idx, order), Permuted(shape, order)) < Product(Permuted(shape, order))
    ensures TransposedData(before, shape, order)[Offset(Permuted(idx, order), Permuted(shape, order))]
            == before[Offset(idx, shape)]
  {
    OffsetInRange(idx, shape);
    OffsetInRange(Permuted(idx, order), Permuted(shape, order));
    DigitsOfOffset(idx, shape);
    DestinationBijective(Offset(idx, shape), shape, order);
  }

  /** Transposing by the inverse permutation restores the array. */
  lemma TransposeBack(before: seq<real>, shape: seq<nat>, order: seq<nat>)
    requires |shape| == |order| && IsPermutation(order) && |before| == Product(shape)
    ensures IsPermutation(Inverse(order))
    ensures TransposedData(TransposedData(before, shape, order), Permuted(shape, order), Inverse(order)) == before
  {
    hide Destination, Product;
    InverseIsPermutation(order);
    PermutedBack(shape, order);
    var shape', inv := Permuted(shape, order), Inverse(order);
    var after := TransposedData(before, shape, order);
    var back := TransposedData(after, shape', inv);
    InverseTwice(order);
    forall j | 0 <= j < |before|
      ensures back[j] == before[j]
    {
      DestinationBijective(j, shape, order);
      assert back[j] == after[Destination(j, shape, order)];
    }
  }

  lemma InverseTwice(order: seq<nat>)
    requires IsPermutation(order)
    ensures IsPermutation(Inverse(order)) && Inverse(Inverse(order)) == order
  {
    InverseIsPermutation(order);
    var inv := Inverse(order);
    forall i | 0 <= i < |order|
      ensures Inverse(inv)[i] == order[i]
    {
      assert inv[Inverse(inv)[i]] == i && order[inv[Inverse(inv)[i]]] == Inverse(inv)[i];
    }
  }

  lemma RestOfOffset(idx: seq<nat>, shape: seq<nat>, i: nat)
    requires |idx| == |shape| && i < |idx|
    ensures Offset(idx[i..], shape[i..]) == idx[i] * Stride(shape, i) + Offset(idx[i + 1..], shape[i + 1..])
  {
    assert idx[i..][1..] == idx[i + 1..] && shape[i..][1..] == shape[i + 1..];
  }

  /** The loop of reshaped(to:): strides from the last dimension forward. */
  method Strides(dimensions: seq<nat>) returns (strides: seq<nat>)
    requires dimensions != []
    ensures |strides| == |dimensions| && forall i :: 0 <= i < |dimensions| ==> strides[i] == Stride(dimensions, i)
  {
    var n := |dimensions|;
    strides := seq(n, i => 0);
    strides := strides[n - 1 := 1];
    assert dimensions[n..] == [];
    var i := n - 1;
    while i > 0
      invariant 0 <= i < n == |strides|
      invariant forall k :: i <= k < n ==> strides[k] == Stride(dimensions, k)
    {
      StrideBefore(dimensions, i);
      strides := strides[i - 1 := strides[i] * dimensions[i]];
      i := i - 1;
    }
  }

  /** The inner loop of transposed(to:). */
  method DestinationIndex(idx: seq<nat>, shape: seq<nat>, order: seq<nat>, dstStride: seq<nat>) returns (dstIndex: nat)
    requires |idx| == |shape| == |order| == |dstStride| && IsPermutation(order)
    requires forall i :: 0 <= i < |order| ==> dstStride[i] == Stride(Permuted(shape, order), i)
    ensures dstIndex == Offset(Permuted(idx, order), Permuted(shape, order))
  {
    hide Offset, Stride;
    ghost var idx', shape' := Permuted(idx, order), Permuted(shape, order);
    dstIndex := 0;
    assert idx'[0..] == idx' && shape'[0..] == shape';
    for i := 0 to |order|
      invariant dstIndex + Offset(idx'[i..], shape'[i..]) == Offset(idx', shape')
    {
      RestOfOffset(idx', shape', i);
      dstIndex := dstIndex + idx[order[i]] * dstStride[i];
    }
    assert Offset(idx'[|order|..], shape'[|order|..]) == 0 by { NoOffset(); }
  }

  lemma NoOffset()
    ensures Offset([], []) == 0
  {
  }

  lemma AfterAdvance(j: nat, r: seq<nat>, shape: seq<nat>)
    requires Turned(r, shape) && Offset(r, shape) == j + 1 < Product(shape)
    ensures r == Digits(j + 1, shape)
  {
    TurnedInRange(r, shape);
    DigitsOfOffset(r, shape);
  }

  lemma OthersElsewhere(j: nat, shape: seq<nat>, order: seq<nat>)
    requires |shape| == |order| && IsPermutation(order) && j < Product(shape)
    ensures forall k :: 0 <= k < j ==> Destination(k, shape, order) != Destination(j, shape, order)
  {
    hide Product, Destination;
    forall k | 0 <= k < j
      ensures Destination(k, shape, order) != Destination(j, shape, order)
    {
      DestinationDistinct(k, j, shape, order);
    }
  }

  /** Once every element has been copied to its destination, the array is transposed. */
  lemma AllCopied(before: seq<real>, shape: seq<nat>, order: seq<nat>, after: seq<real>)
    requires |shape| == |order| && IsPermutation(order) && |before| == Product(shape)
             && |after| == Product(Permuted(shape, order))
    requires forall k :: 0 <= k < |before| ==>
             Destination(k, shape, order) < |after| && after[Destination(k, shape, order)] == before[k]
    ensures after == TransposedData(before, shape, order)
  {
    hide Product, Destination;
    InverseIsPermutation(order);
    PermutedBack(shape, order);
    forall k | 0 <= k < |after|
      ensures after[k] == TransposedData(before, shape, order)[k]
    {
      var j := DestinationOnto(k, shape, order);
      DestinationBijective(j, shape, order);
    }
  }

  /** transposed(to:). The new array is allocated in the same layout. */
  method Transposed(src: array<real>, shape: seq<nat>, order: seq<nat>) returns (dst: array<real>)
    requires |shape| == |order| > 0 && IsPermutation(order) && src.Length == Product(shape)
    ensures fresh(dst) && dst[..] == TransposedData(src[..], shape, order)
  {
    hide Product, Destination, Offset, Digits, IsPermutation, TransposedData, Turned, InShape;
    var newShape := Permuted(shape, order);
    dst := new real[Product(newShape)];
    var dstStride := Strides(newShape);
    var idx := seq(|order|, i => 0);
    if src.Length > 0 {
      FirstDigits(shape);
    }
    for j := 0 to src.Length
      invariant |idx| == |shape| && (j < src.Length ==> idx == Digits(j, shape))
      invariant forall k :: 0 <= k < j ==>
                Destination(k, shape, order) < dst.Length && dst[Destination(k, shape, order)] == src[k]
    {
      DestinationBijective(j, shape, order);
      OthersElsewhere(j, shape, order);
      OffsetOfDigits(j, shape);
      DestinationIs(j, shape, order);
      var dstIndex := DestinationIndex(idx, shape, order, dstStride);
      dst[dstIndex] := src[j];
      idx := Advance(idx, shape);
      assert |idx| == |shape| by { TurnedLength(idx, shape); }
      if j + 1 < src.Length {
        AfterAdvance(j, idx, shape);
      }
    }
    AllCopied(src[..], shape, order, dst[..]);
  }

  lemma TurnedLength(idx: seq<nat>, shape: seq<nat>)
    requires Turned(idx, shape)
    ensures |idx| == |shape|
  {
  }

  lemma DestinationIs(j: nat, shape: seq<nat>, order: seq<nat>)
    requires |shape| == |order| && IsPermutation(order)
    ensures Destination(j, shape, order) == Offset(Permuted(Digits(j, shape), order), Permuted(shape, order))
  {
  }

  lemma {:induction false} FirstDigits(shape: seq<nat>)
    requires Product(shape) > 0
    ensures Digits(0, shape) == seq(|shape|, i => 0)
  {
    if shape != [] {
      FirstDigits(shape[1..]);
    }
  }
}
