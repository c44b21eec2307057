/** The bookkeeping of required fields (pb_decode.c, pb_decode_noinit): one bit for each of the first 64,
    in two words, and the test at the end. */
module PbRequired {
  import opened PbWire
  import opened PbMessage
  import opened PbParse

  const ALL_BITS: nat := 0xffff_ffff

  /** The word whose bit `i` says whether `from + i` is in the set, up to bit `n`. */
  function Word(s: set<nat>, from: nat, n: nat): (r: nat)
    ensures r < Pow2(n)
  {
    if n == 0 then 0 else Word(s, from, n - 1) + (if from + n - 1 in s then Pow2(n - 1) else 0)
  }

  predicate IsMask(words: seq<nat>, s: set<nat>)
  {
    |words| == 2 && words[0] == Word(s, 0, 32) && words[1] == Word(s, 32, 32)
  }

  predicate BitIsSet(word: nat, i: nat)
  {
    (word / Pow2(i)) % 2 == 1
  }

  /** word |= 1 << i. */
  function SetBit(word: nat, i: nat): nat
  {
    if BitIsSet(word, i) then word else word + Pow2(i)
  }

  lemma {:induction false} SplitWord(s: set<nat>, from: nat, n: nat, i: nat) returns (high: nat)
    requires i < n
    ensures Word(s, from, n) == Word(s, from, i) + Pow2(i) * ((if from + i in s then 1 else 0) + 2 * high)
    decreases n
  {
    if n == i + 1 {
      high := 0;
    } else {
      var h := SplitWord(s, from, n - 1, i);
      var p := PowerOver(i, n - 1);
      high := h + (if from + n - 1 in s then p else 0);
      Spread(Pow2(i), if from + i in s then 1 else 0, h, p);
    }
  }

  lemma Spread(a: nat, d: nat, h: nat, p: nat)
    ensures a * (d + 2 * (h + p)) == a * (d + 2 * h) + (2 * a) * p
  {
    assert a * (d + 2 * (h + p)) == a * (d + 2 * h) + a * (2 * p);
    assert a * (2 * p) == (2 * a) * p;
  }

  /** 2^n is a multiple of 2^(i + 1) for i < n. */
  lemma {:induction false} PowerOver(i: nat, n: nat) returns (q: nat)
    requires i < n
    ensures Pow2(n) == (2 * Pow2(i)) * q
  {
    if n > i + 1 {
      var r := PowerOver(i, n - 1);
      q := 2 * r;
      assert (2 * Pow2(i)) * (2 * r) == 2 * ((2 * Pow2(i)) * r);
    } else {
      q := 1;
    }
  }

  lemma BitOfWord(s: set<nat>, from: nat, n: nat, i: nat)
    requires i < n
    ensures BitIsSet(Word(s, from, n), i) <==> from + i in s
  {
    var high := SplitWord(s, from, n, i);
    var d := if from + i in s then 1 else 0;
    Digit(Pow2(i), Word(s, from, i), d, high);
  }

  lemma Digit(a: nat, low: nat, d: nat, high: nat)
    requires low < a && d < 2
    ensures ((low + a * (d + 2 * high)) / a) % 2 == d
  {
    Whole(a, low, d + 2 * high);
  }

  lemma Whole(a: nat, low: nat, q: nat)
    requires low < a
    ensures (low + a * q) / a == q
  {
    assert (low + a * q) / a >= q && (low + a * q) / a < q + 1 by {
      var x := (low + a * q) / a;
      assert x * a <= low + a * q < x * a + a;
      if x < q {
        Monotone(x + 1, q, a);
      } else if x > q {
        Monotone(q + 1, x, a);
      }
    }
  }

  lemma Monotone(x: nat, y: nat, a: nat)
    requires x <= y
    ensures x * a <= y * a
  {
  }

  lemma {:induction false} WordWith(s: set<nat>, from: nat, n: nat, k: nat)
    ensures Word(s + {k}, from, n) == Word(s, from, n) + (if k !in s && from <= k < from + n then Pow2(k - from) else 0)
  {
    if n > 0 {
      WordWith(s, from, n - 1, k);
    }
  }

  /** Marking a field as seen. */
  method MarkSeen(words: seq<nat>, index: nat, ghost s: set<nat>) returns (r: seq<nat>)
    requires IsMask(words, s) && index < MAX_REQUIRED_FIELDS
    ensures IsMask(r, s + {index})
  {
    hide Word, BitIsSet, Pow2;
    var w := index / 32;
    BitOfWord(s, 32 * w, 32, index % 32);
    WordWith(s, 0, 32, index);
    WordWith(s, 32, 32, index);
    r := words[w := SetBit(words[w], index % 32)];
  }

  /** Of the numbers a word stands for, the set holds just the first `r`. */
  predicate HoldsFirst(s: set<nat>, from: nat, n: nat, r: nat)
  {
    forall k :: from <= k < from + n ==> (k in s <==> k < from + r)
  }

  lemma {:induction false} LowBits(s: set<nat>, from: nat, n: nat, r: nat)
    requires r <= n
    ensures Word(s, from, n) == Pow2(r) - 1 <==> HoldsFirst(s, from, n, r)
    decreases n
  {
    if n > 0 {
      var last := from + n - 1;
      if r < n {
        LowBits(s, from, n - 1, r);
        PowGrows(r, n - 1);
      } else {
        LowBits(s, from, n - 1, n - 1);
      }
      assert HoldsFirst(s, from, n, r)
        <==> HoldsFirst(s, from, n - 1, if r < n then r else n - 1) && (last in s <==> r == n);
    }
  }

  lemma {:induction false} PowGrows(a: nat, b: nat)
    requires a <= b
    ensures Pow2(a) <= Pow2(b)
  {
    if a < b {
      PowGrows(a, b - 1);
    }
  }

  /** Shifting all ones right leaves the low ones. */
  function LowOnes(n: nat): nat
  {
    Pow2(n) - 1
  }

  /** The test at the end: whole words first, then the remaining bits. */
  method CheckRequired(words: seq<nat>, requiredCount: nat, ghost s: set<nat>) returns (ok: bool)
    requires IsMask(words, s) && forall k :: k in s ==> k < requiredCount
    ensures ok <==> forall k :: 0 <= k < requiredCount && k < MAX_REQUIRED_FIELDS ==> k in s
  {
    hide Word, Pow2;
    Pow2Of32();
    LowBits(s, 0, 32, 32);
    LowBits(s, 32, 32, 32);
    var count := if requiredCount > MAX_REQUIRED_FIELDS then MAX_REQUIRED_FIELDS else requiredCount;
    for i := 0 to count / 32
      invariant forall k :: 0 <= k < 32 * i ==> k in s
    {
      if words[i] != ALL_BITS {
        return false;
      }
    }
    if count % 32 != 0 {
      LowBits(s, 32 * (count / 32), 32, count % 32);
      if words[count / 32] != LowOnes(count % 32) {
        return false;
      }
    }
    return true;
  }

  // ----- What the indexes are ----------------------------------------------------------

  lemma {:induction false} EveryIndexTaken(fields: seq<Field>, n: nat, k: nat) returns (i: nat)
    requires n <= |fields| && k < RequiredBefore(fields, n)
    ensures i < n && fields[i].htype == HRequired && RequiredBefore(fields, i) == k
  {
    if k < RequiredBefore(fields, n - 1) {
      i := EveryIndexTaken(fields, n - 1, k);
    } else {
      i := n - 1;
    }
  }

  /** The mark of a required field is its own: no other required field has its index. */
  lemma {:induction false} IndexesDiffer(fields: seq<Field>, i: nat, n: nat)
    requires i < n <= |fields| && fields[i].htype == HRequired
    ensures RequiredBefore(fields, i) < RequiredBefore(fields, n)
  {
    if i < n - 1 {
      IndexesDiffer(fields, i, n - 1);
    }
  }

  /** The test passes exactly when every required field among the first 64 has been seen. */
  lemma {:induction false} TestMeansSeen(fields: seq<Field>, s: set<nat>)
    ensures AllRequiredSeen(fields, s)
            <==> forall k :: 0 <= k < RequiredBefore(fields, |fields|) && k < MAX_REQUIRED_FIELDS ==> k in s
  {
    hide RequiredBefore;
    if AllRequiredSeen(fields, s) {
      forall k | 0 <= k < RequiredBefore(fields, |fields|) && k < MAX_REQUIRED_FIELDS
        ensures k in s
      {
        var i := EveryIndexTaken(fields, |fields|, k);
      }
    }
    forall i | 0 <= i < |fields| && fields[i].htype == HRequired
      ensures RequiredBefore(fields, i) < RequiredBefore(fields, |fields|)
    {
      IndexesDiffer(fields, i, |fields|);
    }
  }
}
