/** Building the file list of a level of a new version (db/version_set.cc, VersionSet::Builder): it is in
    the order of the smallest keys again, whether or not the ranges of the files overlap. */
module VersionBuilder {
  import opened InternalKeys
  import opened CompactionInputs

  datatype Listed = Listed(number: nat, file: FileMeta)

  /** BySmallestKey. */
  predicate Before(f: Listed, g: Listed)
  {
    var d, e := f.file.smallest, g.file.smallest;
    Precedes(d, e) || ((d.key, d.sn) == (e.key, e.sn) && f.number < g.number)
  }

  ghost predicate InOrder(files: seq<Listed>)
  {
    forall i, j :: 0 <= i < j < |files| ==> !Before(files[j], files[i])
  }

  /** std::upper_bound, in the files from `from` on. */
  method UpperBound(base: seq<Listed>, from: nat, x: Listed) returns (p: nat)
    requires InOrder(base) && from <= |base|
    ensures from <= p <= |base|
    ensures (forall i :: from <= i < p ==> !Before(x, base[i])) && (forall i :: p <= i < |base| ==> Before(x, base[i]))
  {
    p := from;
    var high := |base|;
    while p < high
      invariant from <= p <= high <= |base|
      invariant forall i :: from <= i < p ==> !Before(x, base[i])
      invariant forall i :: high <= i < |base| ==> Before(x, base[i])
    {
      var mid := (p + high) / 2;
      if Before(x, base[mid]) {
        high := mid;
      } else {
        p := mid + 1;
      }
    }
  }

  /** MaybeAddFile: a deleted file is left out. */
  function Kept(files: seq<Listed>, f: Listed, deleted: set<nat>): seq<Listed>
  {
    if f.number in deleted then files else files + [f]
  }

  function Remaining(files: seq<Listed>, deleted: set<nat>): seq<Listed>
  {
    if files == [] then [] else Kept(Remaining(files[..|files| - 1], deleted), files[|files| - 1], deleted)
  }

  lemma RemainingStep(files: seq<Listed>, n: nat, deleted: set<nat>)
    requires n < |files|
    ensures multiset(Remaining(files[..n + 1], deleted))
            == multiset(Remaining(files[..n], deleted))
              + (if files[n].number in deleted then multiset{} else multiset{files[n]})
  {
    assert files[..n + 1][..n] == files[..n];
  }

  /** A deleted file is nowhere, any other as often as it was listed. */
  lemma {:induction false} RemainingIs(files: seq<Listed>, deleted: set<nat>, f: Listed)
    ensures multiset(Remaining(files, deleted))[f] == (if f.number in deleted then 0 else multiset(files)[f])
  {
    if files != [] {
      RemainingIs(files[..|files| - 1], deleted, f);
      assert files == files[..|files| - 1] + [files[|files| - 1]];
    }
  }

  /** The list so far has what remains of the first `b` old and `a` new files, and nothing in it has to come
      after any of the others. */
  ghost predicate Merged(files: seq<Listed>, base: seq<Listed>, b: nat, added: seq<Listed>, a: nat, deleted: set<nat>)
    requires b <= |base| && a <= |added|
  {
    && InOrder(files)
    && multiset(files) == multiset(Remaining(base[..b], deleted)) + multiset(Remaining(added[..a], deleted))
    && (forall f, i :: f in files && b <= i < |base| ==> !Before(base[i], f))
    && (forall f, i :: f in files && a <= i < |added| ==> !Before(added[i], f))
  }

  lemma KeptInOrder(files: seq<Listed>, f: Listed, deleted: set<nat>)
    requires InOrder(files) && forall g :: g in files ==> !Before(f, g)
    ensures InOrder(Kept(files, f, deleted))
  {
  }

  lemma TakeBase(files: seq<Listed>, base: seq<Listed>, b: nat, added: seq<Listed>, a: nat, deleted: set<nat>)
    requires InOrder(base) && InOrder(added) && b < |base| && a <= |added| && Merged(files, base, b, added, a, deleted)
    requires a < |added| ==> !Before(added[a], base[b])
    ensures Merged(Kept(files, base[b], deleted), base, b + 1, added, a, deleted)
  {
    hide Before, Remaining;
    KeptInOrder(files, base[b], deleted);
    RemainingStep(base, b, deleted);
    forall i | a <= i < |added|
      ensures !Before(added[i], base[b])
    {
      Chain(base[b], added[a], added[i]);
    }
    forall i | b < i < |base|
      ensures !Before(base[i], base[b])
    {
    }
  }

  lemma TakeAdded(files: seq<Listed>, base: seq<Listed>, b: nat, added: seq<Listed>, a: nat, deleted: set<nat>)
    requires InOrder(base) && InOrder(added) && b <= |base| && a < |added| && Merged(files, base, b, added, a, deleted)
    requires forall i :: b <= i < |base| ==> Before(added[a], base[i])
    ensures Merged(Kept(files, added[a], deleted), base, b, added, a + 1, deleted)
  {
    hide Before, Remaining;
    KeptInOrder(files, added[a], deleted);
    RemainingStep(added, a, deleted);
    forall i | b <= i < |base|
      ensures !Before(base[i], added[a])
    {
      OneWay(added[a], base[i]);
    }
  }

  lemma Chain(f: Listed, g: Listed, h: Listed)
    requires !Before(g, f) && (g == h || !Before(h, g))
    ensures !Before(h, f)
  {
  }

  lemma OneWay(f: Listed, g: Listed)
    requires Before(f, g)
    ensures !Before(g, f)
  {
  }

  /** Whatever was added and deleted, the level is listed in order and has every other file, once. */
  method SaveTo(base: seq<Listed>, added: seq<Listed>, deleted: set<nat>) returns (files: seq<Listed>)
    requires InOrder(base) && InOrder(added)
    ensures InOrder(files)
    ensures multiset(files) == multiset(Remaining(base, deleted)) + multiset(Remaining(added, deleted))
    ensures forall f ::
              multiset(files)[f] == if f.number in deleted then 0 else multiset(base)[f] + multiset(added)[f]
  {
    hide Before, InOrder, Merged, Kept, Remaining;
    files := [];
    var b := 0;
    NothingMerged(base, added, deleted);
    for a := 0 to |added|
      invariant b <= |base| && Merged(files, base, b, added, a, deleted)
    {
      var bpos := UpperBound(base, b, added[a]);
      while b < bpos
        invariant b <= bpos && Merged(files, base, b, added, a, deleted)
      {
        TakeBase(files, base, b, added, a, deleted);
        files := Kept(files, base[b], deleted);
        b := b + 1;
      }
      TakeAdded(files, base, b, added, a, deleted);
      files := Kept(files, added[a], deleted);
    }
    while b < |base|
      invariant b <= |base| && Merged(files, base, b, added, |added|, deleted)
    {
      TakeBase(files, base, b, added, |added|, deleted);
      files := Kept(files, base[b], deleted);
      b := b + 1;
    }
    AllMerged(files, base, added, deleted);
    forall f
      ensures multiset(files)[f] == (if f.number in deleted then 0 else multiset(base)[f] + multiset(added)[f])
    {
      RemainingIs(base, deleted, f);
      RemainingIs(added, deleted, f);
    }
  }

  lemma NothingMerged(base: seq<Listed>, added: seq<Listed>, deleted: set<nat>)
    ensures Merged([], base, 0, added, 0, deleted)
  {
  }

  lemma AllMerged(files: seq<Listed>, base: seq<Listed>, added: seq<Listed>, deleted: set<nat>)
    requires Merged(files, base, |base|, added, |added|, deleted)
    ensures InOrder(files)
            && multiset(files) == multiset(Remaining(base, deleted)) + multiset(Remaining(added, deleted))
  {
    hide Remaining, Before;
    assert base[..|base|] == base && added[..|added|] == added;
  }
}
