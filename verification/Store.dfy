/** The engine as a transition system (db/db_impl.cc). One event is the code a thread runs between
    two points where it releases the mutex. Table files, memtables and logs are maps from internal
    keys to cells. */
module Stores {
  import opened InternalKeys
  import opened Options

  datatype Cell = Put(value: Value) | Del

  type InternalKey = (UserKey, nat)

  type Table = map<InternalKey, Cell>

  // Besides the levels of the version there are two for the memtables.
  const MEM_LEVEL: int := -2
  const IMM_LEVEL: int := -1
  const NUM_LEVELS: int := 7

  datatype File = File(number: nat, level: int, table: Table)

  // ----- Looking a key up --------------------------------------------------------------

  ghost predicate Holds(fs: set<File>, k: UserKey, sn: nat)
  {
    exists f :: f in fs && (k, sn) in f.table
  }

  /** The newest cell for `k` at or below `s` in any of the files. */
  ghost function NewestIn(fs: set<File>, k: UserKey, s: nat): Option<Cell>
  {
    if f :| f in fs && (k, s) in f.table then Some(f.table[(k, s)])
    else if s == 0 then None
    else NewestIn(fs, k, s - 1)
  }

  function ValueOf(c: Option<Cell>): Option<Value>
  {
    if c.Some? && c.value.Put? then Some(c.value.value) else None
  }

  /** What the history of all writes says about `k` as of `s`. */
  function ReadAt(history: Table, k: UserKey, s: nat): Option<Cell>
  {
    if (k, s) in history then Some(history[(k, s)])
    else if s == 0 then None
    else ReadAt(history, k, s - 1)
  }

  /** The order a read searches in: memtable, immutable memtable, the files of level 0 from the
      newest number down, then level by level. `bound` is above every file number. */
  function Rank(f: File, bound: nat): int
  {
    if f.level < 0 then f.level
    else if f.level == 0 then bound - f.number
    else bound + f.level
  }

  ghost function RunAt(fs: set<File>, bound: nat, r: int): set<File>
  {
    set f | f in fs && Rank(f, bound) == r
  }

  /** The comparator's order on internal keys. */
  predicate KeyBefore(p: InternalKey, q: InternalKey)
  {
    p.0 < q.0 || (p.0 == q.0 && p.1 > q.1)
  }

  ghost predicate WhollyBefore(t: Table, u: Table)
  {
    forall p, q :: p in t && q in u ==> KeyBefore(p, q)
  }

  ghost predicate EndsBefore(t: Table, p: InternalKey)
  {
    forall q :: q in t ==> KeyBefore(q, p)
  }

  ghost predicate IsSmallest(t: Table, p: InternalKey)
  {
    p in t && forall q :: q in t ==> q == p || KeyBefore(p, q)
  }

  ghost function Smallest(t: Table): InternalKey
  {
    if p :| IsSmallest(t, p) then p else (0, 0)
  }

  /** BySmallestKey: the order in which a version lists the files of a level. */
  ghost predicate ListedBefore(f: File, g: File)
  {
    var p, q := Smallest(f.table), Smallest(g.table);
    KeyBefore(p, q) || (p == q && f.number < g.number)
  }

  ghost predicate IsListing(run: set<File>, s: seq<File>)
  {
    && (forall f :: f in run <==> f in s)
    && (forall i, j :: 0 <= i < j < |s| ==> s[i] != s[j] && !ListedBefore(s[j], s[i]))
  }

  lemma ListedInTurn(f: File, g: File, h: File)
    ensures ListedBefore(f, g) && ListedBefore(g, h) ==> ListedBefore(f, h)
  {
    hide Smallest;
  }

  lemma {:induction false} FirstExists(run: set<File>)
    requires run != {}
    ensures exists f :: f in run && forall g :: g in run ==> !ListedBefore(g, f)
  {
    var x :| x in run;
    if run - {x} == {} {
      assert run == {x};
    } else {
      FirstExists(run - {x});
      var f :| f in run - {x} && forall g :: g in run - {x} ==> !ListedBefore(g, f);
      assert forall g :: g in run ==> g == x || g in run - {x};
      var first := if ListedBefore(x, f) then x else f;
      forall g | g in run
        ensures !ListedBefore(g, first)
      {
        if g != x {
          assert g in run - {x} && !ListedBefore(g, f);
          ListedInTurn(g, x, f);
        }
      }
    }
  }

  ghost function Listing(run: set<File>): (s: seq<File>)
    ensures IsListing(run, s)
  {
    if run == {} then []
    else
      FirstExists(run);
      var f :| f in run && forall g :: g in run ==> !ListedBefore(g, f);
      [f] + Listing(run - {f})
  }

  /** FindFile: the binary search for the first file that does not end before `p`. */
  ghost function FindIn(s: seq<File>, p: InternalKey, left: nat, right: nat): (r: nat)
    requires left <= right <= |s|
    ensures left <= r <= right
    decreases right - left
  {
    if left == right then left
    else
      var mid := (left + right) / 2;
      if EndsBefore(s[mid].table, p) then FindIn(s, p, mid + 1, right) else FindIn(s, p, left, mid)
  }

  /** The one file of a level below the first that a lookup reads, if the search finds any. */
  ghost function FileFor(run: set<File>, p: InternalKey): (r: set<File>)
    ensures r <= run
  {
    var s := Listing(run);
    var r := FindIn(s, p, 0, |s|);
    if r < |s| then {s[r]} else {}
  }

  /** What one place in the order has to say: below level 0 only the file that is found. */
  ghost function Probe(fs: set<File>, bound: nat, r: int, k: UserKey, s: nat): Option<Cell>
  {
    var run := RunAt(fs, bound, r);
    NewestIn(if r > bound then FileFor(run, (k, s)) else run, k, s)
  }

  /** The first place in the order that holds a visible cell answers. */
  ghost function Search(fs: set<File>, bound: nat, r: int, k: UserKey, s: nat): Option<Cell>
    decreases bound + NUM_LEVELS - r
  {
    if r >= bound + NUM_LEVELS then None
    else
      var found := Probe(fs, bound, r, k, s);
      if found.Some? then found else Search(fs, bound, r + 1, k, s)
  }

  ghost function Get(fs: set<File>, bound: nat, k: UserKey, s: nat): Option<Value>
  {
    ValueOf(Search(fs, bound, MEM_LEVEL, k, s))
  }

  // ----- What makes lookups right ------------------------------------------------------

  ghost predicate Newer(f: File, g: File)
  {
    f.level < g.level || (f.level == 0 && g.level == 0 && f.number > g.number)
  }

  /** Everything `f` holds for a key is newer than everything `g` holds for it. */
  ghost predicate Above(f: File, g: File)
  {
    forall k, m, n :: (k, m) in f.table && (k, n) in g.table ==> m > n
  }

  /** The age ordering: for one user key the memtable is newer than the immutable memtable, then
      come level 0 from the newest file on, level 1 and so on. */
  ghost predicate AgeOrdered(fs: set<File>)
  {
    forall f, g :: f in fs && g in fs && Newer(f, g) ==> Above(f, g)
  }

  /** No file is empty, and below level 0 the files of a level follow one another. */
  ghost predicate SortedLevels(fs: set<File>)
  {
    && (forall f :: f in fs && f.level >= 0 ==> f.table != map[])
    && (forall f, g :: f in fs && g in fs && f != g && f.level == g.level && f.level > 0 ==>
          WhollyBefore(f.table, g.table) || WhollyBefore(g.table, f.table))
  }

  /** Some user key of `t` is at or below one of `u`. */
  ghost predicate SomeUpTo(t: Table, u: Table)
  {
    exists p, q :: p in t && q in u && p.0 <= q.0
  }

  /** The user keys of the two tables span ranges that meet. */
  ghost predicate RangesMeet(t: Table, u: Table)
  {
    SomeUpTo(t, u) && SomeUpTo(u, t)
  }

  ghost predicate WithinBounds(fs: set<File>, bound: nat)
  {
    forall f :: f in fs ==> MEM_LEVEL <= f.level < NUM_LEVELS && f.number < bound
  }

  ghost predicate PartOf(fs: set<File>, history: Table)
  {
    forall f, k, n: nat :: f in fs && (k, n) in f.table ==> (k, n) in history && history[(k, n)] == f.table[(k, n)]
  }

  ghost predicate PartOfUpTo(fs: set<File>, history: Table, s: nat)
  {
    forall f, k, n: nat :: f in fs && (k, n) in f.table && n <= s ==>
      (k, n) in history && history[(k, n)] == f.table[(k, n)]
  }

  ghost predicate NewestAt(history: Table, k: UserKey, n: nat, s: nat)
  {
    && (k, n) in history && n <= s
    && forall m: nat :: n < m <= s ==> (k, m) !in history
  }

  /** The newest write as of `s` is held, or it is a deletion with nothing older left to hide. */
  ghost predicate Answers(fs: set<File>, history: Table, k: UserKey, n: nat)
    requires (k, n) in history
  {
    Holds(fs, k, n) || (history[(k, n)] == Del && forall m: nat :: m < n ==> !Holds(fs, k, m))
  }

  ghost predicate CompleteAt(fs: set<File>, history: Table, s: nat)
  {
    forall k, n: nat :: NewestAt(history, k, n, s) ==> Answers(fs, history, k, n)
  }

  ghost predicate NewestHeld(fs: set<File>, k: UserKey, n: nat, s: nat)
  {
    n <= s && Holds(fs, k, n) && forall m: nat :: n < m <= s ==> !Holds(fs, k, m)
  }

  /** `c` is the cell of the newest visible entry of the files. */
  ghost predicate Finds(fs: set<File>, history: Table, k: UserKey, s: nat, c: Option<Cell>)
  {
    match c
    case None => forall m: nat :: m <= s ==> !Holds(fs, k, m)
    case Some(cell) => exists n: nat :: NewestHeld(fs, k, n, s) && (k, n) in history && history[(k, n)] == cell
  }

  lemma {:induction false} NewestInIs(fs: set<File>, history: Table, k: UserKey, s: nat)
    requires PartOfUpTo(fs, history, s)
    ensures Finds(fs, history, k, s, NewestIn(fs, k, s))
  {
    if Holds(fs, k, s) {
      assert NewestHeld(fs, k, s, s);
    } else if s > 0 {
      NewestInIs(fs, history, k, s - 1);
      if NewestIn(fs, k, s).Some? {
        var n: nat :| NewestHeld(fs, k, n, s - 1) && (k, n) in history
          && history[(k, n)] == NewestIn(fs, k, s - 1).value;
        assert NewestHeld(fs, k, n, s);
      }
    }
  }

  lemma {:induction false} ReadAtIs(history: Table, k: UserKey, s: nat)
    ensures ReadAt(history, k, s) == None ==> forall m: nat :: m <= s ==> (k, m) !in history
    ensures ReadAt(history, k, s) != None ==>
              exists n: nat :: NewestAt(history, k, n, s) && history[(k, n)] == ReadAt(history, k, s).value
  {
    if (k, s) in history {
      assert NewestAt(history, k, s, s);
    } else if s > 0 {
      ReadAtIs(history, k, s - 1);
      if ReadAt(history, k, s).Some? {
        var n: nat :| NewestAt(history, k, n, s - 1) && history[(k, n)] == ReadAt(history, k, s - 1).value;
        assert NewestAt(history, k, n, s);
      }
    }
  }

  /** Files that hold the same entries of a key up to a number read alike. */
  lemma SameNewest(fs: set<File>, gs: set<File>, h: Table, h': Table, k: UserKey, t: nat, n: nat)
    requires PartOfUpTo(fs, h, t) && PartOfUpTo(gs, h', n) && n <= t
    requires forall m: nat :: m <= t ==> (Holds(fs, k, m) <==> m <= n && Holds(gs, k, m))
    requires forall m: nat :: m <= n && (k, m) in h && (k, m) in h' ==> h[(k, m)] == h'[(k, m)]
    ensures NewestIn(fs, k, t) == NewestIn(gs, k, n)
  {
    hide Holds, PartOfUpTo;
    NewestInIs(fs, h, k, t);
    NewestInIs(gs, h', k, n);
    if NewestIn(fs, k, t).Some? {
      var m: nat :| NewestHeld(fs, k, m, t) && (k, m) in h && h[(k, m)] == NewestIn(fs, k, t).value;
      assert Holds(gs, k, m);
    }
    if NewestIn(gs, k, n).Some? {
      var m: nat :| NewestHeld(gs, k, m, n) && (k, m) in h' && h'[(k, m)] == NewestIn(gs, k, n).value;
      assert Holds(fs, k, m);
    }
  }

  lemma {:induction false} SameHistorySameReads(h: Table, h': Table, k: UserKey, t: nat)
    requires forall n: nat :: n <= t ==> ((k, n) in h <==> (k, n) in h') && ((k, n) in h ==> h[(k, n)] == h'[(k, n)])
    ensures ReadAt(h, k, t) == ReadAt(h', k, t)
  {
    if (k, t) !in h && t > 0 {
      SameHistorySameReads(h, h', k, t - 1);
    }
  }

  lemma RanksAgree(f: File, g: File, bound: nat)
    requires WithinBounds({f, g}, bound) && Rank(f, bound) < Rank(g, bound)
    ensures Newer(f, g)
  {
  }

  ghost predicate NoneBefore(fs: set<File>, bound: nat, r: int, k: UserKey, s: nat)
  {
    forall f, m: nat :: f in fs && Rank(f, bound) < r && m <= s ==> (k, m) !in f.table
  }

  /** A hit in one place of the order is the newest of all. */
  lemma HitIsNewest(fs: set<File>, bound: nat, r: int, k: UserKey, n: nat, s: nat)
    requires AgeOrdered(fs) && WithinBounds(fs, bound) && NoneBefore(fs, bound, r, k, s)
    requires NewestHeld(RunAt(fs, bound, r), k, n, s)
    ensures NewestHeld(fs, k, n, s)
  {
    var run := RunAt(fs, bound, r);
    var f :| f in run && (k, n) in f.table;
    forall m: nat | n < m <= s
      ensures !Holds(fs, k, m)
    {
      assert !Holds(run, k, m);
      forall g | g in fs && (k, m) in g.table
        ensures Above(f, g)
      {
        RanksAgree(f, g, bound);
      }
    }
  }

  lemma MissMovesOn(fs: set<File>, bound: nat, r: int, k: UserKey, s: nat)
    requires NoneBefore(fs, bound, r, k, s) && forall m: nat :: m <= s ==> !Holds(RunAt(fs, bound, r), k, m)
    ensures NoneBefore(fs, bound, r + 1, k, s)
  {
    forall f, m: nat | f in fs && Rank(f, bound) < r + 1 && m <= s
      ensures (k, m) !in f.table
    {
      assert !Holds(RunAt(fs, bound, r), k, m);
    }
  }

  ghost predicate OneLevel(run: set<File>)
  {
    && (forall f :: f in run ==> f.table != map[])
    && (forall f, g :: f in run && g in run && f != g ==>
      WhollyBefore(f.table, g.table) || WhollyBefore(g.table, f.table))
  }

  lemma {:induction false} SmallestExists(t: Table)
    requires t != map[]
    ensures IsSmallest(t, Smallest(t))
    decreases |t|
  {
    var x :| x in t;
    var u := t - {x};
    if u == map[] {
      assert forall q :: q in t ==> q == x || q in u;
      assert IsSmallest(t, x);
    } else {
      SmallestExists(u);
      var p := Smallest(u);
      assert forall q :: q in t ==> q == x || q in u;
      assert IsSmallest(t, if KeyBefore(x, p) then x else p);
    }
  }

  /** A sorted level is listed in its order. */
  lemma ListedInOrder(run: set<File>, i: nat, j: nat)
    requires OneLevel(run) && i < j < |Listing(run)|
    ensures WhollyBefore(Listing(run)[i].table, Listing(run)[j].table)
  {
    hide Listing, Smallest;
    var f, g := Listing(run)[i], Listing(run)[j];
    SmallestExists(f.table);
    SmallestExists(g.table);
    assert f in run && g in run;
  }

  lemma {:induction false} FindsFirst(s: seq<File>, p: InternalKey, left: nat, right: nat, m: nat)
    requires left <= m <= right <= |s|
    requires forall i :: 0 <= i < |s| ==> (EndsBefore(s[i].table, p) <==> i < m)
    ensures FindIn(s, p, left, right) == m
    decreases right - left
  {
    hide EndsBefore;
    if left < right {
      var mid := (left + right) / 2;
      if mid < m {
        FindsFirst(s, p, mid + 1, right, m);
      } else {
        FindsFirst(s, p, left, mid, m);
      }
    }
  }

  /** In a sorted level the newest visible entry of a key is in the file the search finds. */
  lemma NewestIsFound(run: set<File>, f: File, k: UserKey, n: nat, s: nat)
    requires OneLevel(run) && NewestHeld(run, k, n, s) && f in run && (k, n) in f.table
    ensures f in FileFor(run, (k, s))
  {
    hide Listing, FindIn, OneLevel;
    var list := Listing(run);
    var m :| 0 <= m < |list| && list[m] == f;
    forall i | 0 <= i < |list|
      ensures EndsBefore(list[i].table, (k, s)) <==> i < m
    {
      if i < m {
        ListedInOrder(run, i, m);
        NewestEnds(run, list[i], f, k, n, s);
      } else if i > m {
        ListedInOrder(run, m, i);
        LaterReaches(run, f, list[i], k, n, s);
      } else {
        assert !KeyBefore((k, n), (k, s));
      }
    }
    FindsFirst(list, (k, s), 0, |list|, m);
  }

  lemma NewestEnds(run: set<File>, g: File, f: File, k: UserKey, n: nat, s: nat)
    requires NewestHeld(run, k, n, s) && f in run && g in run && (k, n) in f.table && WhollyBefore(g.table, f.table)
    ensures EndsBefore(g.table, (k, s))
  {
    forall q | q in g.table
      ensures KeyBefore(q, (k, s))
    {
      assert KeyBefore(q, (k, n)) && (q == (k, q.1) ==> Holds(run, k, q.1));
    }
  }

  lemma LaterReaches(run: set<File>, f: File, g: File, k: UserKey, n: nat, s: nat)
    requires OneLevel(run) && n <= s && g in run && (k, n) in f.table && WhollyBefore(f.table, g.table)
    ensures !EndsBefore(g.table, (k, s))
  {
    var q :| q in g.table;
    assert KeyBefore((k, n), q);
  }

  lemma RunIsLevel(fs: set<File>, bound: nat, r: int)
    requires SortedLevels(fs) && r > bound
    ensures OneLevel(RunAt(fs, bound, r))
  {
    hide WhollyBefore;
  }

  /** Reading one file of a sorted level is reading the level. */
  lemma ProbeFinds(fs: set<File>, bound: nat, r: int, history: Table, k: UserKey, s: nat)
    requires SortedLevels(fs) && PartOf(fs, history)
    ensures Finds(RunAt(fs, bound, r), history, k, s, Probe(fs, bound, r, k, s))
  {
    hide PartOf, OneLevel, FileFor, SortedLevels;
    var run := RunAt(fs, bound, r);
    var first := FileFor(run, (k, s));
    PartOfSome(fs, run, history, s);
    PartOfSome(fs, first, history, s);
    NewestInIs(run, history, k, s);
    if r > bound {
      RunIsLevel(fs, bound, r);
      NewestInIs(first, history, k, s);
      assert forall m: nat :: Holds(first, k, m) ==> Holds(run, k, m);
      if NewestIn(run, k, s).Some? {
        var n: nat :| NewestHeld(run, k, n, s) && (k, n) in history && history[(k, n)] == NewestIn(run, k, s).value;
        var f :| f in run && (k, n) in f.table;
        NewestIsFound(run, f, k, n, s);
        assert Holds(first, k, n);
      }
    }
  }

  lemma PartOfSome(fs: set<File>, some: set<File>, history: Table, s: nat)
    requires PartOf(fs, history) && some <= fs
    ensures PartOfUpTo(some, history, s)
  {
  }

  /** Searching in order finds the newest visible cell of all files. */
  lemma {:induction false} SearchFindsNewest(fs: set<File>, bound: nat, r: int, history: Table, k: UserKey, s: nat)
    requires AgeOrdered(fs) && SortedLevels(fs) && WithinBounds(fs, bound) && PartOf(fs, history)
             && r <= bound + NUM_LEVELS
    requires NoneBefore(fs, bound, r, k, s)
    ensures Finds(fs, history, k, s, Search(fs, bound, r, k, s))
    decreases bound + NUM_LEVELS - r
  {
    hide Probe, SortedLevels;
    if r < bound + NUM_LEVELS {
      var run := RunAt(fs, bound, r);
      ProbeFinds(fs, bound, r, history, k, s);
      var found := Probe(fs, bound, r, k, s);
      if found.Some? {
        var n: nat :| NewestHeld(run, k, n, s) && (k, n) in history && history[(k, n)] == found.value;
        HitIsNewest(fs, bound, r, k, n, s);
      } else {
        MissMovesOn(fs, bound, r, k, s);
        SearchFindsNewest(fs, bound, r + 1, history, k, s);
      }
    }
  }

  /** What the search finds and what the history says are the same value. */
  lemma FoundIsHistory(fs: set<File>, history: Table, k: UserKey, s: nat, found: Option<Cell>)
    requires PartOfUpTo(fs, history, s) && CompleteAt(fs, history, s) && Finds(fs, history, k, s, found)
    ensures ValueOf(found) == ValueOf(ReadAt(history, k, s))
  {
    ReadAtIs(history, k, s);
    if found.Some? {
      var m: nat :| NewestHeld(fs, k, m, s) && (k, m) in history && history[(k, m)] == found.value;
    }
    if ReadAt(history, k, s).Some? {
      var n: nat :| NewestAt(history, k, n, s) && history[(k, n)] == ReadAt(history, k, s).value;
      assert Answers(fs, history, k, n);
    }
  }

  /** A lookup gives what the history says. */
  lemma GetIsHistory(fs: set<File>, bound: nat, history: Table, k: UserKey, s: nat)
    requires AgeOrdered(fs) && SortedLevels(fs) && WithinBounds(fs, bound) && PartOf(fs, history)
             && CompleteAt(fs, history, s)
    ensures Get(fs, bound, k, s) == ValueOf(ReadAt(history, k, s))
  {
    SearchFindsNewest(fs, bound, MEM_LEVEL, history, k, s);
    FoundIsHistory(fs, history, k, s, Search(fs, bound, MEM_LEVEL, k, s));
  }
}
