/** The skip list (db/skiplist.h): searches, the store-by-store insert, and readers that run
    between the stores. Keys are memtable entries, ordered by the internal-key comparator. */
module SkipLists {
  import opened InternalKeys

  const MAX_HEIGHT: nat := 12
  // Nodes are numbered in allocation order; the head comes first.
  const HEAD: int := 0
  const NIL: int := -1

  /** The whole list at one instant: the keys of all nodes, the links of every level, and per level
      the nodes that have been linked into it. */
  datatype View = View(keys: seq<Entry>, next: seq<map<int, int>>, maxHeight: nat, nodes: seq<set<int>>)

  predicate Before(keys: seq<Entry>, x: int, y: int)
  {
    && 0 < y < |keys|
    && (x == HEAD || (0 < x < |keys| && Precedes(keys[x], keys[y])))
  }

  /** `y` is where a link from `x` has to lead: to the first node of `nodes` after it. */
  ghost predicate LinkOk(keys: seq<Entry>, nodes: set<int>, x: int, y: int)
  {
    && (y == NIL || (y in nodes && Before(keys, x, y)))
    && (forall z :: z in nodes && Before(keys, x, z) ==> y != NIL && (z == y || Before(keys, y, z)))
  }

  ghost predicate Distinct(keys: seq<Entry>, nodes: set<int>)
  {
    && (forall x :: x in nodes ==> 0 < x < |keys|)
    && (forall x, y :: x in nodes && y in nodes && x != y ==> Before(keys, x, y) || Before(keys, y, x))
  }

  ghost predicate LevelOk(keys: seq<Entry>, next: map<int, int>, nodes: set<int>)
  {
    && Distinct(keys, nodes)
    && (forall x :: x == HEAD || x in nodes ==> x in next && LinkOk(keys, nodes, x, next[x]))
  }

  /** The invariant readers rely on at every instant: every level is a strictly sorted list and
      part of the level below. */
  ghost predicate Inv(v: View)
  {
    && |v.keys| > 0 && |v.next| == |v.nodes| == MAX_HEIGHT
    && 1 <= v.maxHeight <= MAX_HEIGHT
    && (forall l :: 0 <= l < MAX_HEIGHT ==> LevelOk(v.keys, v.next[l], v.nodes[l]))
    && (forall l :: 0 < l < MAX_HEIGHT ==> v.nodes[l] <= v.nodes[l - 1])
    && (forall l :: v.maxHeight <= l < MAX_HEIGHT ==> v.nodes[l] == {})
  }

  /** Nodes are never removed, moved or rewritten. */
  ghost predicate Grows(v: View, w: View)
  {
    && |v.nodes| == |w.nodes| == MAX_HEIGHT
    && v.keys <= w.keys && v.maxHeight <= w.maxHeight
    && forall l :: 0 <= l < MAX_HEIGHT ==> v.nodes[l] <= w.nodes[l]
  }

  // ----- A level as a sequence ---------------------------------------------------------

  ghost function After(keys: seq<Entry>, nodes: set<int>, x: int): set<int>
  {
    set y | y in nodes && Before(keys, x, y)
  }

  /** The entries met by following the links of a level from `x`. */
  ghost function Walk(keys: seq<Entry>, next: map<int, int>, nodes: set<int>, x: int): (r: seq<Entry>)
    requires LevelOk(keys, next, nodes) && (x == HEAD || x in nodes)
    decreases |After(keys, nodes, x)|
  {
    var y := next[x];
    assert LinkOk(keys, nodes, x, y);
    if y == NIL then [] else
    assert y in After(keys, nodes, x) && y !in After(keys, nodes, y);
    assert After(keys, nodes, y) < After(keys, nodes, x);
    SmallerSet(After(keys, nodes, y), After(keys, nodes, x));
    [keys[y]] + Walk(keys, next, nodes, y)
  }

  lemma SmallerSet(a: set<int>, b: set<int>)
    requires a < b
    ensures |a| < |b|
  {
    assert b == a + (b - a) && b - a != {};
  }

  /** Walking a level from the head meets exactly its nodes, strictly sorted. */
  lemma {:induction false} WalkIsSorted(keys: seq<Entry>, next: map<int, int>, nodes: set<int>, x: int)
    requires LevelOk(keys, next, nodes) && (x == HEAD || x in nodes)
    ensures Sorted(Walk(keys, next, nodes, x))
    ensures forall e :: e in Walk(keys, next, nodes, x) <==>
              exists y :: y in nodes && Before(keys, x, y) && keys[y] == e
    decreases |After(keys, nodes, x)|
  {
    var y := next[x];
    assert LinkOk(keys, nodes, x, y);
    if y != NIL {
      assert y in After(keys, nodes, x) && y !in After(keys, nodes, y);
      assert After(keys, nodes, y) < After(keys, nodes, x);
      SmallerSet(After(keys, nodes, y), After(keys, nodes, x));
      WalkIsSorted(keys, next, nodes, y);
      var rest := Walk(keys, next, nodes, y);
      var all := Walk(keys, next, nodes, x);
      assert all == [keys[y]] + rest;
      forall e
        ensures e in all <==> exists z :: z in nodes && Before(keys, x, z) && keys[z] == e
      {
        if z :| z in nodes && Before(keys, x, z) && keys[z] == e {
          assert z == y || Before(keys, y, z);
          assert e in all;
        }
        if e in rest {
          var z :| z in nodes && Before(keys, y, z) && keys[z] == e;
          assert Before(keys, x, z);
        }
      }
      forall j | 0 <= j < |rest|
        ensures Precedes(keys[y], rest[j])
      {
        assert rest[j] in rest;
      }
    }
  }

  // ----- Inserting a node into one level -----------------------------------------------

  /** Storing both links of node `n` between `prev` and its successor. */
  lemma LinkKeepsLevel(keys: seq<Entry>, next: map<int, int>, nodes: set<int>, prev: int, n: int)
    requires LevelOk(keys, next, nodes)
    requires prev == HEAD || prev in nodes
    requires Before(keys, prev, n) && n !in nodes
    requires next[prev] != NIL ==> Before(keys, n, next[prev])
    ensures LevelOk(keys, next[n := next[prev]][prev := n], nodes + {n})
  {
    var succ := next[prev];
    assert LinkOk(keys, nodes, prev, succ);
    var after, all := next[n := succ][prev := n], nodes + {n};
    forall x | x in nodes
      ensures Before(keys, x, n) || Before(keys, n, x)
    {
    }
    forall x | x == HEAD || x in all
      ensures x in after && LinkOk(keys, all, x, after[x])
    {
      if x != n && x != prev {
        LinkElsewhere(keys, nodes, prev, succ, n, x, next[x]);
      }
    }
  }

  lemma LinkElsewhere(keys: seq<Entry>, nodes: set<int>, prev: int, succ: int, n: int, x: int, y: int)
    requires Distinct(keys, nodes)
    requires prev == HEAD || prev in nodes
    requires x == HEAD || x in nodes
    requires x != prev && LinkOk(keys, nodes, prev, succ) && LinkOk(keys, nodes, x, y)
    requires Before(keys, prev, n) && n !in nodes
    requires succ != NIL ==> Before(keys, n, succ)
    ensures LinkOk(keys, nodes + {n}, x, y)
  {
  }

  /** Allocating a node changes nothing a reader can reach. */
  lemma AllocateKeepsInv(v: View, key: Entry)
    requires Inv(v)
    ensures Inv(v.(keys := v.keys + [key])) && Grows(v, v.(keys := v.keys + [key]))
  {
    var keys := v.keys + [key];
    assert keys[..|v.keys|] == v.keys;
    forall l | 0 <= l < MAX_HEIGHT
      ensures LevelOk(keys, v.next[l], v.nodes[l])
    {
      AllocateKeepsLevel(v.keys, key, v.next[l], v.nodes[l]);
    }
  }

  lemma AllocateKeepsLevel(keys: seq<Entry>, key: Entry, next: map<int, int>, nodes: set<int>)
    requires LevelOk(keys, next, nodes)
    ensures LevelOk(keys + [key], next, nodes)
  {
    forall x, y | (x == HEAD || x in nodes) && y in nodes
      ensures Before(keys + [key], x, y) <==> Before(keys, x, y)
    {
    }
    forall x | x == HEAD || x in nodes
      ensures LinkOk(keys + [key], nodes, x, next[x])
    {
      assert LinkOk(keys, nodes, x, next[x]);
    }
  }

  function SetLink(v: View, l: nat, x: int, y: int): View
    requires l < |v.next|
  {
    v.(next := v.next[l := v.next[l][x := y]])
  }

  /** A node that is not linked yet can store its own link. */
  lemma OwnLinkKeepsInv(v: View, l: nat, n: int, y: int)
    requires Inv(v) && l < MAX_HEIGHT && n != HEAD && n !in v.nodes[l]
    ensures Inv(SetLink(v, l, n, y)) && Grows(v, SetLink(v, l, n, y))
  {
    var w := SetLink(v, l, n, y);
    assert LevelOk(v.keys, v.next[l], v.nodes[l]);
    assert LevelOk(w.keys, w.next[l], w.nodes[l]);
  }

  function Publish(v: View, l: nat, prev: int, n: int): View
    requires l < |v.next| && l < |v.nodes|
  {
    SetLink(v, l, prev, n).(nodes := v.nodes[l := v.nodes[l] + {n}])
  }

  /** Publishing a node whose own link is in place, bottom up. */
  lemma PublishKeepsInv(v: View, l: nat, prev: int, n: int)
    requires Inv(v) && l < v.maxHeight
    requires prev == HEAD || prev in v.nodes[l]
    requires Before(v.keys, prev, n) && n !in v.nodes[l]
    requires prev in v.next[l] && n in v.next[l] && v.next[l][n] == v.next[l][prev]
    requires v.next[l][prev] != NIL ==> Before(v.keys, n, v.next[l][prev])
    requires l > 0 ==> n in v.nodes[l - 1]
    ensures Inv(Publish(v, l, prev, n)) && Grows(v, Publish(v, l, prev, n))
  {
    hide LevelOk, LinkOk, Before;
    assert LevelOk(v.keys, v.next[l], v.nodes[l]);
    LinkKeepsLevel(v.keys, v.next[l], v.nodes[l], prev, n);
    assert v.next[l][n := v.next[l][prev]] == v.next[l];
    var w := Publish(v, l, prev, n);
    assert LevelOk(w.keys, w.next[l], w.nodes[l]);
    forall m | 0 <= m < MAX_HEIGHT && m != l
      ensures LevelOk(w.keys, w.next[m], w.nodes[m])
    {
      assert LevelOk(v.keys, v.next[m], v.nodes[m]);
    }
  }

  // ----- Searching ---------------------------------------------------------------------

  /** KeyIsAfterNode: a null node is after every key. */
  predicate KeyIsAfterNode(keys: seq<Entry>, target: Entry, n: int)
  {
    0 <= n < |keys| && Precedes(keys[n], target)
  }

  ghost predicate IsBefore(v: View, l: nat, target: Entry, x: int)
    requires l < |v.nodes|
  {
    x == HEAD || (x in v.nodes[l] && KeyIsAfterNode(v.keys, target, x))
  }

  /** `x` is the last node of level `l` before the target, or the head. */
  ghost predicate Lands(v: View, l: nat, target: Entry, x: int)
    requires l < |v.nodes| && l < |v.next|
  {
    IsBefore(v, l, target, x) && x in v.next[l] && !KeyIsAfterNode(v.keys, target, v.next[l][x])
  }

  /** `y` is the first node of the bottom list not before the target, or none. */
  ghost predicate IsLeastFrom(v: View, target: Entry, y: int)
    requires |v.nodes| > 0
  {
    && (y == NIL || (y in v.nodes[0] && !KeyIsAfterNode(v.keys, target, y)))
    && (forall z :: z in v.nodes[0] && !KeyIsAfterNode(v.keys, target, z) ==>
      y != NIL && (z == y || Before(v.keys, y, z)))
  }

  lemma LandsOnLeast(v: View, target: Entry, x: int)
    requires Inv(v) && Lands(v, 0, target, x)
    ensures IsLeastFrom(v, target, v.next[0][x])
  {
    assert LevelOk(v.keys, v.next[0], v.nodes[0]);
    assert LinkOk(v.keys, v.nodes[0], x, v.next[0][x]);
  }

  // ----- Readers between the stores ----------------------------------------------------

  /** A search in progress: one link is read per step. */
  datatype Reader = Searching(x: int, level: nat) | Found(node: int)

  function ReaderStep(v: View, target: Entry, r: Reader): Reader
    requires r.Searching? ==> r.level < |v.next| && r.x in v.next[r.level]
  {
    if r.Found? then r else
    var next := v.next[r.level][r.x];
    if KeyIsAfterNode(v.keys, target, next) then Searching(next, r.level)
    else if r.level == 0 then Found(next)
    else Searching(r.x, r.level - 1)
  }

  ghost predicate ReaderOk(v: View, target: Entry, r: Reader)
  {
    r.Searching? ==> r.level < MAX_HEIGHT && r.level < |v.nodes| && IsBefore(v, r.level, target, r.x)
  }

  /** How many more links a search can read, if the list never grows beyond `v`. */
  ghost function StepsLeft(v: View, r: Reader): nat
    requires |v.nodes| > 0
  {
    if r.Found? then 0 else 1 + r.level + |After(v.keys, v.nodes[0], r.x)|
  }

  lemma BottomHasAll(v: View, l: nat)
    requires Inv(v) && l < MAX_HEIGHT
    ensures v.nodes[l] <= v.nodes[0]
  {
    if l > 0 {
      BottomHasAll(v, l - 1);
    }
  }

  lemma ReaderStepKeeps(v: View, target: Entry, r: Reader, last: View)
    requires Inv(v) && Inv(last) && Grows(v, last) && ReaderOk(v, target, r) && r.Searching?
    ensures r.x in v.next[r.level]
    ensures var r' := ReaderStep(v, target, r);
            && ReaderOk(v, target, r')
            && (r'.Found? ==> IsLeastFrom(v, target, r'.node))
            && StepsLeft(last, r') < StepsLeft(last, r)
  {
    assert LevelOk(v.keys, v.next[r.level], v.nodes[r.level]);
    var next := v.next[r.level][r.x];
    assert LinkOk(v.keys, v.nodes[r.level], r.x, next);
    if KeyIsAfterNode(v.keys, target, next) {
      BottomHasAll(last, r.level);
      assert Before(last.keys, r.x, next);
      assert LevelOk(last.keys, last.next[0], last.nodes[0]);
      FewerAfter(last.keys, last.nodes[0], r.x, next);
    } else if r.level == 0 {
      LandsOnLeast(v, target, r.x);
    }
  }

  lemma ReaderOkGrows(v: View, w: View, target: Entry, r: Reader)
    requires Inv(v) && Grows(v, w) && ReaderOk(v, target, r)
    ensures ReaderOk(w, target, r)
  {
  }

  lemma FewerAfter(keys: seq<Entry>, nodes: set<int>, x: int, y: int)
    requires y in nodes && Before(keys, x, y)
    ensures |After(keys, nodes, y)| < |After(keys, nodes, x)|
  {
    assert y in After(keys, nodes, x) && y !in After(keys, nodes, y);
    SmallerSet(After(keys, nodes, y), After(keys, nodes, x));
  }

  ghost predicate History(views: seq<View>)
  {
    && (forall i :: 0 <= i < |views| ==> Inv(views[i]))
    && (forall i, j :: 0 <= i <= j < |views| ==> Grows(views[i], views[j]))
  }

  /** The search after reading one link in each of the views in turn. */
  ghost function ReaderRun(views: seq<View>, target: Entry, r: Reader): Reader
    requires History(views) && (views != [] ==> ReaderOk(views[0], target, r))
  {
    if views == [] || r.Found? then r else
    ReaderStepKeeps(views[0], target, r, views[0]);
    var r' := ReaderStep(views[0], target, r);
    assert |views| > 1 ==> Grows(views[0], views[1]);
    ReaderRun(views[1..], target, r')
  }

  /** A search interleaved with any inserts ends on the least node not before the target of the
      bottom list as it was at its last read, and it ends no matter how often the list changes. */
  lemma {:induction false} ReaderFindsLeast(views: seq<View>, target: Entry, r: Reader) returns (last: nat)
    requires History(views) && views != [] && r.Searching? && ReaderOk(views[0], target, r)
    ensures |views| >= StepsLeft(views[|views| - 1], r) ==> ReaderRun(views, target, r).Found?
    ensures ReaderRun(views, target, r).Found? ==>
              && last < |views| && ReaderRun(views[..last], target, r).Searching?
              && IsLeastFrom(views[last], target, ReaderRun(views, target, r).node)
    decreases |views|
  {
    hide Grows, LevelOk, IsBefore, After, KeyIsAfterNode, Before, IsLeastFrom;
    ReaderStepKeeps(views[0], target, r, views[|views| - 1]);
    var r' := ReaderStep(views[0], target, r);
    last := 0;
    if r'.Found? {
      assert ReaderRun(views[1..], target, r') == r';
    } else if |views| > 1 {
      ReaderOkGrows(views[0], views[1], target, r');
      var after := ReaderFindsLeast(views[1..], target, r');
      last := after + 1;
      if ReaderRun(views, target, r).Found? {
        assert views[..last][1..] == views[1..][..after] && views[..last][0] == views[0];
      }
    }
  }

  lemma AllocateKeepsLands(v: View, key: Entry, l: nat, target: Entry, x: int)
    requires Inv(v) && l < MAX_HEIGHT && Lands(v, l, target, x)
    ensures Lands(v.(keys := v.keys + [key]), l, target, x)
  {
    assert LevelOk(v.keys, v.next[l], v.nodes[l]);
    assert LinkOk(v.keys, v.nodes[l], x, v.next[l][x]);
  }

  lemma EmptyLevelLands(v: View, l: nat, target: Entry)
    requires Inv(v) && v.maxHeight <= l < MAX_HEIGHT
    ensures Lands(v, l, target, HEAD)
  {
    assert LevelOk(v.keys, v.next[l], v.nodes[l]);
    assert LinkOk(v.keys, v.nodes[l], HEAD, v.next[l][HEAD]);
  }

  // ----- The list itself ---------------------------------------------------------------

  ghost function KeySet(v: View): set<Entry>
    requires |v.nodes| > 0
  {
    set n | n in v.nodes[0] && 0 <= n < |v.keys| :: v.keys[n]
  }

  /** One store of an insert: the height, a fresh node's key, or one link. */
  ghost predicate OneStore(v: View, w: View)
  {
    || (w == v.(maxHeight := w.maxHeight))
    || (|w.keys| == |v.keys| + 1 && w == v.(keys := w.keys))
    || (exists l: nat, x, y | l < |v.next| :: w == SetLink(v, l, x, y).(nodes := w.nodes))
  }

  /** Every instant of an insert is fit for readers, and one store apart from the one before. */
  ghost predicate StoreByStore(steps: seq<View>)
  {
    && (forall i :: 0 <= i < |steps| ==> Inv(steps[i]))
    && (forall i :: 0 <= i < |steps| - 1 ==> Grows(steps[i], steps[i + 1]) && OneStore(steps[i], steps[i + 1]))
  }

  lemma AddStore(steps: seq<View>, v: View)
    requires StoreByStore(steps) && steps != [] && Inv(v)
    requires Grows(steps[|steps| - 1], v) && OneStore(steps[|steps| - 1], v)
    ensures StoreByStore(steps + [v])
  {
    hide Inv, Grows, OneStore;
  }

  /** Any subsequence of the instants of any number of inserts is a history a reader may meet. */
  lemma {:induction false} StoresAreHistory(steps: seq<View>, i: nat, j: nat)
    requires StoreByStore(steps) && i <= j < |steps|
    ensures Grows(steps[i], steps[j])
    decreases j - i
  {
    assert Inv(steps[i]);
    if i < j {
      StoresAreHistory(steps, i, j - 1);
      assert Grows(steps[j - 1], steps[j - 1 + 1]);
    }
  }

  /** The two link stores of one level of an insert. */
  lemma LinkStores(v: View, l: nat, prev: int, n: int)
    requires Inv(v) && l < v.maxHeight && 0 < n < |v.keys| && n !in v.nodes[l]
    requires l > 0 ==> n in v.nodes[l - 1]
    requires Lands(v, l, v.keys[n], prev)
    requires forall z :: z in v.nodes[l] ==> (v.keys[z].key, v.keys[z].sn) != (v.keys[n].key, v.keys[n].sn)
    ensures prev in v.next[l]
    ensures var v1 := SetLink(v, l, n, v.next[l][prev]);
            var v2 := Publish(v1, l, prev, n);
            Inv(v1) && Inv(v2) && Grows(v, v1) && Grows(v1, v2) && OneStore(v, v1) && OneStore(v1, v2)
  {
    assert LevelOk(v.keys, v.next[l], v.nodes[l]);
    assert LinkOk(v.keys, v.nodes[l], prev, v.next[l][prev]);
    assert Before(v.keys, prev, n);
    OwnLinkKeepsInv(v, l, n, v.next[l][prev]);
    var v1 := SetLink(v, l, n, v.next[l][prev]);
    PublishKeepsInv(v1, l, prev, n);
    assert v1 == SetLink(v, l, n, v.next[l][prev]).(nodes := v1.nodes);
  }

  lemma KeySetGrows(v: View, w: View, n: int)
    requires Inv(v) && Inv(w) && n == |v.keys| < |w.keys| && v.keys == w.keys[..n] && w.nodes[0] == v.nodes[0] + {n}
    ensures KeySet(w) == KeySet(v) + {w.keys[n]}
  {
    assert LevelOk(v.keys, v.next[0], v.nodes[0]);
    assert n in w.nodes[0];
    forall x | x in v.nodes[0]
      ensures w.keys[x] == v.keys[x]
    {
    }
    forall e | e in KeySet(v)
      ensures e in KeySet(w)
    {
      var x :| x in v.nodes[0] && 0 <= x < |v.keys| && v.keys[x] == e;
      assert x in w.nodes[0] && w.keys[x] == e;
    }
  }

  lemma RaiseKeepsInv(v: View, height: nat)
    requires Inv(v) && v.maxHeight < height <= MAX_HEIGHT
    ensures var w := v.(maxHeight := height); Inv(w) && Grows(v, w) && OneStore(v, w) && KeySet(w) == KeySet(v)
  {
  }

  lemma RaiseKeepsLands(v: View, height: nat, l: nat, target: Entry, x: int)
    requires l < |v.nodes| && l < |v.next| && Lands(v, l, target, x)
    ensures Lands(v.(maxHeight := height), l, target, x)
  {
  }

  lemma AllocateIsOneStore(v: View, key: Entry)
    ensures OneStore(v, v.(keys := v.keys + [key]))
  {
  }

  lemma Shape(v: View)
    requires Inv(v)
    ensures |v.next| == |v.nodes| == MAX_HEIGHT && 1 <= v.maxHeight <= MAX_HEIGHT && |v.keys| > 0
  {
  }

  lemma NewSteps(v: View)
    requires Inv(v)
    ensures StoreByStore([v])
  {
  }

  lemma PublishKeepsLands(v: View, i: nat, prev: int, n: int, l: nat, target: Entry, x: int)
    requires i < |v.next| == |v.nodes| && l < |v.nodes| && l != i && prev in v.next[i] && Lands(v, l, target, x)
    ensures Lands(Publish(SetLink(v, i, n, v.next[i][prev]), i, prev, n), l, target, x)
  {
  }

  lemma NotLinkedYet(v: View, l: nat, key: Entry)
    requires Inv(v) && l < MAX_HEIGHT
    requires forall e :: e in KeySet(v) ==> (e.key, e.sn) != (key.key, key.sn)
    ensures forall z :: z in v.nodes[l] ==> 0 < z < |v.keys| && (v.keys[z].key, v.keys[z].sn) != (key.key, key.sn)
  {
    BottomHasAll(v, l);
    assert LevelOk(v.keys, v.next[0], v.nodes[0]);
    forall z | z in v.nodes[l]
      ensures 0 < z < |v.keys| && v.keys[z] in KeySet(v)
    {
    }
  }

  lemma LinkLevel(steps: seq<View>, v: View, l: nat, prev: seq<int>, n: int, key: Entry, height: nat)
    requires Inv(v) && l < height <= v.maxHeight && 0 < n < |v.keys| && v.keys[n] == key && n !in v.nodes[l]
    requires l > 0 ==> n in v.nodes[l - 1]
    requires forall z :: z in v.nodes[l] ==> (v.keys[z].key, v.keys[z].sn) != (key.key, key.sn)
    requires |prev| == MAX_HEIGHT && forall m :: l <= m < height ==> Lands(v, m, key, prev[m])
    requires StoreByStore(steps) && steps != [] && steps[|steps| - 1] == v
    ensures prev[l] in v.next[l]
    ensures var v1 := SetLink(v, l, n, v.next[l][prev[l]]);
            var v2 := Publish(v1, l, prev[l], n);
            && StoreByStore(steps + [v1] + [v2]) && Inv(v2)
            && forall m :: l < m < height ==> Lands(v2, m, key, prev[m])
  {
    hide Inv, Grows, OneStore, StoreByStore, Lands;
    Shape(v);
    LinkStores(v, l, prev[l], n);
    var v1 := SetLink(v, l, n, v.next[l][prev[l]]);
    AddStore(steps, v1);
    AddStore(steps + [v1], Publish(v1, l, prev[l], n));
    forall m | l < m < height
      ensures Lands(Publish(v1, l, prev[l], n), m, key, prev[m])
    {
      PublishKeepsLands(v, l, prev[l], n, m, key, prev[m]);
    }
  }

  class SkipList {
    var keys: seq<Entry>
    var next: seq<map<int, int>>
    var maxHeight: nat
    ghost var nodes: seq<set<int>>

    ghost function Now(): View
      reads this
    {
      View(keys, next, maxHeight, nodes)
    }

    constructor ()
      ensures Inv(Now()) && KeySet(Now()) == {}
    {
      keys := [Entry(0, 0, TypeDeletion, [])];
      next := seq(MAX_HEIGHT, i => map[HEAD := NIL]);
      maxHeight := 1;
      nodes := seq(MAX_HEIGHT, i => {});
    }

    /** `prev` is filled for the levels below the current height. */
    method FindGreaterOrEqual(target: Entry) returns (node: int, prev: seq<int>)
      requires Inv(Now())
      ensures IsLeastFrom(Now(), target, node)
      ensures |prev| == MAX_HEIGHT
      ensures forall l :: 0 <= l < maxHeight ==> Lands(Now(), l, target, prev[l])
    {
      prev := seq(MAX_HEIGHT, i => HEAD);
      var x, level := HEAD, maxHeight - 1;
      while true
        invariant 0 <= level < maxHeight && |prev| == MAX_HEIGHT
        invariant ReaderOk(Now(), target, Searching(x, level))
        invariant forall l :: level < l < maxHeight ==> Lands(Now(), l, target, prev[l])
        decreases StepsLeft(Now(), Searching(x, level))
      {
        ReaderStepKeeps(Now(), target, Searching(x, level), Now());
        node := next[level][x];
        if KeyIsAfterNode(keys, target, node) {
          x := node;
        } else {
          prev := prev[level := x];
          if level == 0 {
            return;
          }
          level := level - 1;
        }
      }
    }

    method FindLessThan(target: Entry) returns (x: int)
      requires Inv(Now())
      ensures Lands(Now(), 0, target, x)
    {
      x := HEAD;
      var level := maxHeight - 1;
      while true
        invariant 0 <= level < maxHeight
        invariant ReaderOk(Now(), target, Searching(x, level))
        decreases StepsLeft(Now(), Searching(x, level))
      {
        ReaderStepKeeps(Now(), target, Searching(x, level), Now());
        var node := next[level][x];
        if node == NIL || !KeyIsAfterNode(keys, target, node) {
          if level == 0 {
            return;
          }
          level := level - 1;
        } else {
          x := node;
        }
      }
    }

    method FindLast() returns (x: int)
      requires Inv(Now())
      ensures x == HEAD || x in nodes[0]
      ensures forall z :: z in nodes[0] ==> z == x || Before(keys, z, x)
    {
      x := HEAD;
      var level := maxHeight - 1;
      while true
        invariant 0 <= level < maxHeight
        invariant x == HEAD || x in nodes[level]
        decreases StepsLeft(Now(), Searching(x, level))
      {
        assert LevelOk(keys, next[level], nodes[level]);
        var node := next[level][x];
        assert LinkOk(keys, nodes[level], x, node);
        if node == NIL {
          if level == 0 {
            return;
          }
          level := level - 1;
        } else {
          BottomHasAll(Now(), level);
          FewerAfter(keys, nodes[0], x, node);
          x := node;
        }
      }
    }

    method Contains(target: Entry) returns (found: bool)
      requires Inv(Now())
      ensures found <==> exists e :: e in KeySet(Now()) && e.key == target.key && e.sn == target.sn
    {
      var x, _ := FindGreaterOrEqual(target);
      found := x != NIL && keys[x].key == target.key && keys[x].sn == target.sn;
      if found {
        assert keys[x] in KeySet(Now());
      }
    }

    /** The levels above the current height start at the head. */
    method RaiseHeight(key: Entry, height: nat, prev0: seq<int>, ghost steps0: seq<View>)
      returns (prev: seq<int>, ghost steps: seq<View>)
      requires Inv(Now()) && 1 <= height <= MAX_HEIGHT
      requires |prev0| == MAX_HEIGHT && forall l :: 0 <= l < maxHeight ==> Lands(Now(), l, key, prev0[l])
      requires StoreByStore(steps0) && |steps0| > 0 && steps0[|steps0| - 1] == Now()
      modifies `maxHeight
      ensures Inv(Now()) && maxHeight == (if height > old(maxHeight) then height else old(maxHeight))
      ensures KeySet(Now()) == old(KeySet(Now()))
      ensures |prev| == MAX_HEIGHT && forall l :: 0 <= l < maxHeight ==> Lands(Now(), l, key, prev[l])
      ensures StoreByStore(steps) && steps0 <= steps && steps[|steps| - 1] == Now()
    {
      hide Inv, Grows, OneStore, StoreByStore, Lands, KeySet;
      Shape(Now());
      prev, steps := prev0, steps0;
      if height > maxHeight {
        for i := maxHeight to height
          modifies {}
          invariant |prev| == MAX_HEIGHT
          invariant forall l :: 0 <= l < i ==> Lands(Now(), l, key, prev[l])
        {
          EmptyLevelLands(Now(), i, key);
          prev := prev[i := HEAD];
        }
        RaiseKeepsInv(Now(), height);
        forall l | 0 <= l < height
            ensures Lands(Now().(maxHeight := height), l, key, prev[l])
        {
          RaiseKeepsLands(Now(), height, l, key, prev[l]);
        }
        maxHeight := height;
        AddStore(steps, Now());
        steps := steps + [Now()];
      }
    }

    /** `height` is the random height of the new node. `steps` records the list after each store. */
    method Insert(key: Entry, height: nat) returns (ghost steps: seq<View>)
      requires Inv(Now()) && 1 <= height <= MAX_HEIGHT
      requires forall e :: e in KeySet(Now()) ==> (e.key, e.sn) != (key.key, key.sn)
      modifies this
      ensures Inv(Now()) && KeySet(Now()) == old(KeySet(Now())) + {key}
      ensures StoreByStore(steps) && |steps| > 0 && steps[0] == old(Now()) && steps[|steps| - 1] == Now()
      ensures forall l :: 0 <= l < MAX_HEIGHT ==>
                nodes[l] == old(nodes[l]) + (if l < height then {old(|keys|)} else {})
    {
      hide Inv, Grows, OneStore, StoreByStore, Lands, IsLeastFrom, KeySet;
      Shape(Now());
      var x, prev := FindGreaterOrEqual(key);
      steps := [Now()];
      NewSteps(Now());
      prev, steps := RaiseHeight(key, height, prev, steps);
      forall l | 0 <= l < height
        ensures Lands(Now().(keys := keys + [key]), l, key, prev[l])
      {
        AllocateKeepsLands(Now(), key, l, key, prev[l]);
      }
      AllocateKeepsInv(Now(), key);
      AllocateIsOneStore(Now(), key);
      ghost var v := Now();
      x := |keys|;
      keys := keys + [key];
      AddStore(steps, Now());
      steps := steps + [Now()];
      for i := 0 to height
        invariant keys == v.keys + [key] && x == |v.keys| && maxHeight == v.maxHeight
        invariant Inv(Now()) && |nodes| == |next| == MAX_HEIGHT
        invariant forall l :: 0 <= l < i ==> nodes[l] == v.nodes[l] + {x}
        invariant forall l :: i <= l < MAX_HEIGHT ==> nodes[l] == v.nodes[l]
        invariant forall l :: i <= l < height ==> Lands(Now(), l, key, prev[l])
        invariant StoreByStore(steps) && |steps| > 0 && steps[0] == old(Now()) && steps[|steps| - 1] == Now()
      {
        NotLinkedYet(v, i, key);
        LinkLevel(steps, Now(), i, prev, x, key, height);
        next := next[i := next[i][x := next[i][prev[i]]]];
        steps := steps + [Now()];
        next := next[i := next[i][prev[i] := x]];
        nodes := nodes[i := nodes[i] + {x}];
        steps := steps + [Now()];
      }
      KeySetGrows(v, Now(), x);
    }
  }

  /** `y` is the last node of the bottom list before `x`, or none. */
  ghost predicate IsLastBefore(v: View, x: int, y: int)
    requires |v.nodes| > 0
  {
    && (y == NIL || (y in v.nodes[0] && Before(v.keys, y, x)))
    && (forall z :: z in v.nodes[0] && Before(v.keys, z, x) ==> y != NIL && (z == y || Before(v.keys, z, y)))
  }

  class Iterator {
    const list: SkipList
    var node: int

    ghost predicate Ready()
      reads this, list
    {
      Inv(list.Now()) && (node == NIL || node in list.nodes[0])
    }

    constructor (list: SkipList)
      requires Inv(list.Now())
      ensures this.list == list && node == NIL && Ready()
    {
      this.list := list;
      node := NIL;
    }

    predicate Valid()
      reads this
    {
      node != NIL
    }

    function Key(): Entry
      requires Ready() && Valid()
      reads this, list
    {
      assert LevelOk(list.keys, list.next[0], list.nodes[0]);
      list.keys[node]
    }

    method Next()
      requires Ready() && Valid()
      modifies this
      ensures Ready() && LinkOk(list.keys, list.nodes[0], old(node), node)
    {
      assert LevelOk(list.keys, list.next[0], list.nodes[0]);
      node := list.next[0][node];
      assert LinkOk(list.keys, list.nodes[0], old(node), node);
    }

    /** There are no backward links: searches for the last node before the current key. */
    method Prev()
      requires Ready() && Valid()
      modifies this
      ensures Ready() && IsLastBefore(list.Now(), old(node), node)
    {
      node := list.FindLessThan(Key());
      LastBefore(list.Now(), old(node), node);
      if node == HEAD {
        node := NIL;
      }
    }

    method Seek(target: Entry)
      requires Ready()
      modifies this
      ensures Ready() && IsLeastFrom(list.Now(), target, node)
    {
      var prev;
      node, prev := list.FindGreaterOrEqual(target);
    }

    method SeekToFirst()
      requires Ready()
      modifies this
      ensures Ready() && LinkOk(list.keys, list.nodes[0], HEAD, node)
    {
      assert LevelOk(list.keys, list.next[0], list.nodes[0]);
      node := list.next[0][HEAD];
      assert LinkOk(list.keys, list.nodes[0], HEAD, node);
    }

    method SeekToLast()
      requires Ready()
      modifies this
      ensures Ready() && (node == NIL <==> list.nodes[0] == {})
      ensures forall z :: z in list.nodes[0] ==> z == node || Before(list.keys, z, node)
    {
      node := list.FindLast();
      assert LevelOk(list.keys, list.next[0], list.nodes[0]);
      if node == HEAD {
        assert forall z :: z in list.nodes[0] ==> z == HEAD || Before(list.keys, z, HEAD);
        assert forall z :: z !in list.nodes[0];
        node := NIL;
      }
    }
  }

  lemma LastBefore(v: View, x: int, y: int)
    requires Inv(v) && x in v.nodes[0] && 0 < x < |v.keys| && Lands(v, 0, v.keys[x], y)
    ensures IsLastBefore(v, x, if y == HEAD then NIL else y)
  {
    assert LevelOk(v.keys, v.next[0], v.nodes[0]);
    assert LinkOk(v.keys, v.nodes[0], y, v.next[0][y]);
  }
}
