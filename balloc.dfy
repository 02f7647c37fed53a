/** The boot allocator's own state as `src/balloc.c` keeps it: a static pool of
    `BALLOC_MAX_RANGES` nodes, the list of pool nodes not in use (pushed and popped at its
    head), and the two trees `free_ranges` and `memory_map` whose nodes come from the pool.
    A tree is represented by the pool slots of its nodes in key order; each operation is
    proved to leave the ranges those slots hold as the functions of modules `Ranges`, `Alloc`
    and `Boot` say. */
module Balloc {
  import opened Ranges
  import opened Alloc
  import opened Boot

  /** The pool slots `0 .. n-1`, each once. */
  ghost function Slots(n: nat): multiset<nat>
  {
    multiset(seq(n, i => i))
  }

  lemma {:induction false} SlotsCount(n: nat, x: nat)
    ensures Slots(n)[x] == if x < n then 1 else 0
    ensures |Slots(n)| == n
  {
    if n > 0 {
      SlotsCount(n - 1, x);
      assert seq(n, i => i) == seq(n - 1, i => i) + [n - 1];
    }
  }

  /** The free list `balloc_setup_nodes` builds by pushing slots `0 .. n-1` in turn at its
      head: the last slot pushed first. */
  function Countdown(n: nat): (r: seq<nat>)
    ensures |r| == n && forall j :: 0 <= j < n ==> r[j] == n - 1 - j
  {
    if n == 0 then [] else [n - 1] + Countdown(n - 1)
  }

  /** The free list `balloc_setup_nodes` builds holds every slot below `n` once. */
  lemma {:induction false} CountdownSlots(n: nat)
    ensures multiset(Countdown(n)) == Slots(n)
    decreases n
  {
    if n > 0 {
      CountdownSlots(n - 1);
      assert seq(n, i => i) == seq(n - 1, i => i) + [n - 1];
    }
  }

  /** Every slot `ids` names is below `n`. */
  predicate Bounded(ids: seq<nat>, n: nat) {
    forall j :: 0 <= j < |ids| ==> ids[j] < n
  }

  lemma BoundedJoin(a: seq<nat>, b: seq<nat>, c: seq<nat>, n: nat)
    requires Bounded(a, n) && Bounded(b, n) && Bounded(c, n)
    ensures Bounded(a + b + c, n)
  {
    forall j | 0 <= j < |a + b + c| ensures (a + b + c)[j] < n {
      if j < |a| {
        assert (a + b + c)[j] == a[j];
      } else if j < |a| + |b| {
        assert (a + b + c)[j] == b[j - |a|];
      } else {
        assert (a + b + c)[j] == c[j - |a| - |b|];
      }
    }
  }

  /** The ranges held by the slots `ids`, in order. */
  function RangesIn(vals: seq<Range>, ids: seq<nat>): (r: seq<Range>)
    requires Bounded(ids, |vals|)
    ensures |r| == |ids| && forall j :: 0 <= j < |ids| ==> r[j] == vals[ids[j]]
  {
    seq(|ids|, j requires 0 <= j < |ids| => vals[ids[j]])
  }

  /** A slot counted once among all of them is in no other part. */
  lemma Apart(a: multiset<nat>, b: multiset<nat>, n: nat, x: nat)
    requires a + b == Slots(n) && x in a
    ensures x !in b && x < n && a[x] == 1
  {
    SlotsCount(n, x);
    assert (a + b)[x] == a[x] + b[x];
  }

  /** Writing a slot that `ids` does not use leaves the ranges of `ids` alone. */
  lemma RangesUpdate(vals: seq<Range>, ids: seq<nat>, x: nat, v: Range)
    requires x < |vals| && x !in ids && Bounded(ids, |vals|)
    ensures RangesIn(vals[x := v], ids) == RangesIn(vals, ids)
  {
  }

  /** Erasing the node at position `k`. */
  lemma RangesErase(vals: seq<Range>, ids: seq<nat>, k: nat)
    requires k < |ids| && Bounded(ids, |vals|)
    ensures RangesIn(vals, ids[..k] + ids[k+1..]) == RangesIn(vals, ids)[..k] + RangesIn(vals, ids)[k+1..]
  {
  }

  /** Replacing the nodes at positions `keep .. j-1` by the single slot `x`, which holds `v`. */
  lemma RangesSplice(vals: seq<Range>, ids: seq<nat>, keep: nat, j: nat, x: nat, v: Range)
    requires keep <= j <= |ids| && x < |vals| && x !in ids && Bounded(ids, |vals|)
    ensures RangesIn(vals[x := v], ids[..keep] + [x] + ids[j..]) ==
      RangesIn(vals, ids)[..keep] + [v] + RangesIn(vals, ids)[j..]
  {
  }

  /** The slots a splice drops, together with those it keeps and the new one. */
  lemma SpliceSlots(ids: seq<nat>, keep: nat, i: nat, j: nat, x: nat)
    requires keep <= i <= j <= |ids|
    ensures multiset(ids[..keep] + [x] + ids[j..]) + multiset(ids[keep..i]) + multiset(ids[i..j]) ==
      multiset(ids) + multiset{x}
  {
    assert ids == ids[..keep] + ids[keep..i] + ids[i..j] + ids[j..];
  }

  /** At most one slot lies between positions `lo` and `hi`. */
  lemma Single(ids: seq<nat>, lo: nat, hi: nat)
    requires lo <= hi <= |ids| && hi <= lo + 1
    ensures ids[lo..hi] == if lo < hi then [ids[lo]] else []
  {
  }

  /** Slots split among three lists and `held` number `MAX_RANGES` in all. */
  lemma SlotsTotal(a: seq<nat>, b: seq<nat>, c: seq<nat>, held: multiset<nat>, n: nat)
    requires multiset(a) + (multiset(b) + multiset(c) + held) == Slots(n)
    ensures |a| == n - |b| - |c| - |held|
  {
    SlotsCount(n, 0);
  }

  /** The pool `vals` with free list `fl`, trees `a` and `b`, and `held` aside: every slot is
      in exactly one of them, and both trees hold ordered interval sets. */
  ghost predicate Pool(vals: seq<Range>, fl: seq<nat>, a: seq<nat>, b: seq<nat>, held: multiset<nat>) {
    && Bounded(fl, |vals|) && Bounded(a, |vals|) && Bounded(b, |vals|)
    && WellFormed(RangesIn(vals, a)) && WellFormed(RangesIn(vals, b))
    && multiset(fl) + (multiset(a) + multiset(b) + held) == Slots(|vals|)
  }

  lemma PoolSwap(vals: seq<Range>, fl: seq<nat>, a: seq<nat>, b: seq<nat>, held: multiset<nat>)
    requires Pool(vals, fl, a, b, held)
    ensures Pool(vals, fl, b, a, held)
  {
    assert multiset(a) + multiset(b) == multiset(b) + multiset(a);
  }

  /** The shape of `__balloc_add_range`'s result: the nodes at positions `keep .. j-1` of the
      tree `s` (the predecessor and successor the new node absorbed) are replaced by `v`. */
  ghost predicate AddShape(s: seq<Range>, from: u64, to: u64, i: nat, keep: nat, j: nat, v: Range)
    requires i <= |s|
  {
    var merged := i > 0 && s[i - 1].end >= from;
    var e := if merged && s[i - 1].end > to then s[i - 1].end else to;
    var absorbed := i < |s| && s[i].begin <= e;
    && keep == (if merged then i - 1 else i)
    && j == (if absorbed then i + 1 else i)
    && v == Range(if merged then s[i - 1].begin else from, if absorbed then s[i].end else e)
  }

  /** On ranges: the splice is `AddSpec`, and it keeps the tree an ordered interval set. */
  lemma AddStepRanges(vals: seq<Range>, ids: seq<nat>, from: u64, to: u64, i: nat, keep: nat, j: nat, v: Range, id: nat)
    requires Bounded(ids, |vals|) && id < |vals| && id !in ids && from < to
    requires WellFormed(RangesIn(vals, ids)) && i == InsertPos(RangesIn(vals, ids), from)
    requires AddShape(RangesIn(vals, ids), from, to, i, keep, j, v)
    ensures keep <= i <= j <= |ids|
    ensures RangesIn(vals[id := v], ids[..keep] + [id] + ids[j..]) == AddSpec(RangesIn(vals, ids), from, to)
    ensures WellFormed(AddSpec(RangesIn(vals, ids), from, to))
  {
    var s := RangesIn(vals, ids);
    RangesSplice(vals, ids, keep, j, id, v);
    AddPreservesWellFormed(s, from, to);
  }

  /** On slots: the free list's head goes into the tree and the absorbed nodes come out. */
  lemma AddStepSlots(fl: seq<nat>, ids: seq<nat>, keep: nat, i: nat, j: nat)
    requires keep <= i <= j <= |ids| && fl != []
    ensures multiset(ids[i..j] + ids[keep..i] + fl[1..]) + multiset(ids[..keep] + [fl[0]] + ids[j..]) ==
      multiset(fl) + multiset(ids)
  {
    var a, p, n, z, f := ids[..keep], ids[keep..i], ids[i..j], ids[j..], fl[1..];
    assert ids == a + p + n + z;
    assert fl == [fl[0]] + f;
    assert multiset(n + p + f) == multiset(n) + multiset(p) + multiset(f);
    assert multiset(a + [fl[0]] + z) == multiset(a) + multiset{fl[0]} + multiset(z);
  }

  lemma Rebalance(a: multiset<nat>, b: multiset<nat>, a': multiset<nat>, b': multiset<nat>, c: multiset<nat>, n: nat)
    requires a + (b + c) == Slots(n) && a' + b' == a + b
    ensures a' + (b' + c) == Slots(n)
  {
    calc {
      a' + (b' + c);
      (a' + b') + c;
      (a + b) + c;
      a + (b + c);
    }
  }

  /** The slot lists after an insertion stay within the pool. */
  lemma AddStepBounds(fl: seq<nat>, ids: seq<nat>, keep: nat, i: nat, j: nat, n: nat)
    requires keep <= i <= j <= |ids| && fl != [] && Bounded(fl, n) && Bounded(ids, n)
    ensures Bounded(ids[i..j] + ids[keep..i] + fl[1..], n)
    ensures Bounded(ids[..keep] + [fl[0]] + ids[j..], n)
  {
    assert Bounded(ids[i..j], n) && Bounded(ids[keep..i], n) && Bounded(fl[1..], n);
    assert Bounded(ids[..keep], n) && Bounded([fl[0]], n) && Bounded(ids[j..], n);
    BoundedJoin(ids[i..j], ids[keep..i], fl[1..], n);
    BoundedJoin(ids[..keep], [fl[0]], ids[j..], n);
  }

  /** The slot count after an insertion still covers every slot once. */
  lemma AddStepCount(fl: seq<nat>, ids: seq<nat>, other: seq<nat>, held: multiset<nat>, keep: nat, i: nat, j: nat, n: nat)
    requires keep <= i <= j <= |ids| && fl != []
    requires multiset(fl) + (multiset(ids) + multiset(other) + held) == Slots(n)
    ensures multiset(ids[i..j] + ids[keep..i] + fl[1..]) +
      (multiset(ids[..keep] + [fl[0]] + ids[j..]) + multiset(other) + held) == Slots(n)
  {
    var fl' := ids[i..j] + ids[keep..i] + fl[1..];
    var ids' := ids[..keep] + [fl[0]] + ids[j..];
    AddStepSlots(fl, ids, keep, i, j);
    Rebalance(multiset(fl), multiset(ids), multiset(fl'), multiset(ids'), multiset(other) + held, n);
    assert multiset(ids') + multiset(other) + held == multiset(ids') + (multiset(other) + held);
    assert multiset(ids) + multiset(other) + held == multiset(ids) + (multiset(other) + held);
  }

  /** What `__balloc_add_range` does to the pool, on values: the head of the free list `fl`
      becomes the node `v` at position `keep` of tree `ids` in place of the nodes at positions
      `keep .. j-1`, which go back on the free list, the predecessor first. */
  lemma AddStep(vals: seq<Range>, fl: seq<nat>, ids: seq<nat>, other: seq<nat>, held: multiset<nat>,
                from: u64, to: u64, i: nat, keep: nat, j: nat, v: Range)
    requires Pool(vals, fl, ids, other, held) && from < to && |fl| > 0
    requires i == InsertPos(RangesIn(vals, ids), from)
    requires AddShape(RangesIn(vals, ids), from, to, i, keep, j, v)
    requires keep <= i <= j <= |ids|
    ensures fl[0] < |vals|
    ensures var vals' := vals[fl[0] := v];
      var ids' := ids[..keep] + [fl[0]] + ids[j..];
      && Pool(vals', ids[i..j] + (ids[keep..i] + fl[1..]), ids', other, held)
      && RangesIn(vals', ids') == AddSpec(RangesIn(vals, ids), from, to)
      && RangesIn(vals', other) == RangesIn(vals, other)
      && |ids[i..j] + (ids[keep..i] + fl[1..])| + |ids'| == |fl| + |ids|
  {
    var id := fl[0];
    assert id !in multiset(ids) && id !in multiset(other) && id < |vals| by {
      Apart(multiset(fl), multiset(ids) + multiset(other) + held, |vals|, id);
    }
    assert ids[i..j] + (ids[keep..i] + fl[1..]) == ids[i..j] + ids[keep..i] + fl[1..];
    AddStepRanges(vals, ids, from, to, i, keep, j, v, id);
    AddStepBounds(fl, ids, keep, i, j, |vals|);
    AddStepCount(fl, ids, other, held, keep, i, j, |vals|);
    RangesUpdate(vals, other, id, v);
  }

  /** Erasing the node at position `k` of tree `ids` (`rb_erase`) sets its slot aside in
      `held` and drops its range from the tree's ranges. */
  lemma EraseStep(vals: seq<Range>, fl: seq<nat>, ids: seq<nat>, other: seq<nat>, held: multiset<nat>, k: nat)
    requires Pool(vals, fl, ids, other, held) && k < |ids|
    ensures Pool(vals, fl, ids[..k] + ids[k+1..], other, held + multiset{ids[k]})
    ensures RangesIn(vals, ids[..k] + ids[k+1..]) == RangesIn(vals, ids)[..k] + RangesIn(vals, ids)[k+1..]
  {
    var rest := ids[..k] + ids[k+1..];
    assert Bounded(rest, |vals|) by {
      assert Bounded(ids[..k], |vals|) && Bounded(ids[k+1..], |vals|) && Bounded([], |vals|);
      BoundedJoin(ids[..k], ids[k+1..], [], |vals|);
      assert rest + [] == rest;
    }
    RangesErase(vals, ids, k);
    EraseKeepsWellFormed(RangesIn(vals, ids), k);
    assert ids == ids[..k] + [ids[k]] + ids[k+1..];
    assert multiset(ids) == multiset(rest) + multiset{ids[k]};
    calc {
      multiset(fl) + (multiset(rest) + multiset(other) + (held + multiset{ids[k]}));
      multiset(fl) + (multiset(ids) + multiset(other) + held);
    }
  }

  /** Giving a slot set aside back to the head of the free list (`balloc_free_node`). */
  lemma ReleaseStep(vals: seq<Range>, fl: seq<nat>, a: seq<nat>, b: seq<nat>, held: multiset<nat>, x: nat)
    requires Pool(vals, fl, a, b, held + multiset{x})
    ensures Pool(vals, [x] + fl, a, b, held)
  {
    assert x < |vals| by {
      Apart(multiset{x}, multiset(fl) + (multiset(a) + multiset(b) + held), |vals|, x);
    }
    assert multiset([x] + fl) == multiset{x} + multiset(fl);
    calc {
      multiset([x] + fl) + (multiset(a) + multiset(b) + held);
      multiset(fl) + (multiset(a) + multiset(b) + (held + multiset{x}));
    }
    assert Bounded([x] + fl, |vals|) by {
      BoundedJoin([x], fl, [], |vals|);
      assert [x] + fl + [] == [x] + fl;
    }
  }

  /** A pool whose every slot is on the free list, with both trees empty. */
  lemma FullPool(vals: seq<Range>, fl: seq<nat>)
    requires fl == Countdown(|vals|)
    ensures Pool(vals, fl, [], [], multiset{})
  {
    CountdownSlots(|vals|);
    assert multiset(fl) + (multiset([]) + multiset([]) + multiset{}) == multiset(fl);
  }

  /** The allocator's state. */
  class Allocator {
    /** `balloc_nodes`: the range each pool slot holds. */
    const nodes: array<Range>
    /** `balloc_free_list`: the slots not in use, head first. */
    var freeList: seq<nat>
    /** The slots of the `free_ranges` tree, in key order. */
    var freeRanges: seq<nat>
    /** The slots of the `memory_map` tree, in key order. */
    var memoryMap: seq<nat>

    /** The zero-initialised statics: every slot of the pool, an empty free list and two
        empty trees. */
    constructor()
      ensures nodes.Length == MAX_RANGES && freeList == [] && freeRanges == [] && memoryMap == []
    {
      nodes := new Range[MAX_RANGES](_ => Range(0, 0));
      freeList := [];
      freeRanges := [];
      memoryMap := [];
    }

    function Tree(t: TreeId): seq<nat>
      reads this
    {
      if t == FreeRanges then freeRanges else memoryMap
    }

    /** Every slot a list or tree names exists. */
    ghost predicate InPool(ids: seq<nat>)
    {
      Bounded(ids, nodes.Length)
    }

    /** The ranges a tree's slots hold. */
    ghost function View(ids: seq<nat>): seq<Range>
      reads nodes
      requires InPool(ids)
    {
      RangesIn(nodes[..], ids)
    }

    /** The class invariant: every pool slot is in exactly one of the free list, a tree, or
        `held` (the node an in-progress removal or allocation has erased and not yet given
        back), and both trees are ordered interval sets. */
    ghost predicate Valid(held: multiset<nat>)
      reads this, nodes
    {
      nodes.Length == MAX_RANGES && Pool(nodes[..], freeList, freeRanges, memoryMap, held)
    }

    /** The ranges of both trees. */
    ghost function State(): Trees
      reads this, nodes
      requires InPool(freeRanges) && InPool(memoryMap)
    {
      Trees(View(memoryMap), View(freeRanges))
    }

    /** The invariant seen from tree `t`. */
    lemma ValidTree(t: TreeId, held: multiset<nat>)
      requires Valid(held)
      ensures Pool(nodes[..], freeList, Tree(t), Sibling(t), held)
    {
      if t == MemoryMap {
        PoolSwap(nodes[..], freeList, freeRanges, memoryMap, held);
      }
    }

    lemma TreeValid(t: TreeId, held: multiset<nat>)
      requires nodes.Length == MAX_RANGES && Pool(nodes[..], freeList, Tree(t), Sibling(t), held)
      ensures Valid(held)
    {
      if t == MemoryMap {
        PoolSwap(nodes[..], freeList, memoryMap, freeRanges, held);
      }
    }

    /** Free pool nodes are what neither tree nor `held` uses. */
    lemma SpareNodes(held: multiset<nat>)
      requires Valid(held)
      ensures |freeList| == MAX_RANGES - |freeRanges| - |memoryMap| - |held|
    {
      SlotsTotal(freeList, freeRanges, memoryMap, held, nodes.Length);
    }

    /** `balloc_alloc_node`: pop the head of the free list; an empty list halts. */
    method AllocNode() returns (id: nat)
      requires |freeList| > 0
      modifies this
      ensures nodes[..] == old(nodes[..])
      ensures id == old(freeList[0]) && freeList == old(freeList[1..])
      ensures freeRanges == old(freeRanges) && memoryMap == old(memoryMap)
    {
      id := freeList[0];
      freeList := freeList[1..];
    }

    /** `balloc_free_node`: push a node at the head of the free list. */
    method FreeNode(id: nat)
      modifies this
      ensures nodes[..] == old(nodes[..])
      ensures freeList == [id] + old(freeList)
      ensures freeRanges == old(freeRanges) && memoryMap == old(memoryMap)
    {
      freeList := [id] + freeList;
    }

    method SetTree(t: TreeId, ids: seq<nat>)
      modifies this
      ensures nodes[..] == old(nodes[..])
      ensures Tree(t) == ids && Sibling(t) == old(Sibling(t)) && freeList == old(freeList)
    {
      if t == FreeRanges {
        freeRanges := ids;
      } else {
        memoryMap := ids;
      }
    }

    /** The descent of `__balloc_add_range` (lines 53-61), a search over the tree in key
        order: the position of the first node whose `begin` is not below `from`. */
    method InsertionPoint(t: TreeId, from: u64) returns (i: nat)
      requires InPool(Tree(t)) && WellFormed(View(Tree(t)))
      ensures i == InsertPos(View(Tree(t)), from)
    {
      var ids := Tree(t);
      ghost var s := View(ids);
      var lo, hi := 0, |ids|;
      while lo < hi
        invariant 0 <= lo <= hi <= |ids|
        invariant forall j :: 0 <= j < lo ==> s[j].begin < from
        invariant forall j :: hi <= j < |s| ==> from <= s[j].begin
        decreases hi - lo
      {
        var mid := (lo + hi) / 2;
        if nodes[ids[mid]].begin < from {
          forall j | 0 <= j < mid ensures s[j].begin < from {
            assert s[j].end < s[mid].begin;
          }
          lo := mid + 1;
        } else {
          forall j | mid < j < |s| ensures from <= s[j].begin {
            assert s[mid].end < s[j].begin;
          }
          hi := mid;
        }
      }
      InsertPosUnique(s, from, lo);
      i := lo;
    }

    /** The descent of `__balloc_remove_range` and `__balloc_alloc` (lines 96-105 and
        128-137): the position of the left-most node whose `end` lies above `from`. */
    method LowestEndAbove(t: TreeId, from: u64) returns (k: nat)
      requires InPool(Tree(t)) && WellFormed(View(Tree(t)))
      ensures k == FirstEndAbove(View(Tree(t)), from)
    {
      var ids := Tree(t);
      ghost var s := View(ids);
      var lo, hi := 0, |ids|;
      while lo < hi
        invariant 0 <= lo <= hi <= |ids|
        invariant forall j :: 0 <= j < lo ==> s[j].end <= from
        invariant forall j :: hi <= j < |s| ==> from < s[j].end
        decreases hi - lo
      {
        var mid := (lo + hi) / 2;
        if nodes[ids[mid]].end > from {
          forall j | mid < j < |s| ensures from < s[j].end {
            assert s[mid].end < s[j].begin;
          }
          hi := mid;
        } else {
          forall j | 0 <= j < mid ensures s[j].end <= from {
            assert s[j].end < s[mid].begin;
          }
          lo := mid + 1;
        }
      }
      FirstEndAboveUnique(s, from, lo);
      k := lo;
    }

    /** The other tree. */
    function Sibling(t: TreeId): seq<nat>
      reads this
    {
      if t == FreeRanges then memoryMap else freeRanges
    }

    /** The merges of `__balloc_add_range` (lines 68-85): the new node `[from, to)` at
        position `i` absorbs its predecessor when that reaches `from` (widening the end to the
        larger of both), then its successor when that starts at or before the end so far
        (taking the successor's end); each node absorbed goes back to the pool. The result is
        the merged node `[b, e)` and the positions `keep .. j-1` of the nodes it absorbs. */
    method Merge(t: TreeId, from: u64, to: u64, i: nat) returns (keep: nat, j: nat, b: u64, e: u64)
      requires InPool(Tree(t)) && i <= |Tree(t)|
      modifies this
      ensures Tree(t) == old(Tree(t)) && Sibling(t) == old(Sibling(t))
      ensures nodes[..] == old(nodes[..])
      ensures keep <= i <= j <= |Tree(t)|
      ensures AddShape(View(Tree(t)), from, to, i, keep, j, Range(b, e))
      ensures freeList == Tree(t)[i..j] + (Tree(t)[keep..i] + old(freeList))
    {
      var ids := Tree(t);
      ghost var s := View(ids);
      ghost var fl := freeList;
      keep, j := i, i;
      b, e := from, to;
      if i > 0 && nodes[ids[i - 1]].end >= from {
        b := nodes[ids[i - 1]].begin;
        if nodes[ids[i - 1]].end > e {
          e := nodes[ids[i - 1]].end;
        }
        keep := i - 1;
        FreeNode(ids[i - 1]);
      }
      assert freeList == ids[keep..i] + fl by {
        Single(ids, keep, i);
      }
      ghost var fl' := freeList;
      if i < |ids| && nodes[ids[i]].begin <= e {
        e := nodes[ids[i]].end;
        j := i + 1;
        FreeNode(ids[i]);
      }
      assert freeList == ids[i..j] + fl' by {
        Single(ids, i, j);
      }
      assert i > 0 ==> nodes[ids[i - 1]] == s[i - 1];
      assert i < |ids| ==> nodes[ids[i]] == s[i];
    }

    /** `__balloc_add_range`: link a node from the pool holding `[from, to)` at its place in
        key order, let it absorb its predecessor and then its successor, and give the nodes
        absorbed back to the pool, the predecessor first. The tree's ranges become `AddSpec`
        of the old ones; the other tree and `held` are left alone. */
    method AddRange(t: TreeId, from: u64, to: u64, ghost held: multiset<nat>)
      requires Valid(held) && from < to && |freeList| > 0
      modifies this, nodes
      ensures Valid(held)
      ensures View(Tree(t)) == AddSpec(old(View(Tree(t))), from, to)
      ensures Sibling(t) == old(Sibling(t)) && View(Sibling(t)) == old(View(Sibling(t)))
      ensures |freeList| + |Tree(t)| == old(|freeList| + |Tree(t)|)
    {
      var ids := Tree(t);
      ghost var other := Sibling(t);
      ghost var vals := nodes[..];
      ghost var fl := freeList;
      ghost var s := View(ids);
      ValidTree(t, held);
      var i := InsertionPoint(t, from);
      var id := AllocNode();
      var keep, j, b, e := Merge(t, from, to, i);
      nodes[id] := Range(b, e);
      SetTree(t, ids[..keep] + [id] + ids[j..]);
      AddStep(vals, fl, ids, other, held, from, to, i, keep, j, Range(b, e));
      assert nodes[..] == vals[fl[0] := Range(b, e)];
      assert freeList == ids[i..j] + (ids[keep..i] + fl[1..]);
      assert Tree(t) == ids[..keep] + [fl[0]] + ids[j..];
      assert Sibling(t) == other;
      TreeValid(t, held);
    }

    /** The carve of `__balloc_remove_range` and `__balloc_alloc` (lines 110-116 and 147-152):
        erase the node at position `k` of tree `t`, re-add its part below `lo` and then its
        part above `hi`, and give the erased node back to the pool. The node is replaced by
        its remnants, and the pool gains the erased node less one node per remnant. */
    method Carve(t: TreeId, k: nat, lo: u64, hi: u64, ghost held: multiset<nat>)
      requires Valid(held) && k < |Tree(t)|
      requires |freeList| >= CarveAdds(View(Tree(t))[k], lo, hi)
      modifies this, nodes
      ensures Valid(held)
      ensures View(Tree(t)) == CarveOut(old(View(Tree(t))), k, lo, hi)
      ensures Sibling(t) == old(Sibling(t)) && View(Sibling(t)) == old(View(Sibling(t)))
      ensures |freeList| + |Tree(t)| == old(|freeList| + |Tree(t)|)
    {
      ghost var s := View(Tree(t));
      ghost var total := |freeList| + |Tree(t)|;
      var id, p := Erase(t, k, held);
      ghost var held' := held + multiset{id};
      if p.begin < lo {
        AddRange(t, p.begin, lo, held');
      }
      assert View(Tree(t)) == ReAddBelow(s[..k] + s[k+1..], p, lo);
      if hi < p.end {
        AddRange(t, hi, p.end, held');
      }
      assert View(Tree(t)) == CarveOut(s, k, lo, hi);
      Release(t, id, held);
    }

    /** `rb_erase` of the node at position `k` of tree `t` (lines 110-111 and 147-148): the
        node leaves the tree but not yet the pool's care; its range is returned. */
    method Erase(t: TreeId, k: nat, ghost held: multiset<nat>) returns (id: nat, p: Range)
      requires Valid(held) && k < |Tree(t)|
      modifies this
      ensures Valid(held + multiset{id}) && p == old(View(Tree(t)))[k]
      ensures View(Tree(t)) == old(View(Tree(t)))[..k] + old(View(Tree(t)))[k+1..]
      ensures Sibling(t) == old(Sibling(t)) && View(Sibling(t)) == old(View(Sibling(t)))
      ensures |freeList| + |Tree(t)| + 1 == old(|freeList| + |Tree(t)|)
    {
      var ids := Tree(t);
      ghost var s := View(ids);
      ghost var other := Sibling(t);
      ValidTree(t, held);
      id := ids[k];
      p := nodes[id];
      assert p == s[k];
      EraseStep(nodes[..], freeList, ids, other, held, k);
      SetTree(t, ids[..k] + ids[k+1..]);
      assert Sibling(t) == other;
      TreeValid(t, held + multiset{id});
    }

    /** `balloc_free_node` of a node erased from tree `t`: the node held aside goes back to
        the pool, and the trees are left alone. */
    method Release(t: TreeId, id: nat, ghost held: multiset<nat>)
      requires Valid(held + multiset{id})
      modifies this
      ensures Valid(held) && freeList == [id] + old(freeList)
      ensures Tree(t) == old(Tree(t)) && View(Tree(t)) == old(View(Tree(t)))
      ensures Sibling(t) == old(Sibling(t)) && View(Sibling(t)) == old(View(Sibling(t)))
    {
      ValidTree(t, held + multiset{id});
      ReleaseStep(nodes[..], freeList, Tree(t), Sibling(t), held, id);
      FreeNode(id);
      TreeValid(t, held);
    }

    /** Where the walk of `__balloc_remove_range` stands in tree `t`: at position `k` of the
        ranges `s` the tree holds, on course for `goal`, with pool nodes enough for the rest of
        it, `held` kept out of the pool, and the other tree still the slots `other` holding
        `others`. */
    ghost predicate WalkAt(t: TreeId, held: multiset<nat>, k: nat, s: seq<Range>, from: u64, to: u64, goal: seq<Range>,
                         other: seq<nat>, others: seq<Range>)
      reads this, nodes
    {
      && Valid(held) && InPool(Tree(t)) && s == View(Tree(t)) && k <= |s|
      && Sibling(t) == other && InPool(other) && View(other) == others
      && Walking(s, k, from, to) && WalkEnds(s, k, from, to, goal)
      && |freeList| >= WalkNeed(s, k, from, to)
    }

    /** The walk stops where the source's loop does: past the last node, or at one beginning
        at or above `to`; its ranges are then the goal. */
    lemma WalkOver(t: TreeId, held: multiset<nat>, k: nat, s: seq<Range>, from: u64, to: u64, goal: seq<Range>,
                   other: seq<nat>, others: seq<Range>)
      requires WalkAt(t, held, k, s, from, to, goal, other, others)
      requires !(k < |Tree(t)| && nodes[Tree(t)[k]].begin < to)
      ensures View(Tree(t)) == goal
    {
      if k < |s| {
        assert nodes[Tree(t)[k]] == s[k];
      }
      WalkDone(s, k, from, to, goal);
    }

    /** One step of the walk of `__balloc_remove_range` (lines 107-118): carve `[from, to)` out
        of the node at position `k` and go on past its remnants, to the node that followed it.
        The walk stays on course for the same outcome and the pool keeps enough nodes for the
        rest of it. */
    method RemoveStep(t: TreeId, k: nat, from: u64, to: u64, ghost held: multiset<nat>,
                      ghost s: seq<Range>, ghost goal: seq<Range>, ghost other: seq<nat>, ghost others: seq<Range>)
      returns (k': nat, ghost s': seq<Range>)
      requires WalkAt(t, held, k, s, from, to, goal, other, others) && k < |s| && s[k].begin < to
      modifies this, nodes
      ensures WalkAt(t, held, k', s', from, to, goal, other, others) && |s'| - k' < |s| - k
    {
      var p := nodes[Tree(t)[k]];
      assert p == s[k];
      ghost var next;
      s', next := WalkInvariant(s, k, from, to, goal);
      ghost var spare := |freeList|;
      assert |Tree(t)| == |s|;
      Carve(t, k, from, to, held);
      ValidTree(t, held);
      assert |Tree(t)| == |s'|;
      k' := k + |Remnants(p, from, to)|;
      assert k' == next && |freeList| + |Remnants(p, from, to)| == spare + 1;
    }

    /** The loop of `__balloc_remove_range` (lines 107-118): step through the tree from
        position `k0` while the node reached begins below `to`. */
    method Walk(t: TreeId, k0: nat, from: u64, to: u64, ghost held: multiset<nat>,
                ghost s0: seq<Range>, ghost goal: seq<Range>, ghost other: seq<nat>, ghost others: seq<Range>)
      requires WalkAt(t, held, k0, s0, from, to, goal, other, others)
      modifies this, nodes
      ensures Valid(held) && InPool(Tree(t)) && View(Tree(t)) == goal
      ensures Sibling(t) == other && InPool(other) && View(other) == others
    {
      var k: nat := k0;
      ghost var s := s0;
      while k < |Tree(t)| && nodes[Tree(t)[k]].begin < to
        invariant WalkAt(t, held, k, s, from, to, goal, other, others)
        decreases |s| - k
      {
        assert nodes[Tree(t)[k]] == s[k];
        k, s := RemoveStep(t, k, from, to, held, s, goal, other, others);
      }
      WalkOver(t, held, k, s, from, to, goal, other, others);
    }

    /** The descent of lines 96-105 puts the walk on course for `RemoveSpec`. */
    lemma WalkBegins(t: TreeId, held: multiset<nat>, k: nat, from: u64, to: u64)
      requires Valid(held) && from <= to && InPool(Tree(t)) && WellFormed(View(Tree(t)))
      requires k == FirstEndAbove(View(Tree(t)), from)
      requires |freeList| >= RemoveNeed(View(Tree(t)), from, to)
      ensures InPool(Sibling(t))
      ensures WalkAt(t, held, k, View(Tree(t)), from, to, RemoveSpec(View(Tree(t)), from, to), Sibling(t), View(Sibling(t)))
    {
      ValidTree(t, held);
      WalkStart(View(Tree(t)), from, to, k);
    }

    /** `__balloc_remove_range`: from the left-most node whose end lies above `from`, carve
        `[from, to)` out of each node that begins below `to`, going on with the node that
        followed it. The tree's ranges become `RemoveSpec` of the old ones. */
    method RemoveRange(t: TreeId, from: u64, to: u64, ghost held: multiset<nat>)
      requires Valid(held) && from <= to
      requires |freeList| >= RemoveNeed(View(Tree(t)), from, to)
      modifies this, nodes
      ensures Valid(held)
      ensures View(Tree(t)) == RemoveSpec(old(View(Tree(t))), from, to)
      ensures Sibling(t) == old(Sibling(t)) && View(Sibling(t)) == old(View(Sibling(t)))
    {
      ValidTree(t, held);
      var k := LowestEndAbove(t, from);
      WalkBegins(t, held, k, from, to);
      Walk(t, k, from, to, held, View(Tree(t)), RemoveSpec(View(Tree(t)), from, to), Sibling(t), View(Sibling(t)));
    }

    /** The search of `__balloc_alloc` (lines 128-157): from the left-most free range ending
        above `from`, and while the range reached begins below `to`, round the larger of its
        begin and `from` up to `align` and stop at the first range where a block of `size`
        bytes there ends within both the range and the window. The result is the position
        `Found` names, with its candidate address. */
    method FindFit(size: u64, align: u64, from: u64, to: u64) returns (r: Option<nat>, addr: u64)
      requires InPool(freeRanges) && WellFormed(View(freeRanges)) && IsPow2(align)
      ensures r == Found(View(freeRanges), size, align, from, to)
      ensures r.Some? ==> addr == Candidate(View(freeRanges)[r.value], align, from)
    {
      ghost var s := View(freeRanges);
      var k := LowestEndAbove(FreeRanges, from);
      while k < |freeRanges| && nodes[freeRanges[k]].begin < to
        invariant k <= |s| && FitIndex(s, k, size, align, from, to) == Found(s, size, align, from, to)
        decreases |s| - k
      {
        var p := nodes[freeRanges[k]];
        assert p == s[k];
        addr := Candidate(p, align, from);
        if Fits(p, size, align, from, to) {
          return Some(k), addr;
        }
        k := k + 1;
      }
      r, addr := None, to;
    }

    /** `__balloc_alloc`: carve the block the search finds out of its free range (lines
        147-152) and return its address, or return `to` when there is none. The free ranges
        become those `AllocSpec` names; the memory map is left alone. */
    method Alloc(size: u64, align: u64, from: u64, to: u64) returns (addr: u64)
      requires Valid(multiset{}) && IsPow2(align)
      requires |freeList| >= AllocNeed(View(freeRanges), size, align, from, to)
      modifies this, nodes
      ensures Valid(multiset{})
      ensures addr == AllocSpec(old(View(freeRanges)), size, align, from, to).addr
      ensures View(freeRanges) == AllocSpec(old(View(freeRanges)), size, align, from, to).ranges
      ensures memoryMap == old(memoryMap) && View(memoryMap) == old(View(memoryMap))
    {
      ghost var s := View(freeRanges);
      var r, a := FindFit(size, align, from, to);
      if r.None? {
        return to;
      }
      Carve(FreeRanges, r.value, a, Wrap(a + size), multiset{});
      AllocUnfolds(s, size, align, from, to, r.value, a, Wrap(a + size));
      addr := a;
    }

    /** `balloc_alloc`: pick the alignment from the size (64, lowered to 32, 16 and 8 as the
        size allows) and allocate with `__balloc_alloc`. */
    method BallocAlloc(size: u64, from: u64, to: u64) returns (addr: u64)
      requires Valid(multiset{})
      requires |freeList| >= AllocNeed(View(freeRanges), size, AlignFor(size), from, to)
      modifies this, nodes
      ensures Valid(multiset{})
      ensures Outcome(addr, View(freeRanges)) == AllocSpec(old(View(freeRanges)), size, AlignFor(size), from, to)
      ensures memoryMap == old(memoryMap) && View(memoryMap) == old(View(memoryMap))
    {
      var align: u64 := 64;
      if size <= 32 { align := 32; }
      if size <= 16 { align := 16; }
      if size <= 8 { align := 8; }
      assert align == AlignFor(size);
      addr := Alloc(size, align, from, to);
    }

    /** `balloc_free`: give `[begin, end)` back to `free_ranges`. */
    method Free(begin: u64, end: u64)
      requires Valid(multiset{}) && begin < end && |freeList| > 0
      modifies this, nodes
      ensures Valid(multiset{})
      ensures View(freeRanges) == AddSpec(old(View(freeRanges)), begin, end)
      ensures memoryMap == old(memoryMap) && View(memoryMap) == old(View(memoryMap))
    {
      AddRange(FreeRanges, begin, end, multiset{});
    }

    /** `balloc_memory`: the end of the right-most range of `memory_map`, which bounds every
        known address and is one past the highest of them. The source reads a null node
        when the map is empty. */
    method Memory() returns (top: u64)
      requires Valid(multiset{}) && memoryMap != []
      ensures Covers(View(memoryMap), top - 1)
      ensures forall x :: Covers(View(memoryMap), x) ==> x < top
    {
      ghost var s := View(memoryMap);
      top := nodes[memoryMap[|memoryMap| - 1]].end;
      assert s[|s| - 1].end == top && Contains(s[|s| - 1], top - 1);
      forall x | Covers(s, x) ensures x < top {
        var i :| 0 <= i < |s| && Contains(s[i], x);
        if i < |s| - 1 {
          assert s[i].end < s[|s| - 1].begin;
        }
      }
    }

    /** `balloc_setup_nodes`: start an empty free list and push every slot of the pool onto
        it, slot 0 first, so that the last slot is handed out first. */
    method SetupNodes()
      modifies this
      ensures freeList == Countdown(MAX_RANGES)
      ensures freeRanges == old(freeRanges) && memoryMap == old(memoryMap) && nodes[..] == old(nodes[..])
    {
      freeList := [];
      for i := 0 to MAX_RANGES
        invariant freeList == Countdown(i)
        invariant freeRanges == old(freeRanges) && memoryMap == old(memoryMap) && nodes[..] == old(nodes[..])
      {
        FreeNode(i);
      }
    }

    /** A full free list and two empty trees keep the invariant. */
    lemma FreshPool()
      requires nodes.Length == MAX_RANGES && freeList == Countdown(MAX_RANGES)
      requires freeRanges == [] && memoryMap == []
      ensures Valid(multiset{}) && State() == Trees([], [])
    {
      FullPool(nodes[..], freeList);
    }

    /** One tree operation of `balloc_parse_mmap`, run ahead of the operations `rest` on the
        way to `goal`: afterwards `rest` alone leads to the same `goal`, still without finding
        the pool empty. */
    method Perform(op: Op, ghost rest: seq<Op>, ghost goal: Trees)
      requires Valid(multiset{})
      requires op.Add? ==> op.from < op.to
      requires op.Remove? ==> op.from <= op.to
      requires Run(State(), [op] + rest) == goal && PoolSuffices(State(), [op] + rest)
      modifies this, nodes
      ensures Valid(multiset{})
      ensures Run(State(), rest) == goal && PoolSuffices(State(), rest)
    {
      assert ([op] + rest)[0] == op && ([op] + rest)[1..] == rest;
      SpareNodes(multiset{});
      match op
      case Add(t, from, to) =>
        AddRange(t, from, to, multiset{});
      case Remove(from, to) =>
        RemoveRange(FreeRanges, from, to, multiset{});
    }

    /** The first loop of `balloc_parse_mmap` (lines 206-216): add every entry to
        `memory_map` and then to `free_ranges`. The operations after it, `rest`, still lead
        to `goal` without finding the pool empty. */
    method AddEntries(es: seq<MmapEntry>, ghost rest: seq<Op>, ghost goal: Trees)
      requires Valid(multiset{}) && SaneEntries(es)
      requires Run(State(), EntryAdds(es) + rest) == goal && PoolSuffices(State(), EntryAdds(es) + rest)
      modifies this, nodes
      ensures Valid(multiset{}) && Run(State(), rest) == goal && PoolSuffices(State(), rest)
    {
      var i := 0;
      assert es[i..] == es;
      while i < |es|
        invariant Valid(multiset{}) && i <= |es|
        invariant Run(State(), EntryAdds(es[i..]) + rest) == goal
        invariant PoolSuffices(State(), EntryAdds(es[i..]) + rest)
      {
        var rbegin, rend := es[i].addr, EntryEnd(es[i]);
        SaneEntry(es, i);
        EntryAddsStep(es, i, rest);
        Perform(Add(MemoryMap, rbegin, rend), [Add(FreeRanges, rbegin, rend)] + (EntryAdds(es[i+1..]) + rest), goal);
        Perform(Add(FreeRanges, rbegin, rend), EntryAdds(es[i+1..]) + rest, goal);
        i := i + 1;
      }
      assert es[i..] == [] && EntryAdds(es[i..]) + rest == rest;
    }

    /** One pass of the second loop of `balloc_parse_mmap` (lines 232-234): take entry `e`
        out of `free_ranges` when its type is not `AVAILABLE`. */
    method RemoveIfReserved(e: MmapEntry, ghost rest: seq<Op>, ghost goal: Trees)
      requires Valid(multiset{}) && e.addr < EntryEnd(e)
      requires var ops := (if e.kind != AVAILABLE then [Remove(e.addr, EntryEnd(e))] else []) + rest;
        Run(State(), ops) == goal && PoolSuffices(State(), ops)
      modifies this, nodes
      ensures Valid(multiset{}) && Run(State(), rest) == goal && PoolSuffices(State(), rest)
    {
      var rbegin, rend := e.addr, EntryEnd(e);
      if e.kind != AVAILABLE {
        Perform(Remove(rbegin, rend), rest, goal);
      } else {
        assert [] + rest == rest;
      }
    }

    /** The second loop of `balloc_parse_mmap` (lines 227-237): take every entry whose type is
        not `AVAILABLE` out of `free_ranges`. */
    method RemoveReserved(es: seq<MmapEntry>, ghost rest: seq<Op>, ghost goal: Trees)
      requires Valid(multiset{}) && SaneEntries(es)
      requires Run(State(), ReservedRemoves(es) + rest) == goal && PoolSuffices(State(), ReservedRemoves(es) + rest)
      modifies this, nodes
      ensures Valid(multiset{}) && Run(State(), rest) == goal && PoolSuffices(State(), rest)
    {
      var i := 0;
      assert es[i..] == es;
      while i < |es|
        invariant Valid(multiset{}) && i <= |es|
        invariant Run(State(), ReservedRemoves(es[i..]) + rest) == goal
        invariant PoolSuffices(State(), ReservedRemoves(es[i..]) + rest)
      {
        SaneEntry(es, i);
        ReservedRemovesStep(es, i, rest);
        RemoveIfReserved(es[i], ReservedRemoves(es[i+1..]) + rest, goal);
        i := i + 1;
      }
      assert es[i..] == [] && ReservedRemoves(es[i..]) + rest == rest;
    }

    /** `balloc_parse_mmap`: add every entry of the memory map to `memory_map` and then to
        `free_ranges`, add the kernel image to both, then take every entry whose type is not
        `AVAILABLE`, the initrd module and the kernel image out of `free_ranges`. The trees
        end as `ParseMmap` says. */
    method ParseMmap(es: seq<MmapEntry>, kernel: Range, initrd: Range)
      requires Valid(multiset{}) && SaneEntries(es)
      requires kernel.begin < kernel.end && initrd.begin <= initrd.end
      requires PoolSuffices(State(), ParseOps(es, kernel, initrd))
      modifies this, nodes
      ensures Valid(multiset{}) && State() == Boot.ParseMmap(old(State()), es, kernel, initrd)
    {
      ghost var goal := Run(State(), ParseOps(es, kernel, initrd));
      var kmap, kfree := Add(MemoryMap, kernel.begin, kernel.end), Add(FreeRanges, kernel.begin, kernel.end);
      var rinit, rkernel := Remove(initrd.begin, initrd.end), Remove(kernel.begin, kernel.end);
      ghost var last := [rinit] + ([rkernel] + []);
      ghost var clear := ReservedRemoves(es) + last;
      ghost var kernelOn := [kmap] + ([kfree] + clear);
      assert ParseOps(es, kernel, initrd) == EntryAdds(es) + kernelOn;
      AddEntries(es, kernelOn, goal);
      Perform(kmap, [kfree] + clear, goal);
      Perform(kfree, clear, goal);
      RemoveReserved(es, last, goal);
      Perform(rinit, [rkernel] + [], goal);
      Perform(rkernel, [], goal);
    }

    /** `balloc_setup`: fill the free list, then parse the memory map into the two empty
        trees. Every free byte then lies in an entry reported as available, outside the
        initrd module and the kernel image. */
    method Setup(es: seq<MmapEntry>, kernel: Range, initrd: Range)
      requires nodes.Length == MAX_RANGES && freeRanges == [] && memoryMap == []
      requires SaneEntries(es) && kernel.begin < kernel.end && initrd.begin <= initrd.end
      requires PoolSuffices(Trees([], []), ParseOps(es, kernel, initrd))
      modifies this, nodes
      ensures Valid(multiset{}) && State() == Boot.ParseMmap(Trees([], []), es, kernel, initrd)
      ensures forall x :: Covers(View(freeRanges), x) ==>
        InAvailable(es, x) && !Contains(initrd, x) && !Contains(kernel, x)
    {
      SetupNodes();
      FreshPool();
      ParseMmap(es, kernel, initrd);
      ParseMmapFacts(es, kernel, initrd);
    }
  }
}
