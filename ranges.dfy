/** Half-open physical address ranges and the ordered interval sets that the early-boot
    allocator keeps in its two trees (`free_ranges` and `memory_map`).  A tree is modelled by
    the sequence of its ranges in key (`begin`) order, which is what an in-order walk yields. */
module Ranges {

  /** One past the largest `unsigned long long`. */
  const ADDR_LIMIT: int := 0x1_0000_0000_0000_0000

  /** A 64-bit physical address or size. */
  type u64 = x: int | 0 <= x < ADDR_LIMIT

  /** The `[begin, end)` pair carried by a `memory_node`. */
  datatype Range = Range(begin: u64, end: u64)

  /** The sum `x` of two 64-bit values reduced modulo 2^64, as the `unsigned long long` sums
      of the allocator wrap. */
  function Wrap(x: nat): u64
    requires x < 2 * ADDR_LIMIT
  {
    if x < ADDR_LIMIT then x else x - ADDR_LIMIT
  }

  function Max(a: int, b: int): int { if a < b then b else a }
  function Min(a: int, b: int): int { if a < b then a else b }

  predicate Contains(r: Range, x: int) { r.begin <= x < r.end }

  /** Address `x` lies in some range of `s`. */
  ghost predicate Covers(s: seq<Range>, x: int) {
    exists i :: 0 <= i < |s| && Contains(s[i], x)
  }

  /** The interval-set invariant: every range is non-empty, and in key order each range ends
      strictly before the next one begins (ranges neither overlap nor touch). */
  predicate WellFormed(s: seq<Range>) {
    && (forall i :: 0 <= i < |s| ==> s[i].begin < s[i].end)
    && (forall i, j :: 0 <= i < j < |s| ==> s[i].end < s[j].begin)
  }

  /** No stored range shares an address with `[from, to)`; touching at an end point is allowed. */
  predicate NoOverlap(s: seq<Range>, from: int, to: int) {
    forall i :: 0 <= i < |s| ==> s[i].end <= from || to <= s[i].begin
  }

  /** `r` and `[from, to)` have an address in common. */
  predicate Meets(r: Range, from: int, to: int) {
    Max(r.begin, from) < Min(r.end, to)
  }

  /** No range of `s` meets `[from, to)`. */
  predicate Clear(s: seq<Range>, from: int, to: int) {
    forall j :: 0 <= j < |s| ==> !Meets(s[j], from, to)
  }

  /** Where the descent of `__balloc_add_range` links a new node with key `from`: the first
      range whose `begin` is not below `from` (an equal key descends to the left). */
  function InsertPos(s: seq<Range>, from: int): (i: nat)
    ensures i <= |s|
  {
    if s == [] || from <= s[0].begin then 0 else 1 + InsertPos(s[1..], from)
  }

  /** Every range before the insertion point begins below `from`, and the one at it does not. */
  lemma {:induction false} InsertPosFacts(s: seq<Range>, from: int)
    ensures forall j :: 0 <= j < InsertPos(s, from) ==> s[j].begin < from
    ensures InsertPos(s, from) < |s| ==> from <= s[InsertPos(s, from)].begin
  {
    if s != [] && s[0].begin < from {
      InsertPosFacts(s[1..], from);
      forall j | 0 < j < InsertPos(s, from) ensures s[j].begin < from {
        assert s[j] == s[1..][j - 1];
      }
    }
  }

  /** The insertion point is the only position with ranges beginning below `from` before it
      and none at it. */
  lemma {:induction false} InsertPosUnique(s: seq<Range>, from: int, i: nat)
    requires i <= |s| && forall j :: 0 <= j < i ==> s[j].begin < from
    requires i < |s| ==> from <= s[i].begin
    ensures InsertPos(s, from) == i
  {
    if s != [] && s[0].begin < from {
      forall j | 0 <= j < i - 1 ensures s[1..][j].begin < from {
        assert s[1..][j] == s[j + 1];
      }
      InsertPosUnique(s[1..], from, i - 1);
    }
  }

  /** The node the descents of `__balloc_remove_range` and `__balloc_alloc` settle on: the first
      range whose `end` lies above `from`. */
  function FirstEndAbove(s: seq<Range>, from: int): (i: nat)
    ensures i <= |s|
  {
    if s == [] || from < s[0].end then 0 else 1 + FirstEndAbove(s[1..], from)
  }

  /** Every range before the descent's node ends at or below `from`, and that node ends above. */
  lemma {:induction false} FirstEndAboveFacts(s: seq<Range>, from: int)
    ensures forall j :: 0 <= j < FirstEndAbove(s, from) ==> s[j].end <= from
    ensures FirstEndAbove(s, from) < |s| ==> from < s[FirstEndAbove(s, from)].end
  {
    if s != [] && s[0].end <= from {
      FirstEndAboveFacts(s[1..], from);
      forall j | 0 < j < FirstEndAbove(s, from) ensures s[j].end <= from {
        assert s[j] == s[1..][j - 1];
      }
    }
  }

  /** What `__balloc_add_range` leaves in a tree: `[from, to)` is linked at its insertion point,
      then absorbs the predecessor if that reaches `from` (taking the larger end), and then the
      successor if that begins at or below the new end, whose end it takes as it is. */
  function AddSpec(s: seq<Range>, from: u64, to: u64): (r: seq<Range>)
    ensures |s| - 1 <= |r| <= |s| + 1
  {
    var i := InsertPos(s, from);
    var merged := i > 0 && from <= s[i-1].end;
    var keep := if merged then i - 1 else i;
    var b := if merged then s[i-1].begin else from;
    var e := if merged && to < s[i-1].end then s[i-1].end else to;
    if i < |s| && s[i].begin <= e then s[..keep] + [Range(b, s[i].end)] + s[i+1..]
    else s[..keep] + [Range(b, e)] + s[i..]
  }

  /** The descent's node is the only position with ranges ending at or below `from` before
      it and one ending above `from` at it. */
  lemma {:induction false} FirstEndAboveUnique(s: seq<Range>, from: int, i: nat)
    requires i <= |s| && forall j :: 0 <= j < i ==> s[j].end <= from
    requires i < |s| ==> from < s[i].end
    ensures FirstEndAbove(s, from) == i
  {
    if s != [] && s[0].end <= from {
      forall j | 0 <= j < i - 1 ensures s[1..][j].end <= from {
        assert s[1..][j] == s[j + 1];
      }
      FirstEndAboveUnique(s[1..], from, i - 1);
    }
  }

  // ---------------------------------------------------------------------------------------
  // Helpers about coverage and the invariant

  lemma CoversAppend(a: seq<Range>, b: seq<Range>)
    ensures forall x :: Covers(a + b, x) <==> Covers(a, x) || Covers(b, x)
  {
    forall x ensures Covers(a + b, x) <==> Covers(a, x) || Covers(b, x) {
      if Covers(a + b, x) {
        var i :| 0 <= i < |a + b| && Contains((a + b)[i], x);
        if i >= |a| { assert Contains(b[i - |a|], x); }
      }
      if Covers(a, x) {
        var i :| 0 <= i < |a| && Contains(a[i], x);
        assert Contains((a + b)[i], x);
      }
      if Covers(b, x) {
        var i :| 0 <= i < |b| && Contains(b[i], x);
        assert Contains((a + b)[i + |a|], x);
      }
    }
  }

  lemma SliceSnoc(s: seq<Range>, lo: nat, hi: nat)
    requires lo <= hi < |s|
    ensures s[lo..hi+1] == s[lo..hi] + [s[hi]]
  {
  }

  lemma CoversOne(m: Range)
    ensures forall x :: Covers([m], x) <==> Contains(m, x)
  {
    forall x | Contains(m, x) ensures Covers([m], x) { assert Contains([m][0], x); }
  }

  lemma CoversReplace(s: seq<Range>, keep: nat, m: seq<Range>, j: nat)
    requires keep <= j <= |s|
    ensures forall x :: Covers(s, x) <==> Covers(s[..keep], x) || Covers(s[keep..j], x) || Covers(s[j..], x)
    ensures forall x :: Covers(s[..keep] + m + s[j..], x) <==> Covers(s[..keep], x) || Covers(m, x) || Covers(s[j..], x)
  {
    assert s == s[..keep] + s[keep..j] + s[j..];
    CoversAppend(s[..keep] + s[keep..j], s[j..]);
    CoversAppend(s[..keep], s[keep..j]);
    CoversAppend(s[..keep] + m, s[j..]);
    CoversAppend(s[..keep], m);
  }

  lemma CoversAround(s: seq<Range>, keep: nat, m: Range, j: nat)
    requires keep <= j <= |s|
    ensures forall x :: Covers(s, x) <==> Covers(s[..keep], x) || Covers(s[keep..j], x) || Covers(s[j..], x)
    ensures forall x :: Covers(s[..keep] + [m] + s[j..], x) <==> Covers(s[..keep], x) || Contains(m, x) || Covers(s[j..], x)
  {
    CoversReplace(s, keep, [m], j);
    CoversOne(m);
  }

  /** The address just past a range of a well-formed set is not covered. */
  lemma EndUncovered(s: seq<Range>, j: nat)
    requires WellFormed(s) && j < |s|
    ensures !Covers(s, s[j].end)
  {
    forall i | 0 <= i < |s| ensures !Contains(s[i], s[j].end) {
      if i < j { assert s[i].end < s[j].begin; } else if i > j { assert s[j].end < s[i].begin; }
    }
  }

  lemma WellFormedSlice(s: seq<Range>, lo: nat, hi: nat)
    requires WellFormed(s) && lo <= hi <= |s|
    ensures WellFormed(s[lo..hi])
  {
    var t := s[lo..hi];
    forall i, j | 0 <= i < j < |t| ensures t[i].end < t[j].begin {
      assert t[i] == s[lo + i] && t[j] == s[lo + j];
    }
  }

  lemma WellFormedJoin(a: seq<Range>, m: seq<Range>, b: seq<Range>)
    requires WellFormed(a) && WellFormed(m) && WellFormed(b)
    requires forall i, k :: 0 <= i < |a| && 0 <= k < |m| ==> a[i].end < m[k].begin
    requires forall k, j :: 0 <= k < |m| && 0 <= j < |b| ==> m[k].end < b[j].begin
    requires forall i, j :: 0 <= i < |a| && 0 <= j < |b| ==> a[i].end < b[j].begin
    ensures WellFormed(a + m + b)
  {
    var r := a + m + b;
    forall i, j | 0 <= i < j < |r| ensures r[i].end < r[j].begin {
      if j < |a| {
        assert r[i] == a[i] && r[j] == a[j];
      } else if j < |a| + |m| {
        if i < |a| { assert r[i] == a[i]; } else { assert r[i] == m[i - |a|]; }
        assert r[j] == m[j - |a|];
      } else {
        if i < |a| { assert r[i] == a[i]; }
        else if i < |a| + |m| { assert r[i] == m[i - |a|]; }
        else { assert r[i] == b[i - |a| - |m|]; }
        assert r[j] == b[j - |a| - |m|];
      }
    }
  }

  /** Replacing the ranges strictly between `s[keep-1]` and `s[j]` by `m` keeps the invariant
      when `m` is non-empty, well-formed and fits strictly between those two neighbours. */
  lemma WellFormedReplace(s: seq<Range>, keep: nat, m: seq<Range>, j: nat)
    requires WellFormed(s) && WellFormed(m) && keep <= j <= |s|
    requires keep > 0 ==> forall k :: 0 <= k < |m| ==> s[keep-1].end < m[k].begin
    requires j < |s| ==> forall k :: 0 <= k < |m| ==> m[k].end < s[j].begin
    ensures WellFormed(s[..keep] + m + s[j..])
  {
    WellFormedSlice(s, 0, keep);
    WellFormedSlice(s, j, |s|);
    forall i, k | 0 <= i < keep && 0 <= k < |m| ensures s[..keep][i].end < m[k].begin {
      if i < keep - 1 { assert s[i].end < s[keep-1].begin; }
    }
    forall k, i | 0 <= k < |m| && 0 <= i < |s| - j ensures m[k].end < s[j..][i].begin {
      if i > 0 { assert s[j].end < s[j + i].begin; }
    }
    forall i, i' | 0 <= i < keep && 0 <= i' < |s| - j ensures s[..keep][i].end < s[j..][i'].begin {
      assert s[i].end < s[j + i'].begin;
    }
    WellFormedJoin(s[..keep], m, s[j..]);
  }

  // ---------------------------------------------------------------------------------------
  // __balloc_add_range

  /** `__balloc_add_range` keeps the interval-set invariant for every non-empty `[from, to)`,
      whether or not it overlaps stored ranges. */
  lemma AddPreservesWellFormed(s: seq<Range>, from: u64, to: u64)
    requires WellFormed(s) && from < to
    ensures WellFormed(AddSpec(s, from, to))
  {
    var i := InsertPos(s, from);
    InsertPosFacts(s, from);
    var merged := i > 0 && from <= s[i-1].end;
    var keep := if merged then i - 1 else i;
    var b := if merged then s[i-1].begin else from;
    var e := if merged && to < s[i-1].end then s[i-1].end else to;
    assert b < e;
    assert keep > 0 ==> s[keep-1].end < b;
    if i < |s| && s[i].begin <= e {
      assert i + 1 < |s| ==> s[i].end < s[i+1].begin;
      assert b < s[i].end;
      WellFormedReplace(s, keep, [Range(b, s[i].end)], i + 1);
      assert AddSpec(s, from, to) == s[..keep] + [Range(b, s[i].end)] + s[i+1..];
    } else {
      assert i < |s| ==> e < s[i].begin;
      WellFormedReplace(s, keep, [Range(b, e)], i);
      assert AddSpec(s, from, to) == s[..keep] + [Range(b, e)] + s[i..];
    }
  }

  /** When the successor is absorbed its end is taken as it is (not the larger of the two), so
      the added range may be cut short: adding `[0,100)` in front of `[10,20)` keeps `[0,20)`. */
  lemma AddCutsAtSuccessor()
    ensures AddSpec([Range(10, 20)], 0, 100) == [Range(0, 20)]
  {
    assert InsertPos([Range(10, 20)], 0) == 0;
  }

  /** `__balloc_add_range` never makes up memory: whatever it leaves covered was covered before
      or lies in `[from, to)`. */
  lemma AddCoversWithin(s: seq<Range>, from: u64, to: u64)
    requires WellFormed(s) && from < to
    ensures forall x :: Covers(AddSpec(s, from, to), x) ==> Covers(s, x) || from <= x < to
  {
    var i := InsertPos(s, from);
    InsertPosFacts(s, from);
    var merged := i > 0 && from <= s[i-1].end;
    var keep := if merged then i - 1 else i;
    var b := if merged then s[i-1].begin else from;
    var e := if merged && to < s[i-1].end then s[i-1].end else to;
    if i < |s| && s[i].begin <= e {
      var m := Range(b, s[i].end);
      CoversAround(s, keep, m, i + 1);
      SliceSnoc(s, keep, i);
      CoversAppend(s[keep..i], [s[i]]);
      CoversOne(s[i]);
      if merged {
        assert s[keep..i] == [s[i-1]];
        CoversOne(s[i-1]);
      }
      assert AddSpec(s, from, to) == s[..keep] + [m] + s[i+1..];
    } else {
      var m := Range(b, e);
      CoversAround(s, keep, m, i);
      if merged {
        assert s[keep..i] == [s[i-1]];
        CoversOne(s[i-1]);
      }
      assert AddSpec(s, from, to) == s[..keep] + [m] + s[i..];
    }
  }

  /** Case of `AddUnion` where the successor is not absorbed. */
  lemma AddUnionKeepsSuccessor(s: seq<Range>, from: u64, to: u64, i: nat, keep: nat, m: Range)
    requires keep <= i <= |s| && i - keep <= 1 && from < to
    requires keep < i ==> s[keep].begin < s[keep].end
    requires keep < i ==> s[keep].end == from && m == Range(s[keep].begin, to)
    requires keep == i ==> m == Range(from, to)
    ensures forall x :: Covers(s[..keep] + [m] + s[i..], x) <==> Covers(s, x) || from <= x < to
  {
    CoversAround(s, keep, m, i);
    if keep < i {
      assert s[keep..i] == [s[keep]];
      CoversOne(s[keep]);
    } else {
      assert s[keep..i] == [];
    }
  }

  /** Case of `AddUnion` where the successor, beginning exactly at `to`, is absorbed. */
  lemma AddUnionAbsorbsSuccessor(s: seq<Range>, from: u64, to: u64, i: nat, keep: nat, m: Range)
    requires keep <= i < |s| && i - keep <= 1 && s[i].begin == to && from < to
    requires s[i].begin < s[i].end && (keep < i ==> s[keep].begin < s[keep].end)
    requires keep < i ==> s[keep].end == from && m == Range(s[keep].begin, s[i].end)
    requires keep == i ==> m == Range(from, s[i].end)
    ensures forall x :: Covers(s[..keep] + [m] + s[i+1..], x) <==> Covers(s, x) || from <= x < to
  {
    CoversAround(s, keep, m, i + 1);
    assert s[keep..i+1] == s[keep..i] + [s[i]];
    CoversAppend(s[keep..i], [s[i]]);
    CoversOne(s[i]);
    if keep < i {
      assert s[keep..i] == [s[keep]];
      CoversOne(s[keep]);
    } else {
      assert s[keep..i] == [];
    }
  }

  /** When `[from, to)` overlaps no stored range (touching allowed), `__balloc_add_range`
      leaves exactly the old union together with `[from, to)`. */
  lemma AddUnion(s: seq<Range>, from: u64, to: u64)
    requires WellFormed(s) && from < to && NoOverlap(s, from, to)
    ensures forall x :: Covers(AddSpec(s, from, to), x) <==> Covers(s, x) || from <= x < to
  {
    var i := InsertPos(s, from);
    InsertPosFacts(s, from);
    var merged := i > 0 && from <= s[i-1].end;
    var keep := if merged then i - 1 else i;
    var b := if merged then s[i-1].begin else from;
    var e := if merged then Max(s[i-1].end, to) else to;
    assert merged ==> s[i-1].end == from && e == to;
    var r := AddSpec(s, from, to);
    if i < |s| && s[i].begin <= e {
      assert r == s[..keep] + [Range(b, s[i].end)] + s[i+1..];
      assert s[i].begin == to;
      AddUnionAbsorbsSuccessor(s, from, to, i, keep, Range(b, s[i].end));
    } else {
      assert r == s[..keep] + [Range(b, e)] + s[i..];
      AddUnionKeepsSuccessor(s, from, to, i, keep, Range(b, e));
    }
    assert forall x :: Covers(r, x) <==> Covers(s, x) || from <= x < to;
  }

  /** Adding `[0,10)` and then `[10,20)` to an empty set leaves the single range `[0,20)`. */
  lemma AddTouchingMerges()
    ensures AddSpec(AddSpec([], 0, 10), 10, 20) == [Range(0, 20)]
  {
    assert AddSpec([], 0, 10) == [Range(0, 10)];
    assert InsertPos([Range(0, 10)], 10) == 1;
  }

  // ---------------------------------------------------------------------------------------
  // Carving a sub-range out of one stored range (src/balloc.c:111-116 and 147-152)

  /** Erase node `k`, re-add through `__balloc_add_range` the part of it below `lo` and then
      the part of it above `hi`. */
  function CarveOut(s: seq<Range>, k: nat, lo: u64, hi: u64): seq<Range>
    requires k < |s|
  {
    ReAddAbove(ReAddBelow(s[..k] + s[k+1..], s[k], lo), s[k], hi)
  }

  /** Lines 112-113 and 148-149: re-add the part of the erased `p` below `lo`, if any. */
  function ReAddBelow(t: seq<Range>, p: Range, lo: u64): seq<Range> {
    if p.begin < lo then AddSpec(t, p.begin, lo) else t
  }

  /** Lines 114-115 and 150-151: re-add the part of the erased `p` above `hi`, if any. */
  function ReAddAbove(t: seq<Range>, p: Range, hi: u64): seq<Range> {
    if hi < p.end then AddSpec(t, hi, p.end) else t
  }

  /** The ranges a carve leaves in place of `p`: its part below `lo` and its part above `hi`;
      when `lo == hi` splits `p` the two parts touch and merge back into `p`. */
  function Remnants(p: Range, lo: u64, hi: u64): seq<Range>
  {
    if p.begin < lo && hi < p.end && lo == hi then [p]
    else (if p.begin < lo then [Range(p.begin, lo)] else []) + (if hi < p.end then [Range(hi, p.end)] else [])
  }

  /** Adding a range that neither overlaps nor touches anything links it as a range of its own. */
  lemma AddIsolated(a: seq<Range>, b: seq<Range>, from: u64, to: u64)
    requires from < to
    requires forall j :: 0 <= j < |a| ==> a[j].begin < from && a[j].end < from
    requires forall j :: 0 <= j < |b| ==> to < b[j].begin
    ensures AddSpec(a + b, from, to) == a + [Range(from, to)] + b
  {
    var s := a + b;
    InsertPosUnique(s, from, |a|);
    assert s[..|a|] == a && s[|a|..] == b;
  }

  /** Adding a range that touches its predecessor `p` (and nothing after it) extends `p`. */
  lemma AddAfterTouch(a: seq<Range>, p: Range, b: seq<Range>, from: u64, to: u64)
    requires p.begin < from && p.end == from && from < to
    requires forall j :: 0 <= j < |a| ==> a[j].begin < from
    requires forall j :: 0 <= j < |b| ==> to < b[j].begin
    ensures AddSpec(a + [p] + b, from, to) == a + [Range(p.begin, to)] + b
  {
    var s := a + [p] + b;
    assert s[|a|] == p;
    InsertPosUnique(s, from, |a| + 1);
    assert s[..|a|] == a && s[|a| + 1..] == b;
  }

  /** The neighbours of node `k` in a well-formed set lie strictly below and above it. */
  lemma Neighbours(s: seq<Range>, k: nat, a: seq<Range>, b: seq<Range>)
    requires WellFormed(s) && k < |s| && a == s[..k] && b == s[k+1..]
    ensures forall j :: 0 <= j < |a| ==> a[j].begin < s[k].begin && a[j].end < s[k].begin
    ensures forall j :: 0 <= j < |b| ==> s[k].end < b[j].begin
  {
    forall j | 0 <= j < |a| ensures a[j].begin < s[k].begin && a[j].end < s[k].begin {
      assert a[j] == s[j];
    }
    forall j | 0 <= j < |b| ensures s[k].end < b[j].begin {
      assert b[j] == s[k + 1 + j];
    }
  }

  /** Appending a range below `hi` to ranges that lie below `hi` keeps them all below `hi`. */
  lemma BelowAfterAppend(a: seq<Range>, l: Range, hi: int)
    requires forall j :: 0 <= j < |a| ==> a[j].begin < l.begin && a[j].end < l.begin
    requires l.begin < hi && l.end < hi
    ensures forall j :: 0 <= j < |a + [l]| ==> (a + [l])[j].begin < hi && (a + [l])[j].end < hi
  {
    forall j | 0 <= j < |a + [l]| ensures (a + [l])[j].begin < hi && (a + [l])[j].end < hi {
      if j < |a| { assert (a + [l])[j] == a[j]; }
    }
  }

  /** Two ranges appended one after the other are the pair appended at once. */
  lemma AppendPair(a: seq<Range>, l: Range, h: Range, b: seq<Range>)
    ensures a + [l] + [h] + b == a + [l, h] + b
  {
    assert a + [l] + [h] == a + [l, h];
  }

  /** Carving a proper sub-range out of the middle of `p` leaves its two ends. */
  lemma CarveApart(a: seq<Range>, p: Range, b: seq<Range>, lo: u64, hi: u64)
    requires p.begin < lo < hi < p.end
    requires forall j :: 0 <= j < |a| ==> a[j].begin < p.begin && a[j].end < p.begin
    requires forall j :: 0 <= j < |b| ==> p.end < b[j].begin
    ensures ReAddAbove(ReAddBelow(a + b, p, lo), p, hi) == a + Remnants(p, lo, hi) + b
  {
    var l := Range(p.begin, lo);
    var h := Range(hi, p.end);
    AddIsolated(a, b, p.begin, lo);
    BelowAfterAppend(a, l, hi);
    AddIsolated(a + [l], b, hi, p.end);
    AppendPair(a, l, h, b);
    assert Remnants(p, lo, hi) == [l, h];
  }

  /** Carving an empty range out of the middle of `p`: the two parts touch and merge into `p`. */
  lemma CarveRejoin(a: seq<Range>, p: Range, b: seq<Range>, lo: u64)
    requires p.begin < lo < p.end
    requires forall j :: 0 <= j < |a| ==> a[j].begin < p.begin && a[j].end < p.begin
    requires forall j :: 0 <= j < |b| ==> p.end < b[j].begin
    ensures ReAddAbove(ReAddBelow(a + b, p, lo), p, lo) == a + Remnants(p, lo, lo) + b
  {
    AddIsolated(a, b, p.begin, lo);
    AddAfterTouch(a, Range(p.begin, lo), b, lo, p.end);
    assert Remnants(p, lo, lo) == [p];
  }

  /** Carving when only the part of `p` below `lo` survives. */
  lemma CarveKeepsLow(a: seq<Range>, p: Range, b: seq<Range>, lo: u64, hi: u64)
    requires p.begin < lo <= p.end <= hi
    requires forall j :: 0 <= j < |a| ==> a[j].begin < p.begin && a[j].end < p.begin
    requires forall j :: 0 <= j < |b| ==> p.end < b[j].begin
    ensures ReAddAbove(ReAddBelow(a + b, p, lo), p, hi) == a + Remnants(p, lo, hi) + b
  {
    AddIsolated(a, b, p.begin, lo);
    assert Remnants(p, lo, hi) == [Range(p.begin, lo)];
  }

  /** Carving when only the part of `p` above `hi` survives. */
  lemma CarveKeepsHigh(a: seq<Range>, p: Range, b: seq<Range>, lo: u64, hi: u64)
    requires lo <= p.begin <= hi < p.end
    requires forall j :: 0 <= j < |a| ==> a[j].begin < p.begin && a[j].end < p.begin
    requires forall j :: 0 <= j < |b| ==> p.end < b[j].begin
    ensures ReAddAbove(ReAddBelow(a + b, p, lo), p, hi) == a + Remnants(p, lo, hi) + b
  {
    AddIsolated(a, b, hi, p.end);
    assert Remnants(p, lo, hi) == [Range(hi, p.end)];
  }

  /** Carving that swallows all of `p`. */
  lemma CarveKeepsNothing(a: seq<Range>, p: Range, b: seq<Range>, lo: u64, hi: u64)
    requires lo <= p.begin && p.end <= hi
    ensures ReAddAbove(ReAddBelow(a + b, p, lo), p, hi) == a + Remnants(p, lo, hi) + b
  {
    assert Remnants(p, lo, hi) == [];
    assert a + [] + b == a + b;
  }

  /** Carving `[lo, hi)` out of `p`, which lies strictly between `a` and `b`. */
  lemma CarveBetween(a: seq<Range>, p: Range, b: seq<Range>, lo: u64, hi: u64)
    requires lo <= hi && lo <= p.end && p.begin <= hi
    requires forall j :: 0 <= j < |a| ==> a[j].begin < p.begin && a[j].end < p.begin
    requires forall j :: 0 <= j < |b| ==> p.end < b[j].begin
    ensures ReAddAbove(ReAddBelow(a + b, p, lo), p, hi) == a + Remnants(p, lo, hi) + b
  {
    if p.begin < lo && hi < p.end && lo < hi {
      CarveApart(a, p, b, lo, hi);
    } else if p.begin < lo && hi < p.end {
      CarveRejoin(a, p, b, lo);
    } else if p.begin < lo {
      CarveKeepsLow(a, p, b, lo, hi);
    } else if hi < p.end {
      CarveKeepsHigh(a, p, b, lo, hi);
    } else {
      CarveKeepsNothing(a, p, b, lo, hi);
    }
  }

  /** In a well-formed set, carving `[lo, hi)` out of node `k` replaces it by its remnants and
      touches nothing else. */
  lemma CarveOutShape(s: seq<Range>, k: nat, lo: u64, hi: u64)
    requires WellFormed(s) && k < |s| && lo <= hi && lo <= s[k].end && s[k].begin <= hi
    ensures CarveOut(s, k, lo, hi) == s[..k] + Remnants(s[k], lo, hi) + s[k+1..]
  {
    Neighbours(s, k, s[..k], s[k+1..]);
    CarveBetween(s[..k], s[k], s[k+1..], lo, hi);
  }

  /** Erasing a node keeps the interval-set invariant. */
  lemma EraseKeepsWellFormed(s: seq<Range>, k: nat)
    requires WellFormed(s) && k < |s|
    ensures WellFormed(s[..k] + s[k+1..])
  {
    WellFormedReplace(s, k, [], k + 1);
    assert s[..k] + [] + s[k+1..] == s[..k] + s[k+1..];
  }

  /** What is left of `p` after a carve: well-formed, inside `p`, clear of `[lo, hi)`, and
      covering exactly the addresses of `p` outside `[lo, hi)`. */
  lemma RemnantsFacts(p: Range, lo: u64, hi: u64)
    requires p.begin < p.end && lo <= hi && lo <= p.end && p.begin <= hi
    ensures WellFormed(Remnants(p, lo, hi)) && |Remnants(p, lo, hi)| <= 2
    ensures forall k :: 0 <= k < |Remnants(p, lo, hi)| ==>
      p.begin <= Remnants(p, lo, hi)[k].begin && Remnants(p, lo, hi)[k].end <= p.end &&
      !Meets(Remnants(p, lo, hi)[k], lo, hi)
    ensures forall x :: Covers(Remnants(p, lo, hi), x) <==> Contains(p, x) && !(lo <= x < hi)
  {
    var l := if p.begin < lo then [Range(p.begin, lo)] else [];
    var r := if hi < p.end then [Range(hi, p.end)] else [];
    if p.begin < lo && hi < p.end && lo == hi {
      CoversOne(p);
    } else {
      assert Remnants(p, lo, hi) == l + r;
      CoversAppend(l, r);
      if l != [] { CoversOne(l[0]); assert l == [l[0]]; }
      if r != [] { CoversOne(r[0]); assert r == [r[0]]; }
    }
  }

  // ---------------------------------------------------------------------------------------
  // __balloc_remove_range

  /** The set one step of the walk at node `k` leaves: the node replaced by its remnants. */
  function Spliced(s: seq<Range>, k: nat, from: u64, to: u64): (r: seq<Range>)
    requires k < |s|
    ensures |r| == |s| - 1 + |Remnants(s[k], from, to)|
  {
    s[..k] + Remnants(s[k], from, to) + s[k+1..]
  }

  /** Where the walk goes on after a step at node `k`: the node that followed it, now just
      past the remnants. */
  function Past(s: seq<Range>, k: nat, from: u64, to: u64): (k': nat)
    requires k < |s|
    ensures k <= k' <= k + 2
  {
    k + |Remnants(s[k], from, to)|
  }

  /** The walk of src/balloc.c:107-118 from the node at position `k` of `s`: while the current
      node begins below `to`, replace it by what is left of it outside `[from, to)`, then go on
      with the node that followed it, which now stands just past those remnants. In a
      well-formed set the erase and the re-adds of lines 111-115 do exactly that replacement
      (`CarveOutShape`) and leave the following node in place. */
  function RemoveWalk(s: seq<Range>, k: nat, from: u64, to: u64): seq<Range>
    decreases |s| - k
  {
    if k >= |s| || to <= s[k].begin then s
    else RemoveWalk(Spliced(s, k, from, to), Past(s, k, from, to), from, to)
  }

  /** What `__balloc_remove_range` leaves in a tree: the walk starts at the left-most node
      whose end lies above `from`. */
  function RemoveSpec(s: seq<Range>, from: u64, to: u64): seq<Range>
  {
    RemoveWalk(s, FirstEndAbove(s, from), from, to)
  }

  /** Replacing node `k` of a well-formed set by ranges inside it that keep clear of
      `[from, to)`, and that cover what it covered outside `[from, to)`. */
  lemma ReplaceNode(s: seq<Range>, k: nat, m: seq<Range>, from: int, to: int)
    requires WellFormed(s) && k < |s| && WellFormed(m)
    requires forall j :: 0 <= j < |m| ==> s[k].begin <= m[j].begin && m[j].end <= s[k].end
    requires forall x :: Covers(m, x) <==> Contains(s[k], x) && !(from <= x < to)
    ensures WellFormed(s[..k] + m + s[k+1..])
    ensures forall x :: Covers(s[..k] + m + s[k+1..], x) && !(from <= x < to) <==> Covers(s, x) && !(from <= x < to)
  {
    assert k > 0 ==> s[k-1].end < s[k].begin;
    assert k + 1 < |s| ==> s[k].end < s[k+1].begin;
    WellFormedReplace(s, k, m, k + 1);
    CoversReplace(s, k, m, k + 1);
    assert s[k..k+1] == [s[k]];
    CoversOne(s[k]);
  }

  /** Where the walk stops, nothing from the stopping node on meets `[from, to)`. */
  lemma WalkStops(s: seq<Range>, k: nat, from: u64, to: u64)
    requires WellFormed(s) && k <= |s|
    requires forall j :: 0 <= j < k ==> !Meets(s[j], from, to)
    requires k < |s| ==> to <= s[k].begin
    ensures forall j :: 0 <= j < |s| ==> !Meets(s[j], from, to)
    ensures forall x :: Covers(s, x) ==> !(from <= x < to)
  {
    forall j | k <= j < |s| ensures !Meets(s[j], from, to) {
      if j > k { assert s[k].end < s[j].begin; }
    }
    forall x | Covers(s, x) ensures !(from <= x < to) {
      var j :| 0 <= j < |s| && Contains(s[j], x);
    }
  }

  /** Where the walk stands at position `k`: the set is well-formed, the nodes behind it keep
      clear of `[from, to)`, and the node it is at ends above `from`. */
  ghost predicate Walking(s: seq<Range>, k: nat, from: u64, to: u64) {
    && WellFormed(s) && from <= to && k <= |s|
    && (forall j :: 0 <= j < k ==> !Meets(s[j], from, to))
    && (k < |s| ==> from < s[k].end)
  }

  /** After a step the walk's own conditions hold again past the remnants `m`. */
  lemma WalkContinues(s: seq<Range>, k: nat, m: seq<Range>, s': seq<Range>, from: u64, to: u64)
    requires WellFormed(s) && k < |s| && from < s[k].end && s' == s[..k] + m + s[k+1..]
    requires forall j :: 0 <= j < k ==> !Meets(s[j], from, to)
    requires forall j :: 0 <= j < |m| ==> !Meets(m[j], from, to)
    ensures forall j :: 0 <= j < k + |m| ==> !Meets(s'[j], from, to)
    ensures k + |m| < |s'| ==> from < s'[k + |m|].end
  {
    forall j | 0 <= j < k + |m| ensures !Meets(s'[j], from, to) {
      if j < k { assert s'[j] == s[j]; } else { assert s'[j] == m[j - k]; }
    }
    if k + 1 < |s| {
      assert s'[k + |m|] == s[k + 1];
      assert s[k].end < s[k + 1].begin;
    }
  }

  /** One step of the walk in a well-formed set: the walk's own conditions hold again just
      past the remnants, and what the set covers outside `[from, to)` is kept. */
  lemma WalkAdvance(s: seq<Range>, k: nat, from: u64, to: u64)
    requires Walking(s, k, from, to) && k < |s| && s[k].begin < to
    ensures Walking(Spliced(s, k, from, to), Past(s, k, from, to), from, to)
    ensures forall x :: Covers(Spliced(s, k, from, to), x) && !(from <= x < to) <==> Covers(s, x) && !(from <= x < to)
  {
    var m := Remnants(s[k], from, to);
    RemnantsFacts(s[k], from, to);
    ReplaceNode(s, k, m, from, to);
    WalkContinues(s, k, m, Spliced(s, k, from, to), from, to);
  }

  /** One step unfolds the walk into the rest of it. */
  lemma {:induction false} WalkUnfolds(s: seq<Range>, k: nat, from: u64, to: u64)
    requires k < |s| && s[k].begin < to
    ensures RemoveWalk(s, k, from, to) == RemoveWalk(Spliced(s, k, from, to), Past(s, k, from, to), from, to)
  {
    assert !(k >= |s| || to <= s[k].begin);
  }

  /** One step unfolds the pool nodes the walk needs into those the rest of it needs. */
  lemma {:induction false} NeedUnfolds(s: seq<Range>, k: nat, from: u64, to: u64)
    requires k < |s| && s[k].begin < to
    ensures WalkNeed(s, k, from, to) ==
      Max(CarveAdds(s[k], from, to), WalkNeed(Spliced(s, k, from, to), Past(s, k, from, to), from, to) + Growth(s[k], from, to))
  {
  }

  /** The walk leaves a well-formed set that no range of which meets `[from, to)` and that
      covers exactly what `s` covered outside `[from, to)`, provided the nodes it passed over
      already kept clear of `[from, to)`. */
  lemma {:induction false} RemoveWalkFacts(s: seq<Range>, k: nat, from: u64, to: u64)
    requires Walking(s, k, from, to)
    ensures WellFormed(RemoveWalk(s, k, from, to))
    ensures Clear(RemoveWalk(s, k, from, to), from, to)
    ensures forall x :: Covers(RemoveWalk(s, k, from, to), x) <==> Covers(s, x) && !(from <= x < to)
    decreases |s| - k
  {
    if k == |s| || to <= s[k].begin {
      assert RemoveWalk(s, k, from, to) == s;
      WalkStops(s, k, from, to);
    } else {
      WalkAdvance(s, k, from, to);
      WalkUnfolds(s, k, from, to);
      RemoveWalkFacts(Spliced(s, k, from, to), Past(s, k, from, to), from, to);
    }
  }

  /** The walk starts at the left-most node whose end lies above `from`. */
  lemma WalkStart(s: seq<Range>, from: u64, to: u64, k: nat)
    requires WellFormed(s) && from <= to && k == FirstEndAbove(s, from)
    ensures Walking(s, k, from, to)
  {
    FirstEndAboveFacts(s, from);
  }

  /** `__balloc_remove_range` keeps the invariant, leaves no range meeting `[from, to)`, and
      leaves exactly the old union minus `[from, to)`. */
  lemma RemoveFacts(s: seq<Range>, from: u64, to: u64)
    requires WellFormed(s) && from <= to
    ensures WellFormed(RemoveSpec(s, from, to))
    ensures Clear(RemoveSpec(s, from, to), from, to)
    ensures forall x :: Covers(RemoveSpec(s, from, to), x) <==> Covers(s, x) && !(from <= x < to)
  {
    WalkStart(s, from, to, FirstEndAbove(s, from));
    RemoveWalkFacts(s, FirstEndAbove(s, from), from, to);
  }

  // ---------------------------------------------------------------------------------------
  // Pool nodes a removal needs

  /** How many times a carve calls `__balloc_add_range` (lines 112-115 and 148-151). */
  function CarveAdds(p: Range, lo: int, hi: int): (n: nat)
    ensures n <= 2
    ensures n == 2 <==> p.begin < lo && hi < p.end
  {
    (if p.begin < lo then 1 else 0) + (if hi < p.end then 1 else 0)
  }

  /** How many nodes more a tree holds after a carve of `p`: its remnants less `p` itself. */
  function Growth(p: Range, lo: u64, hi: u64): (g: int)
    ensures -1 <= g <= 1
  {
    |Remnants(p, lo, hi)| - 1
  }

  /** The fewest free pool nodes with which the walk from position `k` never finds the pool
      empty. A step takes one node per re-add while its erased node is still held, and gives
      that node back at its end, so the pool then holds `1 - |remnants|` nodes more than
      before the step. */
  function WalkNeed(s: seq<Range>, k: nat, from: u64, to: u64): int
    decreases |s| - k
  {
    if k >= |s| || to <= s[k].begin then 0
    else
      Max(CarveAdds(s[k], from, to),
          WalkNeed(Spliced(s, k, from, to), Past(s, k, from, to), from, to) + Growth(s[k], from, to))
  }

  /** The pool nodes `__balloc_remove_range` needs on a tree. */
  function RemoveNeed(s: seq<Range>, from: u64, to: u64): int
  {
    WalkNeed(s, FirstEndAbove(s, from), from, to)
  }

  /** A step that splits a node ends the walk: the next node begins above the split node. */
  lemma SplitEndsWalk(s: seq<Range>, k: nat, from: u64, to: u64)
    requires WellFormed(s) && k < |s| && Past(s, k, from, to) == k + 2
    ensures WalkNeed(Spliced(s, k, from, to), k + 2, from, to) == 0
  {
    var s' := Spliced(s, k, from, to);
    if k + 1 < |s| {
      assert s'[k + 2] == s[k + 1];
      assert s[k].end < s[k + 1].begin;
    }
  }

  /** The walk at position `k` ends in `goal`. */
  ghost predicate WalkEnds(s: seq<Range>, k: nat, from: u64, to: u64, goal: seq<Range>) {
    RemoveWalk(s, k, from, to) == goal
  }

  /** A walk that has run out of nodes, or stands at one beginning at or above `to`, is over. */
  lemma WalkDone(s: seq<Range>, k: nat, from: u64, to: u64, goal: seq<Range>)
    requires WalkEnds(s, k, from, to, goal)
    requires k >= |s| || to <= s[k].begin
    ensures s == goal
  {
  }

  /** A carve at the node `k` the walk stands at leaves the walk at the node that followed it,
      `k'`, on course for the same outcome, with the remnants' nodes taken out of the pool. */
  lemma WalkInvariant(s: seq<Range>, k: nat, from: u64, to: u64, goal: seq<Range>) returns (s': seq<Range>, k': nat)
    requires Walking(s, k, from, to) && WalkEnds(s, k, from, to, goal) && k < |s| && s[k].begin < to
    ensures s' == CarveOut(s, k, from, to)
    ensures k' == k + |Remnants(s[k], from, to)| && |s'| - k' == |s| - k - 1
    ensures Walking(s', k', from, to) && WalkEnds(s', k', from, to, goal)
    ensures CarveAdds(s[k], from, to) <= WalkNeed(s, k, from, to)
    ensures WalkNeed(s', k', from, to) + Growth(s[k], from, to) <= WalkNeed(s, k, from, to)
  {
    s' := Spliced(s, k, from, to);
    k' := Past(s, k, from, to);
    WalkAdvance(s, k, from, to);
    WalkUnfolds(s, k, from, to);
    NeedUnfolds(s, k, from, to);
    CarveOutShape(s, k, from, to);
  }

  /** The walk never needs more than two free nodes. */
  lemma {:induction false} WalkNeedBound(s: seq<Range>, k: nat, from: u64, to: u64)
    requires Walking(s, k, from, to)
    ensures 0 <= WalkNeed(s, k, from, to) <= 2
    decreases |s| - k
  {
    if k == |s| || to <= s[k].begin {
    } else {
      WalkAdvance(s, k, from, to);
      NeedUnfolds(s, k, from, to);
      WalkNeedBound(Spliced(s, k, from, to), Past(s, k, from, to), from, to);
      if Past(s, k, from, to) == k + 2 {
        SplitEndsWalk(s, k, from, to);
      }
    }
  }

  /** `__balloc_remove_range` never needs more than two free pool nodes. */
  lemma RemoveNeedBound(s: seq<Range>, from: u64, to: u64)
    requires WellFormed(s) && from <= to
    ensures 0 <= RemoveNeed(s, from, to) <= 2
  {
    WalkStart(s, from, to, FirstEndAbove(s, from));
    WalkNeedBound(s, FirstEndAbove(s, from), from, to);
  }

  /** Removing an empty range leaves the covered addresses as they were. */
  lemma RemoveEmptyKeeps(s: seq<Range>, from: u64)
    requires WellFormed(s)
    ensures WellFormed(RemoveSpec(s, from, from))
    ensures forall x :: Covers(RemoveSpec(s, from, from), x) <==> Covers(s, x)
  {
    RemoveFacts(s, from, from);
  }

  /** Removing the middle of a range splits it, which takes both re-adds: two free nodes. */
  lemma RemoveSplitsRange()
    ensures RemoveSpec([Range(0, 100)], 40, 60) == [Range(0, 40), Range(60, 100)]
    ensures RemoveNeed([Range(0, 100)], 40, 60) == 2
  {
    var s := [Range(0, 100)];
    assert FirstEndAbove(s, 40) == 0;
    assert Remnants(s[0], 40, 60) == [Range(0, 40), Range(60, 100)];
    var s' := Spliced(s, 0, 40, 60);
    assert s' == [Range(0, 40), Range(60, 100)];
    assert RemoveWalk(s', 2, 40, 60) == s';
  }

  /** For a non-empty `[from, to)`, keeping clear of it is having no overlap with it. */
  lemma ClearNoOverlap(s: seq<Range>, from: int, to: int)
    requires WellFormed(s) && from < to && Clear(s, from, to)
    ensures NoOverlap(s, from, to)
  {
    forall i | 0 <= i < |s| ensures s[i].end <= from || to <= s[i].begin {
      assert !Meets(s[i], from, to);
    }
  }

  /** Removing a range and adding it back yields the old ranges together with that range. */
  lemma RemoveThenAdd(s: seq<Range>, from: u64, to: u64)
    requires WellFormed(s) && from < to
    ensures WellFormed(AddSpec(RemoveSpec(s, from, to), from, to))
    ensures forall x :: Covers(AddSpec(RemoveSpec(s, from, to), from, to), x) <==> Covers(s, x) || from <= x < to
  {
    var r := RemoveSpec(s, from, to);
    RemoveFacts(s, from, to);
    ClearNoOverlap(r, from, to);
    AddPreservesWellFormed(r, from, to);
    AddUnion(r, from, to);
  }

  /** A set clear of `[from, to)` covers none of its addresses. */
  lemma ClearUncovers(s: seq<Range>, from: int, to: int)
    requires Clear(s, from, to)
    ensures forall x :: from <= x < to ==> !Covers(s, x)
  {
  }

  /** Replacing node `k` by remnants clear of `[lo, hi) ⊆ s[k]` leaves the whole set clear of it. */
  lemma SpliceClear(s: seq<Range>, k: nat, m: seq<Range>, s': seq<Range>, lo: int, hi: int)
    requires WellFormed(s) && k < |s| && s[k].begin <= lo && hi <= s[k].end
    requires Clear(m, lo, hi) && s' == s[..k] + m + s[k+1..]
    ensures Clear(s', lo, hi)
  {
    forall j | 0 <= j < |s'| ensures !Meets(s'[j], lo, hi) {
      if j < k {
        assert s'[j] == s[j] && s[j].end < s[k].begin;
      } else if j < k + |m| {
        assert s'[j] == m[j - k];
      } else {
        assert s'[j] == s[j - |m| + 1] && s[k].end < s[j - |m| + 1].begin;
      }
    }
  }

  /** Carving `[lo, hi)` out of the node `k` that holds it (src/balloc.c:146-152): the set stays
      well-formed, keeps clear of `[lo, hi)`, and covers exactly what it covered minus `[lo, hi)`;
      the node count changes by the remnants less the erased node. */
  lemma CarveFacts(s: seq<Range>, k: nat, lo: u64, hi: u64)
    requires WellFormed(s) && k < |s| && s[k].begin <= lo <= hi <= s[k].end
    ensures WellFormed(CarveOut(s, k, lo, hi)) && Clear(CarveOut(s, k, lo, hi), lo, hi)
    ensures |CarveOut(s, k, lo, hi)| == |s| - 1 + |Remnants(s[k], lo, hi)|
    ensures forall x :: Covers(CarveOut(s, k, lo, hi), x) <==> Covers(s, x) && !(lo <= x < hi)
  {
    var m := Remnants(s[k], lo, hi);
    var s' := s[..k] + m + s[k+1..];
    CarveOutShape(s, k, lo, hi);
    RemnantsFacts(s[k], lo, hi);
    ReplaceNode(s, k, m, lo, hi);
    SpliceClear(s, k, m, s', lo, hi);
    ClearUncovers(s', lo, hi);
  }

  // ---------------------------------------------------------------------------------------
  // A well-formed set is determined by what it covers

  /** Nothing a non-empty well-formed set covers lies below the beginning of its first range. */
  lemma CoveredAboveFirst(s: seq<Range>, x: int)
    requires WellFormed(s) && s != [] && Covers(s, x)
    ensures s[0].begin <= x
  {
    var j :| 0 <= j < |s| && Contains(s[j], x);
    if j > 0 { assert s[0].end < s[j].begin; }
  }

  /** What the ranges after the first one cover is what the set covers from the first
      range's end on. */
  lemma CoversTail(s: seq<Range>)
    requires WellFormed(s) && s != []
    ensures forall x :: Covers(s[1..], x) <==> Covers(s, x) && s[0].end <= x
  {
    forall x ensures Covers(s[1..], x) <==> Covers(s, x) && s[0].end <= x {
      if Covers(s[1..], x) {
        var j :| 0 <= j < |s[1..]| && Contains(s[1..][j], x);
        assert s[1..][j] == s[j + 1] && s[0].end < s[j + 1].begin;
      }
      if Covers(s, x) && s[0].end <= x {
        var j :| 0 <= j < |s| && Contains(s[j], x);
        assert j > 0 && s[1..][j - 1] == s[j];
      }
    }
  }

  /** Two well-formed sets covering the same addresses are the same sequence of ranges, so an
      in-order walk of either tree prints the same ranges. */
  lemma {:induction false} CoversDetermines(s: seq<Range>, t: seq<Range>)
    requires WellFormed(s) && WellFormed(t)
    requires forall x :: Covers(s, x) <==> Covers(t, x)
    ensures s == t
    decreases |s|
  {
    if s == [] || t == [] {
      if s != [] { assert Contains(s[0], s[0].begin) && Covers(s, s[0].begin); }
      if t != [] { assert Contains(t[0], t[0].begin) && Covers(t, t[0].begin); }
    } else {
      assert Contains(s[0], s[0].begin) && Contains(t[0], t[0].begin);
      CoveredAboveFirst(t, s[0].begin);
      CoveredAboveFirst(s, t[0].begin);
      EndUncovered(s, 0);
      EndUncovered(t, 0);
      assert s[0] == t[0];
      CoversTail(s);
      CoversTail(t);
      WellFormedSlice(s, 1, |s|);
      WellFormedSlice(t, 1, |t|);
      CoversDetermines(s[1..], t[1..]);
      assert s == [s[0]] + s[1..] && t == [t[0]] + t[1..];
    }
  }

  /** Adding a range that overlaps nothing stored and then removing it again gives back the
      very ranges the tree held before. */
  lemma AddThenRemove(s: seq<Range>, from: u64, to: u64)
    requires WellFormed(s) && from < to && NoOverlap(s, from, to)
    ensures RemoveSpec(AddSpec(s, from, to), from, to) == s
  {
    var a := AddSpec(s, from, to);
    var r := RemoveSpec(a, from, to);
    AddPreservesWellFormed(s, from, to);
    AddUnion(s, from, to);
    RemoveFacts(a, from, to);
    forall x ensures Covers(r, x) <==> Covers(s, x) {
      if Covers(s, x) {
        var i :| 0 <= i < |s| && Contains(s[i], x);
        assert s[i].end <= from || to <= s[i].begin;
      }
    }
    CoversDetermines(r, s);
  }

  // ---------------------------------------------------------------------------------------
  // The merge that line 84 evidently intends

  /** Absorbs the ranges at the front of `t` that begin at or below `e`, each time keeping the
      larger end; yields the end reached and the ranges left over. */
  function Absorb(t: seq<Range>, e: u64): (r: (u64, seq<Range>))
    ensures e <= r.0 && |r.1| <= |t| && r.1 == t[|t| - |r.1|..]
    decreases |t|
  {
    if t != [] && t[0].begin <= e then
      Absorb(t[1..], if e < t[0].end then t[0].end else e)
    else (e, t)
  }

  /** `__balloc_add_range` with the successor merge keeping the larger end and repeated for as
      long as the next range begins at or below the new end. */
  function AddMerged(s: seq<Range>, from: u64, to: u64): seq<Range>
  {
    var i := InsertPos(s, from);
    var merged := i > 0 && from <= s[i-1].end;
    var keep := if merged then i - 1 else i;
    var b := if merged then s[i-1].begin else from;
    var e := if merged && to < s[i-1].end then s[i-1].end else to;
    s[..keep] + Merged(s[i..], b, e)
  }

  /** The range `[b, e)` widened by the ranges it absorbs from the front of `t`, followed by
      the ranges left over. */
  function Merged(t: seq<Range>, b: u64, e: u64): seq<Range>
  {
    [Range(b, Absorb(t, e).0)] + Absorb(t, e).1
  }

  /** A range below every range of a well-formed set and clear of the first one joins it. */
  lemma PrependRange(m: Range, t: seq<Range>)
    requires WellFormed(t) && m.begin < m.end && (t != [] ==> m.end < t[0].begin)
    ensures WellFormed([m] + t)
    ensures forall x :: Covers([m] + t, x) <==> Contains(m, x) || Covers(t, x)
  {
    var r := [m] + t;
    forall i, j | 0 <= i < j < |r| ensures r[i].end < r[j].begin {
      assert r[j] == t[j - 1];
      if i > 0 { assert r[i] == t[i - 1]; } else if j > 1 { assert t[0].end < t[j - 1].begin; }
    }
    CoversAppend([m], t);
    CoversOne(m);
  }

  /** Absorbing the first range of `t`, which begins within `[b, e]`, widens `[b, e)` to the
      larger end. */
  lemma AbsorbOne(t: seq<Range>, b: u64, e: u64, e1: u64)
    requires WellFormed(t) && t != [] && b <= t[0].begin <= e
    requires e1 == (if e < t[0].end then t[0].end else e)
    requires forall j :: 0 <= j < |t| ==> b <= t[j].begin
    ensures WellFormed(t[1..]) && forall j :: 0 <= j < |t[1..]| ==> b <= t[1..][j].begin
    ensures forall x :: (b <= x < e1 || Covers(t[1..], x)) <==> (b <= x < e || Covers(t, x))
  {
    WellFormedSlice(t, 1, |t|);
    forall j | 0 <= j < |t[1..]| ensures b <= t[1..][j].begin { assert t[1..][j] == t[j + 1]; }
    assert t == [t[0]] + t[1..];
    CoversAppend([t[0]], t[1..]);
    CoversOne(t[0]);
  }

  /** The merged range and what `Absorb` leaves form a well-formed set that covers `[b, e)`
      and every range of `t`. */
  lemma {:induction false} AbsorbFacts(t: seq<Range>, b: u64, e: u64)
    requires WellFormed(t) && b < e
    requires forall j :: 0 <= j < |t| ==> b <= t[j].begin
    ensures WellFormed(Merged(t, b, e))
    ensures forall x :: Covers(Merged(t, b, e), x) <==> b <= x < e || Covers(t, x)
    decreases |t|
  {
    if t != [] && t[0].begin <= e {
      var e1: u64 := if e < t[0].end then t[0].end else e;
      assert Absorb(t, e) == Absorb(t[1..], e1);
      AbsorbOne(t, b, e, e1);
      AbsorbFacts(t[1..], b, e1);
    } else {
      assert Absorb(t, e) == (e, t);
      PrependRange(Range(b, e), t);
    }
  }

  /** A well-formed set placed after the first `keep` ranges of `s`, beginning above the last
      of them, keeps the invariant. */
  lemma JoinPrefix(s: seq<Range>, keep: nat, m: seq<Range>)
    requires WellFormed(s) && WellFormed(m) && keep <= |s|
    requires keep > 0 && m != [] ==> s[keep-1].end < m[0].begin
    ensures WellFormed(s[..keep] + m)
  {
    WellFormedSlice(s, 0, keep);
    forall p, q | 0 <= p < keep && 0 <= q < |m| ensures s[..keep][p].end < m[q].begin {
      if p < keep - 1 { assert s[p].end < s[keep - 1].begin; }
      if q > 0 { assert m[0].end < m[q].begin; }
    }
    WellFormedJoin(s[..keep], m, []);
    assert s[..keep] + m + [] == s[..keep] + m;
  }

  /** The corrected add, given its insertion point and the range it links there. */
  lemma AddMergedIs(s: seq<Range>, from: u64, to: u64, i: nat, keep: nat, b: u64, e: u64)
    requires i == InsertPos(s, from)
    requires keep == (if i > 0 && from <= s[i-1].end then i - 1 else i)
    requires b == (if i > 0 && from <= s[i-1].end then s[i-1].begin else from)
    requires e == (if i > 0 && from <= s[i-1].end && to < s[i-1].end then s[i-1].end else to)
    ensures AddMerged(s, from, to) == s[..keep] + Merged(s[i..], b, e)
  {
  }

  /** The range the corrected add links before absorbing successors: `[from, to)` widened by
      the predecessor it reaches, which lies just below the insertion point `i`. */
  lemma AddMergedFront(s: seq<Range>, from: u64, to: u64) returns (keep: nat, i: nat, b: u64, e: u64)
    requires WellFormed(s) && from < to
    ensures i == InsertPos(s, from) && keep <= i <= |s| && b < e
    ensures keep == (if i > 0 && from <= s[i-1].end then i - 1 else i)
    ensures b == (if i > 0 && from <= s[i-1].end then s[i-1].begin else from)
    ensures e == (if i > 0 && from <= s[i-1].end && to < s[i-1].end then s[i-1].end else to)
    ensures keep > 0 ==> s[keep-1].end < b
    ensures forall j :: 0 <= j < |s[i..]| ==> b <= s[i..][j].begin
    ensures WellFormed(s[i..])
    ensures forall x :: Covers(s, x) <==> Covers(s[..keep], x) || Covers(s[keep..i], x) || Covers(s[i..], x)
    ensures forall x :: b <= x < e <==> Covers(s[keep..i], x) || from <= x < to
  {
    i := InsertPos(s, from);
    InsertPosFacts(s, from);
    var merged := i > 0 && from <= s[i-1].end;
    keep := if merged then i - 1 else i;
    b := if merged then s[i-1].begin else from;
    e := if merged && to < s[i-1].end then s[i-1].end else to;
    WellFormedSlice(s, i, |s|);
    forall j | 0 <= j < |s[i..]| ensures b <= s[i..][j].begin { assert s[i..][j] == s[i + j]; }
    CoversReplace(s, keep, [], i);
    if merged {
      assert keep == i - 1 && |s[keep..i]| == 1 && s[keep..i][0] == s[i-1];
      assert s[keep..i] == [s[i-1]];
      CoversOne(s[i-1]);
    } else {
      assert s[keep..i] == [];
    }
  }

  /** The corrected add keeps the interval-set invariant and leaves exactly the old union
      together with `[from, to)` for every non-empty range, overlapping or not. */
  lemma AddMergedUnion(s: seq<Range>, from: u64, to: u64)
    requires WellFormed(s) && from < to
    ensures WellFormed(AddMerged(s, from, to))
    ensures forall x :: Covers(AddMerged(s, from, to), x) <==> Covers(s, x) || from <= x < to
  {
    var keep, i, b, e := AddMergedFront(s, from, to);
    var m := Merged(s[i..], b, e);
    AddMergedIs(s, from, to, i, keep, b, e);
    AbsorbFacts(s[i..], b, e);
    JoinPrefix(s, keep, m);
    CoversAppend(s[..keep], m);
  }

  /** Where `[from, to)` overlaps nothing stored, the corrected add and the add as written
      leave the same ranges. */
  lemma AddMergedAgrees(s: seq<Range>, from: u64, to: u64)
    requires WellFormed(s) && from < to && NoOverlap(s, from, to)
    ensures AddMerged(s, from, to) == AddSpec(s, from, to)
  {
    AddMergedUnion(s, from, to);
    AddUnion(s, from, to);
    AddPreservesWellFormed(s, from, to);
    CoversDetermines(AddMerged(s, from, to), AddSpec(s, from, to));
  }
}
