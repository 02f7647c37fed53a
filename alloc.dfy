/** First-fit allocation from the free ranges (`__balloc_alloc`, `balloc_alloc`) and giving
    memory back (`balloc_free`), stated on the ordered interval sets of module `Ranges`. */
module Alloc {
  import opened Ranges

  datatype Option<T> = None | Some(value: T)

  /** What `__balloc_alloc` returns, together with the free ranges it leaves. */
  datatype Outcome = Outcome(addr: u64, ranges: seq<Range>)

  /** `n` is a power of two. */
  predicate IsPow2(n: int)
    ensures IsPow2(n) ==> n >= 1
  {
    n == 1 || (n > 1 && n % 2 == 0 && IsPow2(n / 2))
  }

  /** The alignment `balloc_alloc` picks for a request of `size` bytes: the smallest of 8, 16
      and 32 that holds it, and 64 for anything larger. */
  function AlignFor(size: u64): (align: u64)
    ensures IsPow2(align) && 8 <= align <= 64
    ensures size <= align || align == 64
    ensures align == 8 || align / 2 < size
  {
    if size <= 8 then 8 else if size <= 16 then 16 else if size <= 32 then 32 else 64
  }

  /** The address `__balloc_alloc` tries in node `p`: the larger of `p.begin` and `from`, rounded
      up to a multiple of `align` by adding `align - 1` and clearing the low bits, which for a
      power of two is rounding down to a multiple. */
  function Candidate(p: Range, align: u64, from: u64): u64
    requires IsPow2(align)
  {
    var t := Wrap(Max(p.begin, from) + align - 1);
    t - t % align
  }

  /** The test of line 146: the candidate block ends within both `p` and the window. */
  predicate Fits(p: Range, size: u64, align: u64, from: u64, to: u64)
    requires IsPow2(align)
  {
    Wrap(Candidate(p, align, from) + size) <= Min(p.end, to)
  }

  /** The walk of lines 139-157 from position `k` of `s`: the first node that begins below
      `to` and fits, unless the walk meets a node beginning at or above `to` first. */
  function FitIndex(s: seq<Range>, k: nat, size: u64, align: u64, from: u64, to: u64): (r: Option<nat>)
    requires k <= |s| && IsPow2(align)
    ensures r.Some? ==> k <= r.value < |s|
    decreases |s| - k
  {
    if k == |s| || to <= s[k].begin then None
    else if Fits(s[k], size, align, from, to) then Some(k)
    else FitIndex(s, k + 1, size, align, from, to)
  }

  /** The node the walk settles on begins below `to` and fits, and no node before it fits. */
  lemma {:induction false} FitIndexFound(s: seq<Range>, k: nat, size: u64, align: u64, from: u64, to: u64)
    requires k <= |s| && IsPow2(align) && FitIndex(s, k, size, align, from, to).Some?
    ensures var r := FitIndex(s, k, size, align, from, to).value;
      s[r].begin < to && Fits(s[r], size, align, from, to) &&
      forall j :: k <= j < r ==> !Fits(s[j], size, align, from, to)
    decreases |s| - k
  {
    if !Fits(s[k], size, align, from, to) {
      FitIndexFound(s, k + 1, size, align, from, to);
    }
  }

  /** A node that fits, with no node beginning at or above `to` before it, stops the walk at
      or before it. */
  lemma {:induction false} FitIndexReaches(s: seq<Range>, k: nat, size: u64, align: u64, from: u64, to: u64, j: nat)
    requires k <= j < |s| && IsPow2(align) && Fits(s[j], size, align, from, to)
    requires forall i :: k <= i <= j ==> s[i].begin < to
    ensures FitIndex(s, k, size, align, from, to).Some?
    ensures FitIndex(s, k, size, align, from, to).value <= j
    decreases |s| - k
  {
    if k < j && !Fits(s[k], size, align, from, to) {
      FitIndexReaches(s, k + 1, size, align, from, to, j);
    }
  }

  /** The node `__balloc_alloc` carves from, if any: its walk starts where the descent of
      lines 128-137 settles, at the first node ending above `from`. */
  function Found(s: seq<Range>, size: u64, align: u64, from: u64, to: u64): Option<nat>
    requires IsPow2(align)
  {
    FitIndex(s, FirstEndAbove(s, from), size, align, from, to)
  }

  /** `__balloc_alloc`: on a fit, carve the block out of its node (lines 147-151) and return its
      address; otherwise return `to` and leave the ranges alone. */
  function AllocSpec(s: seq<Range>, size: u64, align: u64, from: u64, to: u64): Outcome
    requires IsPow2(align)
  {
    match Found(s, size, align, from, to)
    case None => Outcome(to, s)
    case Some(k) =>
      var a := Candidate(s[k], align, from);
      Outcome(a, CarveOut(s, k, a, Wrap(a + size)))
  }

  /** `balloc_alloc`: `__balloc_alloc` with the alignment chosen from the size. */
  function BallocAlloc(s: seq<Range>, size: u64, from: u64, to: u64): Outcome
  {
    AllocSpec(s, size, AlignFor(size), from, to)
  }

  /** Free pool nodes `__balloc_alloc` takes while carving: one per re-add. */
  function AllocNeed(s: seq<Range>, size: u64, align: u64, from: u64, to: u64): (n: nat)
    requires IsPow2(align)
    ensures n <= 2
  {
    match Found(s, size, align, from, to)
    case None => 0
    case Some(k) =>
      var a := Candidate(s[k], align, from);
      CarveAdds(s[k], a, Wrap(a + size))
  }

  // ---------------------------------------------------------------------------------------
  // Properties, for free ranges that lie low enough that the 64-bit sums do not wrap

  /** Every free range ends at least `align + size` below 2^64. */
  predicate NoWrap(s: seq<Range>, size: int, align: int) {
    forall j :: 0 <= j < |s| ==> s[j].end + align + size <= ADDR_LIMIT
  }

  /** `x` is an `align`-aligned address inside the window whose `size` bytes are all free. */
  ghost predicate FreeBlock(s: seq<Range>, x: int, size: int, align: int, from: int, to: int)
    requires align >= 1
  {
    x % align == 0 && from <= x && x + size <= to && forall y :: x <= y < x + size ==> Covers(s, y)
  }

  lemma MulAtLeast(a: nat, d: int)
    requires d >= 1
    ensures a * d >= a
  {
    assert a * d - a == a * (d - 1);
  }

  lemma MulSub(a: int, p: int, q: int)
    ensures a * p - a * q == a * (p - q)
  {
  }

  /** A multiple of `a` leaves no remainder. */
  lemma MultipleMod(a: int, q: int)
    requires a >= 1
    ensures (a * q) % a == 0
  {
    var y := a * q;
    var q2 := y / a;
    var r := y % a;
    assert y == a * q2 + r;
    MulSub(a, q, q2);
    if q - q2 >= 1 {
      MulAtLeast(a, q - q2);
    } else if q - q2 <= -1 {
      MulAtLeast(a, q2 - q);
      MulSub(a, q2, q);
    }
  }

  /** Distinct multiples of `a` lie at least `a` apart. */
  lemma MultiplesApart(a: int, x: int, c: int)
    requires a >= 1 && x % a == 0 && c % a == 0 && x < c
    ensures x <= c - a
  {
    var qx := x / a;
    var qc := c / a;
    assert x == a * qx;
    assert c == a * qc;
    MulSub(a, qc, qx);
    if qc - qx < 1 {
      MulAtLeast(a, qx - qc + 1);
      MulSub(a, qx + 1, qc);
    }
    MulAtLeast(a, qc - qx);
  }

  /** Clearing the remainder rounds `t` down to the largest multiple of `a` not above it. */
  lemma RoundDown(t: int, a: int)
    requires a >= 1
    ensures (t - t % a) % a == 0 && t - a < t - t % a <= t
    ensures forall x :: x % a == 0 && t - a < x ==> t - t % a <= x
  {
    var c := t - t % a;
    assert c == a * (t / a);
    MultipleMod(a, t / a);
    forall x | x % a == 0 && t - a < x ensures c <= x {
      if x < c {
        MultiplesApart(a, x, c);
      }
    }
  }

  /** Without wrap-around the candidate is the least multiple of `align` at or above
      `max(p.begin, from)`. */
  lemma CandidateFacts(p: Range, align: u64, from: u64)
    requires IsPow2(align) && Max(p.begin, from) + align <= ADDR_LIMIT
    ensures Candidate(p, align, from) % align == 0
    ensures Max(p.begin, from) <= Candidate(p, align, from) < Max(p.begin, from) + align
    ensures forall x :: x % align == 0 && Max(p.begin, from) <= x ==> Candidate(p, align, from) <= x
  {
    var b := Max(p.begin, from);
    var t := b + align - 1;
    assert Wrap(t) == t;
    assert Candidate(p, align, from) == t - t % align;
    RoundDown(t, align);
  }

  /** Any two free bytes with nothing but free bytes between them lie in one range. */
  lemma BlockInOneRange(s: seq<Range>, x: int, size: int) returns (j: nat)
    requires WellFormed(s) && size > 0
    requires forall y :: x <= y < x + size ==> Covers(s, y)
    ensures j < |s| && s[j].begin <= x && x + size <= s[j].end
  {
    assert Covers(s, x);
    j :| 0 <= j < |s| && Contains(s[j], x);
    EndUncovered(s, j);
  }

  /** The found node's candidate lies in that node and in the window, and is aligned. */
  lemma FoundAt(s: seq<Range>, size: u64, align: u64, from: u64, to: u64) returns (k: nat, a: u64)
    requires WellFormed(s) && IsPow2(align) && NoWrap(s, size, align)
    requires Found(s, size, align, from, to).Some?
    ensures k == Found(s, size, align, from, to).value && k < |s| && a == Candidate(s[k], align, from)
    ensures s[k].begin <= a && a + size <= s[k].end && a + size <= to && Wrap(a + size) == a + size
    ensures a % align == 0 && from <= a
  {
    k := Found(s, size, align, from, to).value;
    a := Candidate(s[k], align, from);
    FitIndexFound(s, FirstEndAbove(s, from), size, align, from, to);
    FirstEndAboveFacts(s, from);
    assert from < s[k].end;
    CandidateFacts(s[k], align, from);
  }

  /** The found node's candidate is a free aligned block in the window, lying in that node. */
  lemma FoundIsFree(s: seq<Range>, size: u64, align: u64, from: u64, to: u64) returns (k: nat, a: u64)
    requires WellFormed(s) && IsPow2(align) && NoWrap(s, size, align)
    requires Found(s, size, align, from, to).Some?
    ensures k == Found(s, size, align, from, to).value && k < |s| && a == Candidate(s[k], align, from)
    ensures s[k].begin <= a && a + size <= s[k].end && a + size <= to && Wrap(a + size) == a + size
    ensures FreeBlock(s, a, size, align, from, to)
  {
    k, a := FoundAt(s, size, align, from, to);
    forall y | a <= y < a + size ensures Covers(s, y) {
      assert Contains(s[k], y);
    }
  }

  /** A successful search's outcome, named by the node found and its candidate. */
  lemma AllocUnfolds(s: seq<Range>, size: u64, align: u64, from: u64, to: u64, k: nat, a: u64, h: u64)
    requires IsPow2(align) && Found(s, size, align, from, to) == Some(k) && k < |s|
    requires a == Candidate(s[k], align, from) && h == Wrap(a + size)
    ensures AllocSpec(s, size, align, from, to) == Outcome(a, CarveOut(s, k, a, h))
  {
    match Found(s, size, align, from, to)
    case Some(j) =>
      assert j == k;
  }

  /** A successful `__balloc_alloc` returns the found node's aligned candidate and replaces that
      node by its parts below and above `[addr, addr+size)`, leaving every other node where it
      was. */
  lemma AllocShape(s: seq<Range>, size: u64, align: u64, from: u64, to: u64) returns (k: nat, a: u64)
    requires WellFormed(s) && IsPow2(align) && NoWrap(s, size, align)
    requires Found(s, size, align, from, to).Some?
    ensures k == Found(s, size, align, from, to).value && k < |s| && a == Candidate(s[k], align, from)
    ensures s[k].begin <= a && a + size <= s[k].end && a + size <= to
    ensures AllocSpec(s, size, align, from, to) == Outcome(a, s[..k] + Remnants(s[k], a, a + size) + s[k+1..])
  {
    k, a := FoundAt(s, size, align, from, to);
    var h: u64 := a + size;
    var c := CarveOut(s, k, a, h);
    assert AllocSpec(s, size, align, from, to) == Outcome(a, c) by {
      AllocUnfolds(s, size, align, from, to, k, a, h);
    }
    assert c == s[..k] + Remnants(s[k], a, h) + s[k+1..] by {
      CarveOutShape(s, k, a, h);
    }
  }

  /** On success `__balloc_alloc` returns an aligned block inside the window that was free, and
      leaves well-formed free ranges covering exactly the old ones minus that block. */
  lemma AllocSucceeds(s: seq<Range>, size: u64, align: u64, from: u64, to: u64)
    requires WellFormed(s) && IsPow2(align) && NoWrap(s, size, align)
    requires Found(s, size, align, from, to).Some?
    ensures var o := AllocSpec(s, size, align, from, to);
      && FreeBlock(s, o.addr, size, align, from, to)
      && (size > 0 ==> o.addr < to)
      && WellFormed(o.ranges) && Clear(o.ranges, o.addr, o.addr + size)
      && forall x :: Covers(o.ranges, x) <==> Covers(s, x) && !(o.addr <= x < o.addr + size)
  {
    var k, a := FoundIsFree(s, size, align, from, to);
    var h := Wrap(a + size);
    AllocUnfolds(s, size, align, from, to, k, a, h);
    CarveFacts(s, k, a, h);
  }

  /** Every free aligned block in the window makes some node fit no later than its own. */
  lemma FreeBlockFits(s: seq<Range>, x: int, size: u64, align: u64, from: u64, to: u64) returns (j: nat)
    requires WellFormed(s) && IsPow2(align) && NoWrap(s, size, align) && size > 0
    requires FreeBlock(s, x, size, align, from, to)
    ensures FirstEndAbove(s, from) <= j < |s| && s[j].begin <= x && s[j].begin < to
    ensures Fits(s[j], size, align, from, to)
    ensures Candidate(s[j], align, from) <= x
  {
    j := BlockInOneRange(s, x, size);
    FirstEndAboveFacts(s, from);
    CandidateFacts(s[j], align, from);
    var c := Candidate(s[j], align, from);
    assert Wrap(c + size) == c + size;
  }

  /** In a well-formed set every node up to one beginning below `to` begins below `to`. */
  lemma BeginsBelow(s: seq<Range>, start: nat, j: nat, to: int)
    requires WellFormed(s) && start <= j < |s| && s[j].begin < to
    ensures forall i :: start <= i <= j ==> s[i].begin < to
  {
    forall i | start <= i < j ensures s[i].begin < to {
      assert s[i].end < s[j].begin;
    }
  }

  /** `__balloc_alloc` fails only when no free aligned block of `size` bytes lies in the window;
      when it succeeds, no free aligned block lies below the one it returns (first fit). */
  lemma AllocFirstFit(s: seq<Range>, x: int, size: u64, align: u64, from: u64, to: u64)
    requires WellFormed(s) && IsPow2(align) && NoWrap(s, size, align) && size > 0
    requires FreeBlock(s, x, size, align, from, to)
    ensures Found(s, size, align, from, to).Some?
    ensures AllocSpec(s, size, align, from, to).addr <= x
  {
    var j := FreeBlockFits(s, x, size, align, from, to);
    var start := FirstEndAbove(s, from);
    BeginsBelow(s, start, j, to);
    FitIndexReaches(s, start, size, align, from, to, j);
    var k, a := FoundAt(s, size, align, from, to);
    AllocUnfolds(s, size, align, from, to, k, a, Wrap(a + size));
    if k < j {
      assert s[k].end < s[j].begin;
    } else {
      assert k == j;
    }
    assert a <= x;
  }

  /** A failed `__balloc_alloc` returns `to` and changes nothing; for a non-empty request no
      free aligned block of that size lies in the window, and a successful one never returns
      `to`, so the caller can tell the two apart. */
  lemma AllocFails(s: seq<Range>, size: u64, align: u64, from: u64, to: u64)
    requires WellFormed(s) && IsPow2(align) && NoWrap(s, size, align) && size > 0
    ensures Found(s, size, align, from, to).None? <==> AllocSpec(s, size, align, from, to).addr == to
    ensures Found(s, size, align, from, to).None? ==>
      AllocSpec(s, size, align, from, to) == Outcome(to, s) &&
      forall x :: !FreeBlock(s, x, size, align, from, to)
  {
    if Found(s, size, align, from, to).Some? {
      AllocSucceeds(s, size, align, from, to);
    } else {
      forall x | FreeBlock(s, x, size, align, from, to) ensures false {
        AllocFirstFit(s, x, size, align, from, to);
      }
    }
  }

  /** Giving an allocated block back with `balloc_free` restores the free memory: adding a
      block that was free in `s` to what `s` became without it (the ranges `AllocSucceeds`
      describes) brings back exactly `s`'s coverage. */
  lemma RestoreBlock(s: seq<Range>, r: seq<Range>, lo: u64, hi: u64)
    requires WellFormed(r) && lo < hi && Clear(r, lo, hi)
    requires forall x :: Covers(r, x) <==> Covers(s, x) && !(lo <= x < hi)
    requires forall x :: lo <= x < hi ==> Covers(s, x)
    ensures WellFormed(AddSpec(r, lo, hi))
    ensures forall x :: Covers(AddSpec(r, lo, hi), x) <==> Covers(s, x)
  {
    ClearNoOverlap(r, lo, hi);
    AddPreservesWellFormed(r, lo, hi);
    AddUnion(r, lo, hi);
  }

  /** Freeing the block a successful `__balloc_alloc` returned with `balloc_free` gives back
      exactly the free ranges the allocation started from. */
  lemma AllocThenFree(s: seq<Range>, size: u64, align: u64, from: u64, to: u64) returns (addr: u64, r: seq<Range>)
    requires WellFormed(s) && IsPow2(align) && NoWrap(s, size, align) && size > 0
    requires Found(s, size, align, from, to).Some?
    ensures AllocSpec(s, size, align, from, to) == Outcome(addr, r) && addr + size <= to
    ensures AddSpec(r, addr, addr + size) == s
  {
    var k;
    k, addr := FoundAt(s, size, align, from, to);
    var hi: u64 := addr + size;
    AllocUnfolds(s, size, align, from, to, k, addr, hi);
    r := CarveOut(s, k, addr, hi);
    CarveThenAdd(s, k, addr, hi);
  }

  /** Carving `[lo, hi)` out of the node holding it and adding it back gives back the set. */
  lemma CarveThenAdd(s: seq<Range>, k: nat, lo: u64, hi: u64)
    requires WellFormed(s) && k < |s| && s[k].begin <= lo < hi <= s[k].end
    ensures AddSpec(CarveOut(s, k, lo, hi), lo, hi) == s
  {
    CarveFacts(s, k, lo, hi);
    FreeRestores(s, CarveOut(s, k, lo, hi), lo, hi);
  }

  /** Adding back a block that was carved out of a well-formed set gives back that set. */
  lemma FreeRestores(s: seq<Range>, r: seq<Range>, lo: u64, hi: u64)
    requires WellFormed(s) && WellFormed(r) && lo < hi && Clear(r, lo, hi)
    requires forall x :: Covers(r, x) <==> Covers(s, x) && !(lo <= x < hi)
    requires forall x :: lo <= x < hi ==> Covers(s, x)
    ensures AddSpec(r, lo, hi) == s
  {
    RestoreBlock(s, r, lo, hi);
    CoversDetermines(AddSpec(r, lo, hi), s);
  }

  /** Small requests are packed at their natural alignment: 10 bytes from `[0x1008, 0x2000)`
      come from 0x1010, and the bytes skipped for alignment stay free. */
  lemma AllocAlignsExample()
    ensures BallocAlloc([Range(0x1008, 0x2000)], 10, 0, 0x3000) ==
      Outcome(0x1010, [Range(0x1008, 0x1010), Range(0x101a, 0x2000)])
  {
    var s := [Range(0x1008, 0x2000)];
    assert FirstEndAbove(s, 0) == 0;
    assert Candidate(s[0], 16, 0) == 0x1010;
    assert Found(s, 10, 16, 0, 0x3000) == Some(0);
    AllocUnfolds(s, 10, 16, 0, 0x3000, 0, 0x1010, 0x101a);
    CarveOutShape(s, 0, 0x1010, 0x101a);
    assert Remnants(s[0], 0x1010, 0x101a) == [Range(0x1008, 0x1010), Range(0x101a, 0x2000)];
  }

  /** The first aligned fit at the bottom of a free range: 10 bytes at 16-byte alignment from
      `[0x1000, 0x2000)` come from 0x1000 and leave `[0x100a, 0x2000)`. */
  lemma AllocFromStartExample()
    ensures BallocAlloc([Range(0x1000, 0x2000)], 10, 0, 0x3000) == Outcome(0x1000, [Range(0x100a, 0x2000)])
  {
    var s := [Range(0x1000, 0x2000)];
    assert FirstEndAbove(s, 0) == 0;
    assert Candidate(s[0], 16, 0) == 0x1000;
    assert Found(s, 10, 16, 0, 0x3000) == Some(0);
    AllocUnfolds(s, 10, 16, 0, 0x3000, 0, 0x1000, 0x100a);
    CarveOutShape(s, 0, 0x1000, 0x100a);
    assert Remnants(s[0], 0x1000, 0x100a) == [Range(0x100a, 0x2000)];
  }

  /** A request larger than any free range fails with `to` and leaves the ranges alone. */
  lemma AllocTooLargeExample()
    ensures BallocAlloc([Range(0, 100)], 200, 0, 1000) == Outcome(1000, [Range(0, 100)])
  {
    var s := [Range(0, 100)];
    assert FirstEndAbove(s, 0) == 0;
    assert !Fits(s[0], 200, 64, 0, 1000);
  }

  /** A request that fits at the aligned start of the only free range is carved from its
      bottom. */
  lemma AllocAtStart(b: u64, e: u64, size: u64, align: u64, from: u64, to: u64)
    requires IsPow2(align) && b % align == 0 && from <= b && b + size < e <= to
    requires e + align + size <= ADDR_LIMIT
    ensures AllocSpec([Range(b, e)], size, align, from, to) == Outcome(b, [Range(b + size, e)])
  {
    var s := [Range(b, e)];
    assert FirstEndAbove(s, from) == 0;
    CandidateFacts(s[0], align, from);
    var k, a := AllocShape(s, size, align, from, to);
    assert a == b;
    assert Remnants(s[0], b, b + size) == [Range(b + size, e)];
  }

  /** A request larger than the only free range fails. */
  lemma AllocTooBig(b: u64, e: u64, size: u64, align: u64, from: u64, to: u64)
    requires IsPow2(align) && from <= b < e && e - b < size
    requires e + align + size <= ADDR_LIMIT
    ensures AllocSpec([Range(b, e)], size, align, from, to) == Outcome(to, [Range(b, e)])
  {
    var s := [Range(b, e)];
    assert FirstEndAbove(s, from) == 0;
    CandidateFacts(s[0], align, from);
    assert !Fits(s[0], size, align, from, to);
    assert FitIndex(s, 1, size, align, from, to) == None;
  }

  /** `AllocSmallExample` with the free ranges passed in. */
  lemma AllocSmallAt(s: seq<Range>)
    requires s == [Range(0, 100)]
    ensures AllocSpec(s, 10, AlignFor(10), 0, 100) == Outcome(0, [Range(10, 100)])
  {
    AllocAtStart(0, 100, 10, AlignFor(10), 0, 100);
  }

  /** 10 bytes at 16-byte alignment from `{[0,100)}` come from address 0 and leave `{[10,100)}`. */
  lemma AllocSmallExample()
    ensures AllocSpec([Range(0, 100)], 10, 16, 0, 100) == Outcome(0, [Range(10, 100)])
  {
    assert AlignFor(10) == 16;
    AllocSmallAt([Range(0, 100)]);
  }

  /** 200 bytes do not fit in `{[0,100)}`: the search returns `to`, here 100, and changes
      nothing. */
  lemma AllocFailsExample()
    ensures AllocSpec([Range(0, 100)], 200, 1, 0, 100) == Outcome(100, [Range(0, 100)])
  {
    AllocTooBig(0, 100, 200, 1, 0, 100);
  }
}
