/** What `balloc_parse_mmap` does to the two trees at boot, stated as the sequence of tree
    operations it performs and the ordered interval sets those operations leave. */
module Boot {
  import opened Ranges

  /** `BALLOC_MAX_RANGES`: the number of nodes in the static pool. */
  const MAX_RANGES: nat := 128

  /** The multiboot memory-map type of usable RAM. */
  const AVAILABLE: int := 1

  type u32 = x: int | 0 <= x < 0x1_0000_0000

  /** One decoded multiboot memory-map entry: `length` bytes at `addr`, of type `kind`. */
  datatype MmapEntry = MmapEntry(addr: u64, length: u64, kind: u32)

  /** `rbegin + entry->length`, an `unsigned long long` sum. */
  function EntryEnd(e: MmapEntry): u64 { Wrap(e.addr + e.length) }

  datatype TreeId = MemoryMap | FreeRanges

  /** A call of `__balloc_add_range` on one of the trees, or of `__balloc_remove_range` on
      `free_ranges` (the only tree anything is removed from). */
  datatype Op = Add(tree: TreeId, from: u64, to: u64) | Remove(from: u64, to: u64)

  /** No operation of `ops` covers address `x`. */
  predicate Misses(ops: seq<Op>, x: int) {
    forall i :: 0 <= i < |ops| ==> !(ops[i].from <= x < ops[i].to)
  }

  /** The ranges of `memory_map` (the known memory) and of `free_ranges`. */
  datatype Trees = Trees(known: seq<Range>, free: seq<Range>)

  function Apply(t: Trees, op: Op): Trees {
    match op
    case Add(MemoryMap, from, to) => t.(known := AddSpec(t.known, from, to))
    case Add(FreeRanges, from, to) => t.(free := AddSpec(t.free, from, to))
    case Remove(from, to) => t.(free := RemoveSpec(t.free, from, to))
  }

  /** The trees after the operations `ops`, in order. */
  function Run(t: Trees, ops: seq<Op>): Trees
    decreases |ops|
  {
    if ops == [] then t else Run(Apply(t, ops[0]), ops[1..])
  }

  /** The first loop of `balloc_parse_mmap`: every entry goes into `memory_map` and then into
      `free_ranges`. */
  function EntryAdds(es: seq<MmapEntry>): (ops: seq<Op>)
    ensures |ops| == 2 * |es|
  {
    if es == [] then []
    else
      [Add(MemoryMap, es[0].addr, EntryEnd(es[0])), Add(FreeRanges, es[0].addr, EntryEnd(es[0]))] +
      EntryAdds(es[1..])
  }

  /** The second loop: every entry whose type is not `AVAILABLE` comes out of `free_ranges`. */
  function ReservedRemoves(es: seq<MmapEntry>): (ops: seq<Op>)
    ensures |ops| <= |es|
  {
    if es == [] then []
    else
      (if es[0].kind != AVAILABLE then [Remove(es[0].addr, EntryEnd(es[0]))] else []) +
      ReservedRemoves(es[1..])
  }

  /** The kernel image `[text_phys_begin, bss_phys_end)` goes into both trees. */
  function KernelAdds(kernel: Range): seq<Op> {
    [Add(MemoryMap, kernel.begin, kernel.end), Add(FreeRanges, kernel.begin, kernel.end)]
  }

  /** The initrd module and then the kernel image come out of `free_ranges`. */
  function FinalRemoves(kernel: Range, initrd: Range): seq<Op> {
    [Remove(initrd.begin, initrd.end), Remove(kernel.begin, kernel.end)]
  }

  /** Every tree operation `balloc_parse_mmap` performs, in its order. */
  function ParseOps(es: seq<MmapEntry>, kernel: Range, initrd: Range): seq<Op> {
    EntryAdds(es) + KernelAdds(kernel) + ReservedRemoves(es) + FinalRemoves(kernel, initrd)
  }

  /** The trees `balloc_parse_mmap` leaves, starting from `t`. */
  function ParseMmap(t: Trees, es: seq<MmapEntry>, kernel: Range, initrd: Range): Trees {
    Run(t, ParseOps(es, kernel, initrd))
  }

  // ---------------------------------------------------------------------------------------
  // The node pool

  /** Pool nodes not linked into either tree. */
  function Spare(t: Trees): int { MAX_RANGES - |t.known| - |t.free| }

  /** The free pool nodes an operation takes before it gives any back. */
  function Need(t: Trees, op: Op): int {
    match op
    case Add(_, _, _) => 1
    case Remove(from, to) => RemoveNeed(t.free, from, to)
  }

  /** Running `ops` from `t` never finds the pool empty (`balloc_alloc_node` never halts). */
  predicate PoolSuffices(t: Trees, ops: seq<Op>)
    decreases |ops|
  {
    ops == [] || (Need(t, ops[0]) <= Spare(t) && PoolSuffices(Apply(t, ops[0]), ops[1..]))
  }

  // ---------------------------------------------------------------------------------------
  // Properties of the parse

  /** Every entry is non-empty and ends below 2^64, so that its end does not wrap. */
  predicate SaneEntries(es: seq<MmapEntry>) {
    forall i :: 0 <= i < |es| ==> 0 < es[i].length && es[i].addr + es[i].length < ADDR_LIMIT
  }

  /** A sane entry ends above its address. */
  lemma SaneEntry(es: seq<MmapEntry>, i: nat)
    requires SaneEntries(es) && i < |es|
    ensures es[i].addr < EntryEnd(es[i])
  {
  }

  /** `x` lies in some entry of the map. */
  ghost predicate InEntries(es: seq<MmapEntry>, x: int) {
    exists i :: 0 <= i < |es| && es[i].addr <= x < EntryEnd(es[i])
  }

  /** `x` lies in some entry of the map whose type is not `AVAILABLE`. */
  ghost predicate InReserved(es: seq<MmapEntry>, x: int) {
    exists i :: 0 <= i < |es| && es[i].kind != AVAILABLE && es[i].addr <= x < EntryEnd(es[i])
  }

  /** `x` lies in some entry of the map whose type is `AVAILABLE`. */
  ghost predicate InAvailable(es: seq<MmapEntry>, x: int) {
    exists i :: 0 <= i < |es| && es[i].kind == AVAILABLE && es[i].addr <= x < EntryEnd(es[i])
  }

  /** Running `a` and then `b` is running `a + b`. */
  lemma {:induction false} RunAppend(t: Trees, a: seq<Op>, b: seq<Op>)
    ensures Run(t, a + b) == Run(Run(t, a), b)
    decreases |a|
  {
    if a == [] {
      assert a + b == b;
    } else {
      assert (a + b)[0] == a[0] && (a + b)[1..] == a[1..] + b;
      RunAppend(Apply(t, a[0]), a[1..], b);
    }
  }

  /** Two operations in front of the rest run one after the other. */
  lemma RunPair(t: Trees, p: Op, q: Op, rest: seq<Op>)
    ensures Run(t, [p, q] + rest) == Run(Apply(Apply(t, p), q), rest)
  {
    var ops := [p, q] + rest;
    assert ops[0] == p && ops[1..] == [q] + rest;
    assert ([q] + rest)[0] == q && ([q] + rest)[1..] == rest;
  }

  /** The first loop's operations for the entries from `i` on: those of entry `i`, then the
      rest. */
  lemma EntryAddsStep(es: seq<MmapEntry>, i: nat, tail: seq<Op>)
    requires i < |es|
    ensures EntryAdds(es[i..]) + tail ==
      [Add(MemoryMap, es[i].addr, EntryEnd(es[i]))] +
      ([Add(FreeRanges, es[i].addr, EntryEnd(es[i]))] + (EntryAdds(es[i+1..]) + tail))
  {
    assert es[i..][0] == es[i] && es[i..][1..] == es[i+1..];
  }

  /** The second loop's operations for the entries from `i` on: the removal of entry `i` when
      it is reserved, then the rest. */
  lemma ReservedRemovesStep(es: seq<MmapEntry>, i: nat, tail: seq<Op>)
    requires i < |es|
    ensures ReservedRemoves(es[i..]) + tail ==
      (if es[i].kind != AVAILABLE then [Remove(es[i].addr, EntryEnd(es[i]))] else []) +
      (ReservedRemoves(es[i+1..]) + tail)
  {
    assert es[i..][0] == es[i] && es[i..][1..] == es[i+1..];
  }

  /** Adding one range to both trees when they are equal keeps them equal and well-formed, and
      covers nothing outside the old ranges and the new one. */
  lemma AddBoth(t: Trees, from: u64, to: u64)
    requires t.known == t.free && WellFormed(t.known) && from < to
    ensures var t' := Apply(Apply(t, Add(MemoryMap, from, to)), Add(FreeRanges, from, to));
      t'.known == t'.free && WellFormed(t'.known) &&
      forall x :: Covers(t'.known, x) ==> Covers(t.known, x) || from <= x < to
  {
    AddPreservesWellFormed(t.known, from, to);
    AddCoversWithin(t.known, from, to);
  }

  lemma SaneTail(es: seq<MmapEntry>)
    requires SaneEntries(es) && es != []
    ensures SaneEntries(es[1..])
  {
    forall i | 0 <= i < |es[1..]| ensures 0 < es[1..][i].length && es[1..][i].addr + es[1..][i].length < ADDR_LIMIT {
      assert es[1..][i] == es[i + 1];
    }
  }

  lemma InEntriesCons(es: seq<MmapEntry>, x: int)
    requires es != []
    ensures InEntries(es, x) <==> es[0].addr <= x < EntryEnd(es[0]) || InEntries(es[1..], x)
  {
    if InEntries(es[1..], x) {
      var i :| 0 <= i < |es[1..]| && es[1..][i].addr <= x < EntryEnd(es[1..][i]);
      assert es[i + 1] == es[1..][i];
    }
    if InEntries(es, x) {
      var i :| 0 <= i < |es| && es[i].addr <= x < EntryEnd(es[i]);
      if i > 0 { assert es[1..][i - 1] == es[i]; }
    }
  }

  /** The first loop keeps the two trees equal and well-formed, and covers nothing that is
      not in some entry. */
  lemma {:induction false} EntryAddsFacts(t: Trees, es: seq<MmapEntry>)
    requires t.known == t.free && WellFormed(t.known) && SaneEntries(es)
    ensures Run(t, EntryAdds(es)).known == Run(t, EntryAdds(es)).free
    ensures WellFormed(Run(t, EntryAdds(es)).known)
    ensures forall x :: Covers(Run(t, EntryAdds(es)).known, x) ==> Covers(t.known, x) || InEntries(es, x)
    decreases |es|
  {
    if es != [] {
      var e := es[0];
      var p, q := Add(MemoryMap, e.addr, EntryEnd(e)), Add(FreeRanges, e.addr, EntryEnd(e));
      var t1 := Apply(Apply(t, p), q);
      assert EntryAdds(es) == [p, q] + EntryAdds(es[1..]);
      RunPair(t, p, q, EntryAdds(es[1..]));
      AddBoth(t, e.addr, EntryEnd(e));
      SaneTail(es);
      EntryAddsFacts(t1, es[1..]);
      forall x | Covers(Run(t1, EntryAdds(es[1..])).known, x) ensures Covers(t.known, x) || InEntries(es, x) {
        InEntriesCons(es, x);
      }
    }
  }

  /** Removals touch only `free_ranges`, keep it well-formed, and leave exactly what it covered
      outside every removed range. */
  lemma {:induction false} RemovesFacts(t: Trees, ops: seq<Op>)
    requires WellFormed(t.free)
    requires forall i :: 0 <= i < |ops| ==> ops[i].Remove? && ops[i].from <= ops[i].to
    ensures Run(t, ops).known == t.known && WellFormed(Run(t, ops).free)
    ensures forall x :: Covers(Run(t, ops).free, x) <==> Covers(t.free, x) && Misses(ops, x)
    decreases |ops|
  {
    if ops != [] {
      var op := ops[0];
      RemoveFacts(t.free, op.from, op.to);
      var t1 := Apply(t, op);
      RemovesFacts(t1, ops[1..]);
      forall x ensures Covers(Run(t, ops).free, x) <==> Covers(t.free, x) && Misses(ops, x)
      {
        if Covers(t.free, x) && !(op.from <= x < op.to) && Misses(ops[1..], x) {
          forall i | 0 <= i < |ops| ensures !(ops[i].from <= x < ops[i].to) {
            if i > 0 { assert ops[i] == ops[1..][i - 1]; }
          }
        }
        if exists i :: 0 <= i < |ops[1..]| && ops[1..][i].from <= x < ops[1..][i].to {
          var i :| 0 <= i < |ops[1..]| && ops[1..][i].from <= x < ops[1..][i].to;
          assert ops[i + 1] == ops[1..][i];
        }
      }
    }
  }

  /** Every operation of the second loop is a removal of a sane range. */
  lemma {:induction false} ReservedRemovesAreRemoves(es: seq<MmapEntry>)
    requires SaneEntries(es)
    ensures forall i :: 0 <= i < |ReservedRemoves(es)| ==>
      ReservedRemoves(es)[i].Remove? && ReservedRemoves(es)[i].from <= ReservedRemoves(es)[i].to
    decreases |es|
  {
    if es != [] {
      SaneTail(es);
      ReservedRemovesAreRemoves(es[1..]);
      var h: seq<Op> := if es[0].kind != AVAILABLE then [Remove(es[0].addr, EntryEnd(es[0]))] else [];
      var tl := ReservedRemoves(es[1..]);
      var ops := ReservedRemoves(es);
      assert ops == h + tl;
      forall i | 0 <= i < |ops| ensures ops[i].Remove? && ops[i].from <= ops[i].to {
        if i >= |h| { assert ops[i] == tl[i - |h|]; }
      }
    }
  }

  /** Every byte of a reserved entry is removed by the second loop. */
  lemma {:induction false} ReservedRemoved(es: seq<MmapEntry>, x: int)
    requires InReserved(es, x)
    ensures !Misses(ReservedRemoves(es), x)
    decreases |es|
  {
    var e := es[0];
    var h: seq<Op> := if e.kind != AVAILABLE then [Remove(e.addr, EntryEnd(e))] else [];
    var tl := ReservedRemoves(es[1..]);
    var ops := ReservedRemoves(es);
    assert ops == h + tl;
    var j :| 0 <= j < |es| && es[j].kind != AVAILABLE && es[j].addr <= x < EntryEnd(es[j]);
    if j == 0 {
      assert ops[0] == Remove(e.addr, EntryEnd(e));
    } else {
      assert es[1..][j - 1] == es[j];
      ReservedRemoved(es[1..], x);
      var i :| 0 <= i < |tl| && tl[i].from <= x < tl[i].to;
      assert ops[i + |h|] == tl[i];
    }
  }

  /** The second loop removes nothing outside the reserved entries. */
  lemma {:induction false} RemovedReserved(es: seq<MmapEntry>, x: int)
    requires !Misses(ReservedRemoves(es), x)
    ensures InReserved(es, x)
    decreases |es|
  {
    var e := es[0];
    var h: seq<Op> := if e.kind != AVAILABLE then [Remove(e.addr, EntryEnd(e))] else [];
    var tl := ReservedRemoves(es[1..]);
    var ops := ReservedRemoves(es);
    assert ops == h + tl;
    var i :| 0 <= i < |ops| && ops[i].from <= x < ops[i].to;
    if i < |h| {
      assert es[0].kind != AVAILABLE && es[0].addr <= x < EntryEnd(es[0]);
    } else {
      assert tl[i - |h|] == ops[i];
      RemovedReserved(es[1..], x);
      var j :| 0 <= j < |es[1..]| && es[1..][j].kind != AVAILABLE && es[1..][j].addr <= x < EntryEnd(es[1..][j]);
      assert es[j + 1] == es[1..][j];
    }
  }

  /** Every operation of the second loop removes a reserved entry, and every byte of a
      reserved entry is removed by one of them. */
  lemma ReservedRemovesFacts(es: seq<MmapEntry>)
    requires SaneEntries(es)
    ensures forall i :: 0 <= i < |ReservedRemoves(es)| ==>
      ReservedRemoves(es)[i].Remove? && ReservedRemoves(es)[i].from <= ReservedRemoves(es)[i].to
    ensures forall x :: InReserved(es, x) <==> !Misses(ReservedRemoves(es), x)
  {
    ReservedRemovesAreRemoves(es);
    forall x ensures InReserved(es, x) <==> !Misses(ReservedRemoves(es), x) {
      if InReserved(es, x) { ReservedRemoved(es, x); }
      if !Misses(ReservedRemoves(es), x) { RemovedReserved(es, x); }
    }
  }

  /** The first half of the parse (the entries, then the kernel image) leaves both trees equal
      and well-formed, covering nothing outside the entries and the kernel image. */
  lemma BuildFacts(es: seq<MmapEntry>, kernel: Range)
    requires SaneEntries(es) && kernel.begin < kernel.end
    ensures var t := Run(Trees([], []), EntryAdds(es) + KernelAdds(kernel));
      t.known == t.free && WellFormed(t.known) &&
      forall x :: Covers(t.known, x) ==> InEntries(es, x) || Contains(kernel, x)
  {
    var t0 := Trees([], []);
    var t1 := Run(t0, EntryAdds(es));
    RunAppend(t0, EntryAdds(es), KernelAdds(kernel));
    EntryAddsFacts(t0, es);
    var p, q := Add(MemoryMap, kernel.begin, kernel.end), Add(FreeRanges, kernel.begin, kernel.end);
    RunPair(t1, p, q, []);
    assert KernelAdds(kernel) == [p, q] + [];
    AddBoth(t1, kernel.begin, kernel.end);
  }

  /** An address escapes every removal of the second half of the parse exactly when it lies
      in no reserved entry, not in the initrd module and not in the kernel image. */
  lemma ClearOpsMiss(es: seq<MmapEntry>, kernel: Range, initrd: Range, x: int)
    requires SaneEntries(es)
    ensures Misses(ReservedRemoves(es) + FinalRemoves(kernel, initrd), x) <==>
      !InReserved(es, x) && !Contains(initrd, x) && !Contains(kernel, x)
  {
    var r := ReservedRemoves(es);
    var f := FinalRemoves(kernel, initrd);
    var ops := r + f;
    ReservedRemovesFacts(es);
    assert ops[|r|] == f[0] && ops[|r| + 1] == f[1];
    if InReserved(es, x) {
      var i :| 0 <= i < |r| && r[i].from <= x < r[i].to;
      assert ops[i] == r[i];
    }
    if !Misses(ops, x) {
      var i :| 0 <= i < |ops| && ops[i].from <= x < ops[i].to;
      if i < |r| {
        assert ops[i] == r[i];
      }
    }
  }

  /** The second half of the parse takes out of `free_ranges` exactly the reserved entries,
      the initrd module and the kernel image, and leaves it well-formed. */
  lemma ClearFacts(t: Trees, es: seq<MmapEntry>, kernel: Range, initrd: Range)
    requires WellFormed(t.free) && SaneEntries(es) && initrd.begin <= initrd.end && kernel.begin < kernel.end
    ensures var t' := Run(t, ReservedRemoves(es) + FinalRemoves(kernel, initrd));
      t'.known == t.known && WellFormed(t'.free) &&
      forall x :: Covers(t'.free, x) <==>
        Covers(t.free, x) && !InReserved(es, x) && !Contains(initrd, x) && !Contains(kernel, x)
  {
    var r := ReservedRemoves(es);
    var f := FinalRemoves(kernel, initrd);
    var ops := r + f;
    ReservedRemovesFacts(es);
    forall i | 0 <= i < |ops| ensures ops[i].Remove? && ops[i].from <= ops[i].to {
      if i >= |r| { assert ops[i] == f[i - |r|]; }
    }
    RemovesFacts(t, ops);
    forall x {
      ClearOpsMiss(es, kernel, initrd, x);
    }
  }

  /** What `balloc_parse_mmap` leaves when it starts from empty trees: both trees are
      well-formed, the known memory lies within the reported entries and the kernel image, and
      the free memory is exactly the known memory outside every reserved entry, the initrd
      module and the kernel image, even when entries of different types overlap. */
  lemma ParseMmapFacts(es: seq<MmapEntry>, kernel: Range, initrd: Range)
    requires SaneEntries(es) && kernel.begin < kernel.end && initrd.begin <= initrd.end
    ensures var t := ParseMmap(Trees([], []), es, kernel, initrd);
      && WellFormed(t.known) && WellFormed(t.free)
      && (forall x :: Covers(t.known, x) ==> InEntries(es, x) || Contains(kernel, x))
      && (forall x :: Covers(t.free, x) <==>
            Covers(t.known, x) && !InReserved(es, x) && !Contains(initrd, x) && !Contains(kernel, x))
  {
    var t0 := Trees([], []);
    var build := EntryAdds(es) + KernelAdds(kernel);
    var clear := ReservedRemoves(es) + FinalRemoves(kernel, initrd);
    assert ParseOps(es, kernel, initrd) == build + clear;
    RunAppend(t0, build, clear);
    BuildFacts(es, kernel);
    ClearFacts(Run(t0, build), es, kernel, initrd);
  }

  /** Every free byte after the parse lies in an entry reported as available. */
  lemma FreeIsAvailable(es: seq<MmapEntry>, kernel: Range, initrd: Range, x: int)
    requires SaneEntries(es) && kernel.begin < kernel.end && initrd.begin <= initrd.end
    requires Covers(ParseMmap(Trees([], []), es, kernel, initrd).free, x)
    ensures InAvailable(es, x)
  {
    ParseMmapFacts(es, kernel, initrd);
    var i :| 0 <= i < |es| && es[i].addr <= x < EntryEnd(es[i]);
    assert es[i].kind == AVAILABLE;
  }

  /** Two operations in a row. */
  lemma RunTwo(t: Trees, p: Op, q: Op)
    ensures Run(t, [p, q]) == Apply(Apply(t, p), q)
  {
    RunPair(t, p, q, []);
    assert [p, q] + [] == [p, q];
  }

  /** Adding a range that lies inside the single range of a set changes nothing. */
  lemma AddInside(lo: u64, hi: u64, from: u64, to: u64)
    requires lo < from < to < hi
    ensures AddSpec([Range(lo, hi)], from, to) == [Range(lo, hi)]
  {
    assert InsertPos([Range(lo, hi)], from) == 1;
  }

  /** The entries and the kernel image of `ParseExample` as they go into both trees. */
  lemma BuildExample(t0: Trees, t1: Trees)
    requires t0 == Trees([], []) && t1 == Trees([Range(0, 0x100000)], [Range(0, 0x100000)])
    ensures Run(t0, [Add(MemoryMap, 0, 0x100000), Add(FreeRanges, 0, 0x100000)]) == t1
    ensures Run(t1, [Add(MemoryMap, 0x1000, 0x2000), Add(FreeRanges, 0x1000, 0x2000)]) == t1
    ensures Run(t1, [Add(MemoryMap, 0x2000, 0x3000), Add(FreeRanges, 0x2000, 0x3000)]) == t1
  {
    RunTwo(t0, Add(MemoryMap, 0, 0x100000), Add(FreeRanges, 0, 0x100000));
    assert InsertPos([], 0) == 0;
    RunTwo(t1, Add(MemoryMap, 0x1000, 0x2000), Add(FreeRanges, 0x1000, 0x2000));
    AddInside(0, 0x100000, 0x1000, 0x2000);
    RunTwo(t1, Add(MemoryMap, 0x2000, 0x3000), Add(FreeRanges, 0x2000, 0x3000));
    AddInside(0, 0x100000, 0x2000, 0x3000);
  }

  /** The removals of `ParseExample` from `free_ranges`. */
  lemma ClearExample(t1: Trees)
    requires t1 == Trees([Range(0, 0x100000)], [Range(0, 0x100000)])
    ensures Run(Run(t1, [Remove(0x1000, 0x2000)]), [Remove(0x3000, 0x4000), Remove(0x2000, 0x3000)]) ==
      Trees([Range(0, 0x100000)], [Range(0, 0x1000), Range(0x4000, 0x100000)])
  {
    RemoveExample();
    var t2 := Trees([Range(0, 0x100000)], [Range(0, 0x1000), Range(0x2000, 0x100000)]);
    assert Run(t1, [Remove(0x1000, 0x2000)]) == Run(t2, []);
    RunTwo(t2, Remove(0x3000, 0x4000), Remove(0x2000, 0x3000));
  }

  /** A memory map with one available region holding a reserved hole, the kernel image just
      above the hole and the initrd module just above the kernel: the known memory is the
      whole region, and the free memory is the region minus the hole, the kernel and the
      module. */
  lemma ParseExample()
    ensures ParseMmap(Trees([], []), [MmapEntry(0, 0x100000, 1), MmapEntry(0x1000, 0x1000, 2)],
                      Range(0x2000, 0x3000), Range(0x3000, 0x4000)) ==
      Trees([Range(0, 0x100000)], [Range(0, 0x1000), Range(0x4000, 0x100000)])
  {
    var es := [MmapEntry(0, 0x100000, 1), MmapEntry(0x1000, 0x1000, 2)];
    var kernel := Range(0x2000, 0x3000);
    var initrd := Range(0x3000, 0x4000);
    var e0 := [Add(MemoryMap, 0, 0x100000), Add(FreeRanges, 0, 0x100000)];
    var e1 := [Add(MemoryMap, 0x1000, 0x2000), Add(FreeRanges, 0x1000, 0x2000)];
    var r := [Remove(0x1000, 0x2000)];
    var f := [Remove(0x3000, 0x4000), Remove(0x2000, 0x3000)];
    assert es[1..] == [es[1]] && es[1..][1..] == [];
    assert EntryAdds(es) == e0 + e1;
    assert ReservedRemoves(es) == r;
    assert ParseOps(es, kernel, initrd) == ((e0 + e1) + KernelAdds(kernel)) + (r + f);
    var t0 := Trees([], []);
    var t1 := Trees([Range(0, 0x100000)], [Range(0, 0x100000)]);
    BuildExample(t0, t1);
    ClearExample(t1);
    RunAppend(t0, (e0 + e1) + KernelAdds(kernel), r + f);
    RunAppend(t0, e0 + e1, KernelAdds(kernel));
    RunAppend(t0, e0, e1);
    RunAppend(t1, r, f);
  }

  /** The three removals of `ParseExample`, one after the other. */
  lemma RemoveExample()
    ensures RemoveSpec([Range(0, 0x100000)], 0x1000, 0x2000) == [Range(0, 0x1000), Range(0x2000, 0x100000)]
    ensures RemoveSpec([Range(0, 0x1000), Range(0x2000, 0x100000)], 0x3000, 0x4000) ==
      [Range(0, 0x1000), Range(0x2000, 0x3000), Range(0x4000, 0x100000)]
    ensures RemoveSpec([Range(0, 0x1000), Range(0x2000, 0x3000), Range(0x4000, 0x100000)], 0x2000, 0x3000) ==
      [Range(0, 0x1000), Range(0x4000, 0x100000)]
  {
    var s1 := [Range(0, 0x100000)];
    assert FirstEndAbove(s1, 0x1000) == 0;
    assert Spliced(s1, 0, 0x1000, 0x2000) == [Range(0, 0x1000), Range(0x2000, 0x100000)];
    var s2 := [Range(0, 0x1000), Range(0x2000, 0x100000)];
    assert FirstEndAbove(s2, 0x3000) == 1;
    assert Spliced(s2, 1, 0x3000, 0x4000) == [Range(0, 0x1000), Range(0x2000, 0x3000), Range(0x4000, 0x100000)];
    var s3 := [Range(0, 0x1000), Range(0x2000, 0x3000), Range(0x4000, 0x100000)];
    assert FirstEndAbove(s3, 0x2000) == 1;
    assert Spliced(s3, 1, 0x2000, 0x3000) == [Range(0, 0x1000), Range(0x4000, 0x100000)];
  }

  /** The steps of `ReversedParseExample` in `memory_map` and `free_ranges`. */
  lemma ReversedSteps()
    ensures AddSpec([], 0x1000, 0x2000) == [Range(0x1000, 0x2000)]
    ensures AddSpec([Range(0x1000, 0x2000)], 0, 0x100000) == [Range(0, 0x2000)]
    ensures AddSpec([Range(0, 0x2000)], 0x2000, 0x3000) == [Range(0, 0x3000)]
    ensures RemoveSpec([Range(0, 0x3000)], 0x1000, 0x2000) == [Range(0, 0x1000), Range(0x2000, 0x3000)]
    ensures RemoveSpec([Range(0, 0x1000), Range(0x2000, 0x3000)], 0x3000, 0x4000) ==
      [Range(0, 0x1000), Range(0x2000, 0x3000)]
    ensures RemoveSpec([Range(0, 0x1000), Range(0x2000, 0x3000)], 0x2000, 0x3000) == [Range(0, 0x1000)]
  {
    assert InsertPos([], 0x1000) == 0;
    assert InsertPos([Range(0x1000, 0x2000)], 0) == 0;
    assert InsertPos([Range(0, 0x2000)], 0x2000) == 1;
    var s1 := [Range(0, 0x3000)];
    assert FirstEndAbove(s1, 0x1000) == 0;
    assert Spliced(s1, 0, 0x1000, 0x2000) == [Range(0, 0x1000), Range(0x2000, 0x3000)];
    var s2 := [Range(0, 0x1000), Range(0x2000, 0x3000)];
    assert FirstEndAbove(s2, 0x3000) == 2;
    assert FirstEndAbove(s2, 0x2000) == 1;
    assert Spliced(s2, 1, 0x2000, 0x3000) == [Range(0, 0x1000)];
  }

  /** The map of `ParseExample` with its two entries in the other order, the reserved hole
      first. The hole goes in first; the available region then starts below the hole and the
      descent finds the hole as its successor, whose end the region takes outright although the
      region reaches further. `memory_map` ends up as `[0, 0x3000)` and `free_ranges` as
      `[0, 0x1000)`: the available memory from `0x4000` up to `0x100000` is lost to both trees,
      although the map reports it. */
  lemma ReversedParseExample()
    ensures ParseMmap(Trees([], []), [MmapEntry(0x1000, 0x1000, 2), MmapEntry(0, 0x100000, 1)],
                      Range(0x2000, 0x3000), Range(0x3000, 0x4000)) ==
      Trees([Range(0, 0x3000)], [Range(0, 0x1000)])
    ensures InAvailable([MmapEntry(0x1000, 0x1000, 2), MmapEntry(0, 0x100000, 1)], 0x4000)
    ensures !Covers([Range(0, 0x3000)], 0x4000)
  {
    var es := [MmapEntry(0x1000, 0x1000, 2), MmapEntry(0, 0x100000, 1)];
    var kernel := Range(0x2000, 0x3000);
    var initrd := Range(0x3000, 0x4000);
    var e0 := [Add(MemoryMap, 0x1000, 0x2000), Add(FreeRanges, 0x1000, 0x2000)];
    var e1 := [Add(MemoryMap, 0, 0x100000), Add(FreeRanges, 0, 0x100000)];
    var k := [Add(MemoryMap, 0x2000, 0x3000), Add(FreeRanges, 0x2000, 0x3000)];
    var r := [Remove(0x1000, 0x2000)];
    var f := [Remove(0x3000, 0x4000), Remove(0x2000, 0x3000)];
    assert es[1..] == [es[1]] && es[1..][1..] == [];
    assert EntryAdds(es) == e0 + e1;
    assert ReservedRemoves(es) == r;
    assert KernelAdds(kernel) == k;
    assert ParseOps(es, kernel, initrd) == ((e0 + e1) + k) + (r + f);
    ReversedSteps();
    var t0 := Trees([], []);
    var t1 := Trees([Range(0x1000, 0x2000)], [Range(0x1000, 0x2000)]);
    var t2 := Trees([Range(0, 0x2000)], [Range(0, 0x2000)]);
    var t3 := Trees([Range(0, 0x3000)], [Range(0, 0x3000)]);
    var t4 := Trees([Range(0, 0x3000)], [Range(0, 0x1000), Range(0x2000, 0x3000)]);
    RunTwo(t0, e0[0], e0[1]);
    RunTwo(t1, e1[0], e1[1]);
    RunTwo(t2, k[0], k[1]);
    assert Run(t3, r) == Run(t4, []);
    RunTwo(t4, f[0], f[1]);
    RunAppend(t0, (e0 + e1) + k, r + f);
    RunAppend(t0, e0 + e1, k);
    RunAppend(t0, e0, e1);
    RunAppend(t3, r, f);
    assert es[1].kind == AVAILABLE && es[1].addr <= 0x4000 < EntryEnd(es[1]);
    assert !Contains(Range(0, 0x3000), 0x4000);
  }

  // ---------------------------------------------------------------------------------------
  // When `memory_map` holds all reported memory

  /** No two entries of the map share an address (touching is allowed). */
  predicate EntriesApart(es: seq<MmapEntry>) {
    forall i, j :: 0 <= i < j < |es| ==> EntryEnd(es[i]) <= es[j].addr || EntryEnd(es[j]) <= es[i].addr
  }

  /** No entry of the map shares an address with the kernel image. */
  predicate KernelApart(es: seq<MmapEntry>, kernel: Range) {
    forall i :: 0 <= i < |es| ==> EntryEnd(es[i]) <= kernel.begin || kernel.end <= es[i].addr
  }

  /** A set none of whose addresses lies in `[from, to)` overlaps no range there. */
  lemma AvoidsNoOverlap(s: seq<Range>, from: int, to: int)
    requires WellFormed(s) && from < to && forall x :: Covers(s, x) ==> !(from <= x < to)
    ensures NoOverlap(s, from, to)
  {
    forall i | 0 <= i < |s| ensures s[i].end <= from || to <= s[i].begin {
      if from < s[i].end && s[i].begin < to {
        var x := Max(s[i].begin, from);
        assert Contains(s[i], x) && Covers(s, x);
      }
    }
  }

  /** An address of the first entry lies in none of the later ones. */
  lemma FirstEntryApart(es: seq<MmapEntry>, x: int)
    requires EntriesApart(es) && es != [] && es[0].addr <= x < EntryEnd(es[0])
    ensures !InEntries(es[1..], x)
  {
    forall j | 0 <= j < |es[1..]| ensures !(es[1..][j].addr <= x < EntryEnd(es[1..][j])) {
      assert es[1..][j] == es[j + 1];
    }
  }

  lemma ApartTail(es: seq<MmapEntry>, kernel: Range)
    requires EntriesApart(es) && KernelApart(es, kernel) && es != []
    ensures EntriesApart(es[1..]) && KernelApart(es[1..], kernel)
  {
    forall i, j | 0 <= i < j < |es[1..]|
      ensures EntryEnd(es[1..][i]) <= es[1..][j].addr || EntryEnd(es[1..][j]) <= es[1..][i].addr
    {
      assert es[1..][i] == es[i + 1] && es[1..][j] == es[j + 1];
    }
    forall i | 0 <= i < |es[1..]| ensures EntryEnd(es[1..][i]) <= kernel.begin || kernel.end <= es[1..][i].addr {
      assert es[1..][i] == es[i + 1];
    }
  }

  /** When no two entries overlap and the trees start clear of them all, the first loop leaves
      `memory_map` covering exactly what it covered before together with every entry. */
  lemma {:induction false} EntryAddsExact(t: Trees, es: seq<MmapEntry>, kernel: Range)
    requires t.known == t.free && WellFormed(t.known) && SaneEntries(es)
    requires EntriesApart(es) && KernelApart(es, kernel)
    requires forall x :: Covers(t.known, x) ==> !InEntries(es, x)
    ensures forall x :: Covers(Run(t, EntryAdds(es)).known, x) <==> Covers(t.known, x) || InEntries(es, x)
    decreases |es|
  {
    if es != [] {
      var e := es[0];
      var p, q := Add(MemoryMap, e.addr, EntryEnd(e)), Add(FreeRanges, e.addr, EntryEnd(e));
      var t1 := Apply(Apply(t, p), q);
      assert EntryAdds(es) == [p, q] + EntryAdds(es[1..]);
      RunPair(t, p, q, EntryAdds(es[1..]));
      AddBoth(t, e.addr, EntryEnd(e));
      forall x | Covers(t.known, x) ensures !(e.addr <= x < EntryEnd(e)) {
        InEntriesCons(es, x);
      }
      AvoidsNoOverlap(t.known, e.addr, EntryEnd(e));
      AddUnion(t.known, e.addr, EntryEnd(e));
      forall x | Covers(t1.known, x) ensures !InEntries(es[1..], x) {
        InEntriesCons(es, x);
        if e.addr <= x < EntryEnd(e) { FirstEntryApart(es, x); }
      }
      SaneTail(es);
      ApartTail(es, kernel);
      EntryAddsExact(t1, es[1..], kernel);
      forall x ensures Covers(Run(t1, EntryAdds(es[1..])).known, x) <==> Covers(t.known, x) || InEntries(es, x) {
        InEntriesCons(es, x);
      }
    }
  }

  /** An address of the kernel image lies in no entry apart from it. */
  lemma KernelOutsideEntries(es: seq<MmapEntry>, kernel: Range, x: int)
    requires KernelApart(es, kernel) && Contains(kernel, x)
    ensures !InEntries(es, x)
  {
  }

  /** Where entries overlap neither each other nor the kernel image, an address of an entry is
      available exactly when it is not reserved. */
  lemma AvailableIsUnreserved(es: seq<MmapEntry>, x: int)
    requires EntriesApart(es)
    ensures InEntries(es, x) && !InReserved(es, x) <==> InAvailable(es, x)
  {
    if InAvailable(es, x) {
      var i :| 0 <= i < |es| && es[i].kind == AVAILABLE && es[i].addr <= x < EntryEnd(es[i]);
      forall j | 0 <= j < |es| && es[j].kind != AVAILABLE ensures !(es[j].addr <= x < EntryEnd(es[j])) {
        assert i != j;
      }
    }
    if InEntries(es, x) && !InReserved(es, x) {
      var i :| 0 <= i < |es| && es[i].addr <= x < EntryEnd(es[i]);
      assert es[i].kind == AVAILABLE;
    }
  }

  /** When no two entries overlap (touching allowed) and the kernel image overlaps none of
      them, `balloc_parse_mmap` leaves `memory_map` covering exactly the entries and the kernel
      image, and `free_ranges` covering exactly the available entries outside the initrd module
      and the kernel image. */
  lemma KnownIsReported(es: seq<MmapEntry>, kernel: Range, initrd: Range)
    requires SaneEntries(es) && kernel.begin < kernel.end && initrd.begin <= initrd.end
    requires EntriesApart(es) && KernelApart(es, kernel)
    ensures forall x :: Covers(ParseMmap(Trees([], []), es, kernel, initrd).known, x) <==>
      InEntries(es, x) || Contains(kernel, x)
    ensures forall x :: Covers(ParseMmap(Trees([], []), es, kernel, initrd).free, x) <==>
      InAvailable(es, x) && !Contains(initrd, x) && !Contains(kernel, x)
  {
    var t0 := Trees([], []);
    var t1 := Run(t0, EntryAdds(es));
    EntryAddsFacts(t0, es);
    EntryAddsExact(t0, es, kernel);
    var build := EntryAdds(es) + KernelAdds(kernel);
    RunAppend(t0, EntryAdds(es), KernelAdds(kernel));
    var p, q := Add(MemoryMap, kernel.begin, kernel.end), Add(FreeRanges, kernel.begin, kernel.end);
    RunPair(t1, p, q, []);
    assert KernelAdds(kernel) == [p, q] + [];
    forall x | Covers(t1.known, x) ensures !(kernel.begin <= x < kernel.end) {
      if Contains(kernel, x) { KernelOutsideEntries(es, kernel, x); }
    }
    AvoidsNoOverlap(t1.known, kernel.begin, kernel.end);
    AddUnion(t1.known, kernel.begin, kernel.end);
    var clear := ReservedRemoves(es) + FinalRemoves(kernel, initrd);
    assert ParseOps(es, kernel, initrd) == build + clear;
    RunAppend(t0, build, clear);
    ParseMmapFacts(es, kernel, initrd);
    BuildFacts(es, kernel);
    ClearFacts(Run(t0, build), es, kernel, initrd);
    forall x ensures InEntries(es, x) && !InReserved(es, x) <==> InAvailable(es, x) {
      AvailableIsUnreserved(es, x);
    }
  }

  // ---------------------------------------------------------------------------------------
  // `memory_map` with the corrected add

  /** `memory_map` after adding every entry of the map in turn with the corrected add, which
      keeps the larger end wherever a range reaches past the ranges it meets. */
  function MergedKnown(s: seq<Range>, es: seq<MmapEntry>): seq<Range>
    decreases |es|
  {
    if es == [] then s
    else MergedKnown(AddMerged(s, es[0].addr, EntryEnd(es[0])), es[1..])
  }

  /** With the corrected add, the entries loop leaves `memory_map` covering exactly what it
      covered before together with every entry, whatever the order of the entries and however
      they overlap. */
  lemma {:induction false} MergedKnownCovers(s: seq<Range>, es: seq<MmapEntry>)
    requires WellFormed(s) && SaneEntries(es)
    ensures WellFormed(MergedKnown(s, es))
    ensures forall x :: Covers(MergedKnown(s, es), x) <==> Covers(s, x) || InEntries(es, x)
    decreases |es|
  {
    if es != [] {
      SaneEntry(es, 0);
      var s1 := AddMerged(s, es[0].addr, EntryEnd(es[0]));
      AddMergedUnion(s, es[0].addr, EntryEnd(es[0]));
      SaneTail(es);
      MergedKnownCovers(s1, es[1..]);
      forall x ensures Covers(MergedKnown(s, es), x) <==> Covers(s, x) || InEntries(es, x) {
        InEntriesCons(es, x);
      }
    }
  }

  /** With the corrected add, `balloc_parse_mmap` leaves `memory_map` covering exactly what it
      held before, the entries of the map and the kernel image, as the comment above the entries
      loop intends (the boot code starts from an empty tree). */
  lemma MergedParseKnown(s: seq<Range>, es: seq<MmapEntry>, kernel: Range)
    requires WellFormed(s) && SaneEntries(es) && kernel.begin < kernel.end
    ensures WellFormed(AddMerged(MergedKnown(s, es), kernel.begin, kernel.end))
    ensures forall x :: Covers(AddMerged(MergedKnown(s, es), kernel.begin, kernel.end), x) <==>
      Covers(s, x) || InEntries(es, x) || Contains(kernel, x)
  {
    MergedKnownCovers(s, es);
    AddMergedUnion(MergedKnown(s, es), kernel.begin, kernel.end);
  }

  /** The entries of `ReversedParseExample` and its kernel image cover the available region. */
  lemma ReversedEntries(es: seq<MmapEntry>, kernel: Range)
    requires es == [MmapEntry(0x1000, 0x1000, 2), MmapEntry(0, 0x100000, 1)] && kernel == Range(0x2000, 0x3000)
    ensures forall x :: InEntries(es, x) || Contains(kernel, x) <==> 0 <= x < 0x100000
  {
    forall x ensures InEntries(es, x) || Contains(kernel, x) <==> 0 <= x < 0x100000 {
      if 0 <= x < 0x100000 { assert es[1].addr <= x < EntryEnd(es[1]); }
      if InEntries(es, x) {
        var i :| 0 <= i < |es| && es[i].addr <= x < EntryEnd(es[i]);
      }
    }
  }

  /** The map of `ReversedParseExample` with the corrected add: `memory_map` is the whole
      available region. */
  lemma ReversedMergedAt(es: seq<MmapEntry>, kernel: Range)
    requires es == [MmapEntry(0x1000, 0x1000, 2), MmapEntry(0, 0x100000, 1)] && kernel == Range(0x2000, 0x3000)
    ensures AddMerged(MergedKnown([], es), kernel.begin, kernel.end) == [Range(0, 0x100000)]
  {
    assert SaneEntries(es);
    MergedParseKnown([], es, kernel);
    ReversedEntries(es, kernel);
    OneRangeCover(AddMerged(MergedKnown([], es), kernel.begin, kernel.end), es, kernel, 0, 0x100000);
  }

  /** A well-formed set covering exactly the entries and the kernel image, where those make up
      one run `[lo, hi)`, is that one range. */
  lemma OneRangeCover(known: seq<Range>, es: seq<MmapEntry>, kernel: Range, lo: u64, hi: u64)
    requires WellFormed(known) && lo < hi
    requires forall x :: Covers(known, x) <==> Covers([], x) || InEntries(es, x) || Contains(kernel, x)
    requires forall x :: InEntries(es, x) || Contains(kernel, x) <==> lo <= x < hi
    ensures known == [Range(lo, hi)]
  {
    var whole := [Range(lo, hi)];
    forall x ensures Covers(known, x) <==> Covers(whole, x) {
      if lo <= x < hi { assert Contains(whole[0], x); }
    }
    CoversDetermines(known, whole);
  }

  lemma ReversedMergedExample()
    ensures AddMerged(MergedKnown([], [MmapEntry(0x1000, 0x1000, 2), MmapEntry(0, 0x100000, 1)]), 0x2000, 0x3000) ==
      [Range(0, 0x100000)]
  {
    ReversedMergedAt([MmapEntry(0x1000, 0x1000, 2), MmapEntry(0, 0x100000, 1)], Range(0x2000, 0x3000));
  }
}
