/** The harvested `value -> holder` index of the pointer scan
    (crates/nemclass-scan/src/pointerscan.rs): chunked harvesting, sorting and
    range queries. */
module PointerMap {
  import opened Memory

  /** `(value, holder)` for index entries, `(base, end)` for address ranges. */
  datatype Pair = Pair(key: nat, other: nat)

  /** Read window of the harvest, before the `psize` overlap. */
  const CHUNK: nat := 0x10_0000

  // ----- Binary-search queries over key-sorted pairs --------------------

  ghost predicate SortedByKey(es: seq<Pair>) {
    forall i, j :: 0 <= i < j < |es| ==> es[i].key <= es[j].key
  }

  /** `partition_point(|(k, _)| k < bound)`. */
  function PartitionPoint(es: seq<Pair>, bound: nat): (k: nat)
    ensures k <= |es|
    ensures forall i :: 0 <= i < k ==> es[i].key < bound
    ensures k < |es| ==> es[k].key >= bound
  {
    if es == [] || es[0].key >= bound then 0 else 1 + PartitionPoint(es[1..], bound)
  }

  /** The last range starting at or before `addr` is the only one consulted. */
  predicate IsMapped(ranges: seq<Pair>, addr: nat) {
    var idx := PartitionPoint(ranges, addr + 1);
    idx > 0 && addr < ranges[idx - 1].other
  }

  ghost predicate Separate(ranges: seq<Pair>) {
    && (forall i :: 0 <= i < |ranges| ==> ranges[i].key <= ranges[i].other)
    && (forall i, j :: 0 <= i < j < |ranges| ==> ranges[i].other <= ranges[j].key)
  }

  /** Over ordered, non-overlapping ranges the one-probe test is membership. */
  lemma MappedIffInside(ranges: seq<Pair>, addr: nat)
    requires Separate(ranges)
    ensures IsMapped(ranges, addr) <==> exists r :: r in ranges && r.key <= addr < r.other
  {
    var idx := PartitionPoint(ranges, addr + 1);
    if IsMapped(ranges, addr) {
      assert ranges[idx - 1] in ranges;
    }
    if r :| r in ranges && r.key <= addr < r.other {
      var i :| 0 <= i < |ranges| && ranges[i] == r;
      assert i < idx;
    }
  }

  /** Overlapping ranges break it: the last range to start hides a longer one. */
  lemma OverlapHidesAnAddress()
    ensures var ranges := [Pair(0, 100), Pair(10, 20)];
            !IsMapped(ranges, 50) && exists r :: r in ranges && r.key <= 50 < r.other
  {
    var ranges: seq<Pair> := [Pair(0, 100), Pair(10, 20)];
    assert PartitionPoint(ranges, 51) == 2 by {
      assert ranges[1..] == [Pair(10, 20)];
    }
    assert ranges[0] in ranges;
  }

  /** An address that some range covers and the probe does not find. */
  ghost predicate Missed(ranges: seq<Pair>, addr: nat) {
    !IsMapped(ranges, addr) && exists r :: r in ranges && r.key <= addr < r.other
  }

  /** Range `j` hides a part of the earlier range `i`: what lies past `j`'s end but
      before the next range starts. */
  ghost predicate Hides(ranges: seq<Pair>, i: nat, j: nat) {
    && i < j < |ranges|
    && ranges[j].key < ranges[i].other && ranges[j].other < ranges[i].other
    && (j + 1 < |ranges| ==> ranges[j].key < ranges[j + 1].key && ranges[j].other < ranges[j + 1].key)
  }

  /** Over ranges sorted by start the probe misses an address exactly when some
      range hides a part of an earlier one. */
  lemma ProbeMissesIff(ranges: seq<Pair>)
    requires SortedByKey(ranges)
    ensures (exists addr :: Missed(ranges, addr)) <==> exists i, j :: Hides(ranges, i, j)
  {
    if addr :| Missed(ranges, addr) {
      var i := HiddenRange(ranges, addr);
    }
    if i: nat, j: nat :| Hides(ranges, i, j) {
      HiddenAddress(ranges, i, j);
    }
  }

  /** The probe looks at range `idx - 1` only; a covering range comes before it. */
  lemma HiddenRange(ranges: seq<Pair>, addr: nat) returns (i: nat)
    requires SortedByKey(ranges) && Missed(ranges, addr)
    ensures PartitionPoint(ranges, addr + 1) > 0 && Hides(ranges, i, PartitionPoint(ranges, addr + 1) - 1)
  {
    var r :| r in ranges && r.key <= addr < r.other;
    i :| i < |ranges| && ranges[i] == r;
  }

  lemma HiddenAddress(ranges: seq<Pair>, i: nat, j: nat)
    requires SortedByKey(ranges) && Hides(ranges, i, j)
    ensures Missed(ranges, if ranges[j].key < ranges[j].other then ranges[j].other else ranges[j].key)
  {
    var addr := if ranges[j].key < ranges[j].other then ranges[j].other else ranges[j].key;
    var idx := PartitionPoint(ranges, addr + 1);
    assert idx == j + 1;
    assert ranges[i] in ranges && ranges[i].key <= addr < ranges[i].other;
  }

  /** All entries with `lo <= value <= hi`, in index order. */
  function Range(es: seq<Pair>, lo: nat, hi: nat): (r: seq<Pair>)
    ensures forall e :: e in r ==> e in es && e.key <= hi
  {
    var start := PartitionPoint(es, lo);
    es[start..][..PartitionPoint(es[start..], hi + 1)]
  }

  lemma RangeIsExact(es: seq<Pair>, lo: nat, hi: nat, e: Pair)
    requires SortedByKey(es)
    ensures e in Range(es, lo, hi) <==> e in es && lo <= e.key <= hi
  {
    var start := PartitionPoint(es, lo);
    var rest := es[start..];
    var stop := PartitionPoint(rest, hi + 1);
    if e in es && lo <= e.key <= hi {
      var i :| 0 <= i < |es| && es[i] == e;
      assert i >= start;
      assert rest[i - start] == e;
      assert i - start < stop;
      assert rest[..stop][i - start] == e;
    }
    if e in Range(es, lo, hi) {
      RangeIsWithin(es, lo, hi, e);
    }
  }

  lemma RangeIsWithin(es: seq<Pair>, lo: nat, hi: nat, e: Pair)
    requires SortedByKey(es) && e in Range(es, lo, hi)
    ensures e in es && lo <= e.key <= hi
  {
    var start := PartitionPoint(es, lo);
    var rest := es[start..];
    var k :| 0 <= k < PartitionPoint(rest, hi + 1) && rest[k] == e;
    assert es[start + k] == e;
    assert start < |es| && es[start].key >= lo;
  }

  // ----- Sorting and deduplication --------------------------------------

  predicate PairLeq(a: Pair, b: Pair) {
    a.key < b.key || (a.key == b.key && a.other <= b.other)
  }

  ghost predicate SortedPairs(es: seq<Pair>) {
    forall i, j :: 0 <= i < j < |es| ==> PairLeq(es[i], es[j])
  }

  function Insert(e: Pair, es: seq<Pair>): (r: seq<Pair>)
    ensures multiset(r) == multiset(es) + multiset{e}
  {
    if es == [] || PairLeq(e, es[0]) then
      [e] + es
    else
      assert es == [es[0]] + es[1..];
      [es[0]] + Insert(e, es[1..])
  }

  /** `sort_unstable` on pairs: lexicographic. */
  function SortPairs(es: seq<Pair>): (r: seq<Pair>)
    ensures multiset(r) == multiset(es)
    ensures forall e :: e in r <==> e in es
  {
    if es == [] then []
    else
      assert es == [es[0]] + es[1..];
      var r := Insert(es[0], SortPairs(es[1..]));
      SameMembers(r, es);
      r
  }

  lemma SameMembers(a: seq<Pair>, b: seq<Pair>)
    requires multiset(a) == multiset(b)
    ensures forall e :: e in a <==> e in b
  {
    forall e ensures e in a <==> e in b {
      assert e in a <==> e in multiset(a);
      assert e in b <==> e in multiset(b);
    }
  }

  lemma {:induction false} InsertKeepsOrder(e: Pair, es: seq<Pair>)
    requires SortedPairs(es)
    ensures SortedPairs(Insert(e, es))
  {
    if es != [] && !PairLeq(e, es[0]) {
      InsertKeepsOrder(e, es[1..]);
      var r := Insert(e, es[1..]);
      forall j | 0 <= j < |r| ensures PairLeq(es[0], r[j]) {
        assert r[j] in multiset(r);
        assert r[j] in multiset(es[1..]) + multiset{e};
      }
    }
  }

  lemma {:induction false} SortPairsSorts(es: seq<Pair>)
    ensures SortedPairs(SortPairs(es))
  {
    if es != [] {
      SortPairsSorts(es[1..]);
      InsertKeepsOrder(es[0], SortPairs(es[1..]));
    }
  }

  predicate Apart(a: Pair, b: Pair) {
    a.other <= b.key || b.other <= a.key
  }

  ghost predicate PairwiseApart(es: seq<Pair>) {
    forall i, j :: 0 <= i < j < |es| ==> Apart(es[i], es[j])
  }

  lemma {:induction false} InsertKeepsApart(e: Pair, es: seq<Pair>)
    requires PairwiseApart(es) && forall x :: x in es ==> Apart(e, x)
    ensures PairwiseApart(Insert(e, es))
  {
    if es != [] && !PairLeq(e, es[0]) {
      assert forall x :: x in es[1..] ==> x in es;
      InsertKeepsApart(e, es[1..]);
      var r := Insert(e, es[1..]);
      forall j | 0 <= j < |r| ensures Apart(es[0], r[j]) {
        assert r[j] in multiset(r);
        assert r[j] in multiset(es[1..]) + multiset{e};
        if r[j] == e {
          assert es[0] in es && Apart(e, es[0]);
        } else {
          var k :| 0 <= k < |es[1..]| && es[1..][k] == r[j];
          assert Apart(es[0], es[k + 1]);
        }
      }
    }
  }

  /** Ranges that do not overlap, in whatever order, are separate once sorted. */
  lemma {:induction false} SortSeparates(es: seq<Pair>)
    requires PairwiseApart(es) && forall e :: e in es ==> e.key <= e.other
    ensures Separate(SortPairs(es))
  {
    SortKeepsApart(es);
    SortPairsSorts(es);
    var r := SortPairs(es);
    forall i | 0 <= i < |r| ensures r[i].key <= r[i].other {
      assert r[i] in multiset(r);
      assert r[i] in multiset(es);
    }
  }

  lemma {:induction false} SortKeepsApart(es: seq<Pair>)
    requires PairwiseApart(es)
    ensures PairwiseApart(SortPairs(es))
  {
    if es != [] {
      SortKeepsApart(es[1..]);
      var r := SortPairs(es[1..]);
      forall x | x in r ensures Apart(es[0], x) {
        assert x in multiset(r);
        assert x in multiset(es[1..]);
        var k :| 0 <= k < |es[1..]| && es[1..][k] == x;
        assert es[k + 1] == x;
      }
      InsertKeepsApart(es[0], r);
    }
  }

  /** `sort_unstable_by_key(value)`. Nothing is promised about the order of
      entries with equal values, so no caller can rely on one. */
  method SortByValue(es: seq<Pair>) returns (r: seq<Pair>)
    ensures multiset(r) == multiset(es)
    ensures SortedByKey(r)
  {
    r := SortPairs(es);
    SortPairsSorts(es);
  }

  /** `Vec::dedup`: drops an element equal to its predecessor. */
  function Dedup(es: seq<Pair>): (r: seq<Pair>)
    ensures forall e :: e in r <==> e in es
    ensures es != [] ==> r != [] && r[0] == es[0]
  {
    if |es| <= 1 then es
    else if es[0] == es[1] then
      assert es == [es[0]] + es[1..];
      Dedup(es[1..])
    else
      assert es == [es[0]] + es[1..];
      [es[0]] + Dedup(es[1..])
  }

  lemma {:induction false} DedupKeepsOrder(es: seq<Pair>)
    requires SortedByKey(es)
    ensures SortedByKey(Dedup(es))
  {
    if |es| > 1 {
      DedupKeepsOrder(es[1..]);
      var r := Dedup(es[1..]);
      forall j | 0 <= j < |r| ensures es[0].key <= r[j].key {
        assert r[j] in es[1..];
        var k :| 0 <= k < |es[1..]| && es[1..][k] == r[j];
        assert es[k + 1] == r[j];
      }
    }
  }

  // ----- Harvest ---------------------------------------------------------

  /** `e` is an aligned word lying wholly in `[lo, hi)` whose value is mapped. */
  ghost predicate PointerIn(mem: Snapshot, mapped: nat -> bool, psize: nat, align: nat,
                            lo: nat, hi: nat, e: Pair)
    requires align > 0
  {
    && lo <= e.other && e.other + psize <= hi && e.other % align == 0
    && Readable(mem, e.other, psize) && e.key == WordAt(mem, e.other, psize)
    && mapped(e.key)
  }

  ghost predicate Harvestable(mem: Snapshot, regions: seq<Region>, mapped: nat -> bool,
                              psize: nat, align: nat, e: Pair)
    requires align > 0
  {
    exists r :: r in regions && PointerIn(mem, mapped, psize, align, r.base, r.End(), e)
  }

  ghost predicate HoldersAscend(es: seq<Pair>) {
    forall i, j :: 0 <= i < j < |es| ==> es[i].other <= es[j].other
  }

  /** The pointers among the words of `bytes` at offsets `i`, `i + align`, ...,
      where `bytes` was read at `pos`. */
  function PointersFrom(bytes: seq<Byte>, pos: nat, i: nat, psize: nat, align: nat, mapped: nat -> bool)
    : (r: seq<Pair>)
    requires align > 0
    decreases |bytes| - i
  {
    if i + psize > |bytes| then []
    else
      var w := Word(bytes[i..i + psize]);
      var rest := PointersFrom(bytes, pos, i + align, psize, align, mapped);
      if mapped(w) then [Pair(w, pos + i)] + rest else rest
  }

  /** A window holds exactly the pointers of the memory it was read from. */
  lemma {:induction false} PointersFromExact(mem: Snapshot, bytes: seq<Byte>, pos: nat, i: nat, psize: nat,
                                             align: nat, mapped: nat -> bool, e: Pair)
    requires align > 0 && (pos + i) % align == 0
    requires Readable(mem, pos, |bytes|) && bytes == Slice(mem, pos, |bytes|)
    ensures e in PointersFrom(bytes, pos, i, psize, align, mapped)
       <==> PointerIn(mem, mapped, psize, align, pos + i, pos + |bytes|, e)
    decreases |bytes| - i
  {
    if i + psize <= |bytes| {
      NextAligned(pos + i, align);
      PointersFromExact(mem, bytes, pos, i + align, psize, align, mapped, e);
      SliceOfSlice(mem, pos, |bytes|, i, psize);
      if pos + i <= e.other < pos + i + align && e.other % align == 0 {
        AlignedGap(pos + i, e.other, align);
      }
    }
  }

  /** The words of a window read at `pos`. */
  function WindowWords(bytes: seq<Byte>, pos: nat, psize: nat, align: nat, mapped: nat -> bool): seq<Pair>
    requires align > 0
  {
    PointersFrom(bytes, pos, NextMultiple(pos, align) - pos, psize, align, mapped)
  }

  /** From an unaligned start the walk begins at the next lattice point. */
  lemma WindowExact(mem: Snapshot, bytes: seq<Byte>, pos: nat, psize: nat, align: nat, mapped: nat -> bool, e: Pair)
    requires align > 0
    requires Readable(mem, pos, |bytes|) && bytes == Slice(mem, pos, |bytes|)
    ensures e in WindowWords(bytes, pos, psize, align, mapped)
       <==> PointerIn(mem, mapped, psize, align, pos, pos + |bytes|, e)
  {
    NextMultipleIsNext(pos, align);
    PointersFromExact(mem, bytes, pos, NextMultiple(pos, align) - pos, psize, align, mapped, e);
  }

  /** One read window: its words are looked at in order until the cap is hit. */
  method HarvestChunk(bytes: seq<Byte>, pos: nat, psize: nat, align: nat,
                      mapped: nat -> bool, cap: nat, entries: seq<Pair>)
    returns (out: seq<Pair>, full: bool)
    requires psize > 0 && align > 0
    ensures var all := entries + WindowWords(bytes, pos, psize, align, mapped);
            if full then entries < out <= all && |out| == (if |entries| < cap then cap else |entries| + 1)
            else out == all && (out == entries || |out| < cap)
  {
    out, full := entries, false;
    var i := NextMultiple(pos, align) - pos;
    ghost var all := entries + PointersFrom(bytes, pos, i, psize, align, mapped);
    while i + psize <= |bytes|
      invariant 0 <= i
      invariant entries <= out
      invariant out + PointersFrom(bytes, pos, i, psize, align, mapped) == all
      invariant out == entries || |out| < cap
      decreases |bytes| - i
    {
      var val := ReadWord(bytes[i..i + psize]);
      ghost var rest := PointersFrom(bytes, pos, i + align, psize, align, mapped);
      if mapped(val) {
        assert out + ([Pair(val, pos + i)] + rest) == out + [Pair(val, pos + i)] + rest;
        out := out + [Pair(val, pos + i)];
        if |out| >= cap {
          full := true;
          return;
        }
      }
      i := i + align;
    }
  }

  // ----- The harvest of a target -------------------------------------------------

  /** The words a harvest without a cap would push, up to the first failing read. */
  datatype Harvested = Harvested(words: seq<Pair>, failed: bool)

  /** What one read at `pos` asks for. */
  function Want(pos: nat, end: nat, psize: nat): (want: nat)
    requires pos < end
    ensures 0 < want <= end - pos
  {
    if end - pos <= CHUNK + psize then end - pos else CHUNK + psize
  }

  /** One read of the walk: its words, where the next window starts if there is one,
      and whether the read failed. */
  datatype Window = Window(words: seq<Pair>, next: Option<nat>, failed: bool)

  function WindowAt(t: Target, pos: nat, end: nat, psize: nat, align: nat, mapped: nat -> bool): (w: Window)
    requires psize > 0 && align > 0 && pos < end
    ensures w.next.Some? ==> !w.failed && pos < w.next.value < end
    ensures w.next.Some? ==> w.next.value + psize == end || (w.next.value == pos + CHUNK && w.next.value + psize < end)
  {
    var want := Want(pos, end, psize);
    var got := t.read(pos, want);
    if got.Failed? then Window([], None, true)
    else if |got.bytes| < psize then Window([], None, false)
    else
      Window(WindowWords(got.bytes, pos, psize, align, mapped),
             if want <= psize then None else Some(pos + want - psize), false)
  }

  /** One region from `pos` on, in overlapping windows. */
  function RegionWords(t: Target, pos: nat, end: nat, psize: nat, align: nat, mapped: nat -> bool): Harvested
    requires psize > 0 && align > 0
    decreases end - pos
  {
    if pos >= end then Harvested([], false)
    else
      var w := WindowAt(t, pos, end, psize, align, mapped);
      if w.next.None? then Harvested(w.words, w.failed)
      else
        var rest := RegionWords(t, w.next.value, end, psize, align, mapped);
        Harvested(w.words + rest.words, rest.failed)
  }

  function AllWords(t: Target, regions: seq<Region>, psize: nat, align: nat, mapped: nat -> bool): Harvested
    requires psize > 0 && align > 0
  {
    if regions == [] then Harvested([], false)
    else
      var first := RegionWords(t, regions[0].base, regions[0].End(), psize, align, mapped);
      if first.failed then first
      else
        var rest := AllWords(t, regions[1..], psize, align, mapped);
        Harvested(first.words + rest.words, rest.failed)
  }

  function AtLeastOne(n: nat): (r: nat)
    ensures r > 0 && (n > 0 ==> r == n) && (n == 0 ==> r == 1)
  {
    Max(n, 1)
  }

  /** What the capped harvest makes of the words: it is full exactly when they reach
      the cap (a cap of zero still lets one in), and then a read that fails later
      does no harm. */
  ghost predicate Takes(before: seq<Pair>, all: Harvested, cap: nat, r: Option<seq<Pair>>, full: bool) {
    var pushed := before + all.words;
    && (full <==> |pushed| >= AtLeastOne(cap))
    && (r.Some? <==> full || !all.failed)
    && (r.Some? ==> r.value == if full then pushed[..AtLeastOne(cap)] else pushed)
  }

  /** Words after words: a full list is full already, and what is not full goes on. */
  lemma TakesOn(before: seq<Pair>, first: seq<Pair>, rest: Harvested, cap: nat, r: Option<seq<Pair>>, full: bool)
    requires Takes(before, Harvested(first, false), cap, r, full)
    ensures full ==> Takes(before, Harvested(first + rest.words, rest.failed), cap, r, true)
    ensures !full ==> r == Some(before + first) && |r.value| < AtLeastOne(cap)
    ensures before + (first + rest.words) == (before + first) + rest.words
  {
    assert before + (first + rest.words) == (before + first) + rest.words;
    if full {
      assert ((before + first) + rest.words)[..AtLeastOne(cap)] == (before + first)[..AtLeastOne(cap)];
    }
  }

  /** One window: read it and push its words. */
  method HarvestWindow(t: Target, pos: nat, end: nat, psize: nat, align: nat, mapped: nat -> bool, cap: nat,
                       out: seq<Pair>)
    returns (r: Option<seq<Pair>>, full: bool, next: Option<nat>)
    requires psize > 0 && align > 0 && pos < end && |out| < AtLeastOne(cap)
    ensures var w := WindowAt(t, pos, end, psize, align, mapped);
            next == w.next && Takes(out, Harvested(w.words, w.failed), cap, r, full)
  {
    var want := Want(pos, end, psize);
    var got := t.read(pos, want);
    if got.Failed? {
      assert out + [] == out;
      return None, false, None;
    }
    if |got.bytes| < psize {
      assert out + [] == out;
      return Some(out), false, None;
    }
    var out';
    out', full := HarvestChunk(got.bytes, pos, psize, align, mapped, cap, out);
    r, next := Some(out'), if want <= psize then None else Some(pos + want - psize);
  }

  /** One region in overlapping windows. `None` is a failed read. */
  method HarvestRegion(t: Target, region: Region, psize: nat, align: nat, mapped: nat -> bool, cap: nat,
                       entries: seq<Pair>)
    returns (r: Option<seq<Pair>>, full: bool)
    requires psize > 0 && align > 0 && |entries| < AtLeastOne(cap)
    ensures Takes(entries, RegionWords(t, region.base, region.End(), psize, align, mapped), cap, r, full)
  {
    var pos: nat, end: nat := region.base, region.End();
    var next := Some(pos);
    ghost var all, done := RegionWords(t, pos, end, psize, align, mapped), [];
    r, full := Some(entries), false;
    assert entries + [] == entries && [] + all.words == all.words;
    while pos < end
      invariant r.Some? && !full && r.value == entries + done && |r.value| < AtLeastOne(cap)
      invariant all == Harvested(done + RegionWords(t, pos, end, psize, align, mapped).words,
                                 RegionWords(t, pos, end, psize, align, mapped).failed)
      decreases end as int - pos
    {
      ghost var w, out := WindowAt(t, pos, end, psize, align, mapped), r.value;
      ghost var rest := if w.next.None? then Harvested([], w.failed)
                        else RegionWords(t, w.next.value, end, psize, align, mapped);
      r, full, next := HarvestWindow(t, pos, end, psize, align, mapped, cap, r.value);
      WindowTaken(entries, done, w, rest, all, out, cap, r, full);
      if full || next.None? {
        return;
      }
      pos, done := next.value, done + w.words;
    }
    assert done + [] == done;
  }

  /** One window of a region's harvest. */
  lemma WindowTaken(entries: seq<Pair>, done: seq<Pair>, w: Window, rest: Harvested, all: Harvested, out: seq<Pair>,
                    cap: nat, r: Option<seq<Pair>>, full: bool)
    requires out == entries + done && |out| < AtLeastOne(cap)
    requires Takes(out, Harvested(w.words, w.failed), cap, r, full)
    requires w.failed ==> w.words == []
    requires all == Harvested(done + (w.words + rest.words), rest.failed)
    requires w.next.None? ==> rest == Harvested([], w.failed)
    requires w.next.Some? ==> !w.failed
    ensures full || w.next.None? ==> Takes(entries, all, cap, r, full)
    ensures !full && w.next.Some? ==> r == Some(entries + (done + w.words)) && |r.value| < AtLeastOne(cap)
    ensures all == Harvested((done + w.words) + rest.words, rest.failed)
  {
    assert done + (w.words + rest.words) == (done + w.words) + rest.words;
    assert entries + (done + (w.words + rest.words)) == out + (w.words + rest.words);
    assert entries + (done + w.words) == out + w.words;
    if !w.failed {
      TakesOn(out, w.words, rest, cap, r, full);
    }
    assert w.words + [] == w.words;
  }

  /** Harvest of every region, before sorting. */
  method Harvest(t: Target, psize: nat, align: nat, mapped: nat -> bool, cap: nat)
    returns (r: Option<seq<Pair>>, full: bool)
    requires psize > 0 && align > 0
    ensures Takes([], AllWords(t, t.regions, psize, align, mapped), cap, r, full)
  {
    ghost var all, done := AllWords(t, t.regions, psize, align, mapped), [];
    r, full := Some([]), false;
    var k := 0;
    assert t.regions[0..] == t.regions && [] + all.words == all.words;
    while k < |t.regions|
      invariant 0 <= k <= |t.regions| && r == Some(done) && !full && |done| < AtLeastOne(cap)
      invariant all == Harvested(done + AllWords(t, t.regions[k..], psize, align, mapped).words,
                                 AllWords(t, t.regions[k..], psize, align, mapped).failed)
    {
      ghost var first := RegionWords(t, t.regions[k].base, t.regions[k].End(), psize, align, mapped);
      ghost var rest := AllWords(t, t.regions[k + 1..], psize, align, mapped);
      assert t.regions[k..][1..] == t.regions[k + 1..];
      r, full := HarvestRegion(t, t.regions[k], psize, align, mapped, cap, r.value);
      RegionTaken(done, first, rest, all, cap, r, full);
      if full || r.None? {
        return;
      }
      k, done := k + 1, done + first.words;
    }
    assert done + [] == done && [] + done == done;
  }

  /** One region of the whole harvest. */
  lemma RegionTaken(done: seq<Pair>, first: Harvested, rest: Harvested, all: Harvested, cap: nat,
                    r: Option<seq<Pair>>, full: bool)
    requires Takes(done, first, cap, r, full)
    requires all == if first.failed then Harvested(done + first.words, true)
                    else Harvested(done + (first.words + rest.words), rest.failed)
    ensures full || r.None? ==> Takes([], all, cap, r, full)
    ensures !full && r.Some? ==> r == Some(done + first.words) && |done + first.words| < AtLeastOne(cap)
    ensures !full && r.Some? ==> all == Harvested((done + first.words) + rest.words, rest.failed)
  {
    assert [] + all.words == all.words;
    if !first.failed {
      TakesOn(done, first.words, rest, cap, r, full);
    }
  }

  // ----- What the words are ----------------------------------------------------------

  lemma WindowSound(t: Target, mem: Snapshot, pos: nat, end: nat, psize: nat, align: nat, mapped: nat -> bool, e: Pair)
    requires psize > 0 && align > 0 && pos < end && Faithful(t, mem)
    requires e in WindowAt(t, pos, end, psize, align, mapped).words
    ensures PointerIn(mem, mapped, psize, align, pos, end, e)
  {
    var bytes := t.read(pos, Want(pos, end, psize)).bytes;
    ReadIsSlice(t, mem, pos, Want(pos, end, psize));
    WindowExact(mem, bytes, pos, psize, align, mapped, e);
    PointerWidens(mem, mapped, psize, align, pos, pos + |bytes|, pos, end, e);
  }

  lemma ReadIsSlice(t: Target, mem: Snapshot, a: nat, n: nat)
    requires Faithful(t, mem) && t.read(a, n).Got?
    ensures var bytes := t.read(a, n).bytes;
            |bytes| <= n && Readable(mem, a, |bytes|) && bytes == Slice(mem, a, |bytes|)
  {
  }

  lemma PointerWidens(mem: Snapshot, mapped: nat -> bool, psize: nat, align: nat, lo: nat, hi: nat, lo': nat, hi': nat,
                      e: Pair)
    requires align > 0 && lo' <= lo && hi <= hi' && PointerIn(mem, mapped, psize, align, lo, hi, e)
    ensures PointerIn(mem, mapped, psize, align, lo', hi', e)
  {
  }

  /** Every word of a region is one of its pointers. */
  lemma {:induction false} RegionWordsSound(t: Target, mem: Snapshot, pos: nat, end: nat, psize: nat, align: nat,
                                            mapped: nat -> bool, e: Pair)
    requires psize > 0 && align > 0 && Faithful(t, mem)
    requires e in RegionWords(t, pos, end, psize, align, mapped).words
    ensures PointerIn(mem, mapped, psize, align, pos, end, e)
    decreases end - pos
  {
    var w := WindowAt(t, pos, end, psize, align, mapped);
    if e in w.words {
      WindowSound(t, mem, pos, end, psize, align, mapped, e);
    } else {
      RegionWordsSound(t, mem, w.next.value, end, psize, align, mapped, e);
    }
  }

  /** A full read holds every pointer before the next window. */
  lemma FullWindow(mem: Snapshot, bytes: seq<Byte>, pos: nat, end: nat, psize: nat, align: nat, mapped: nat -> bool,
                   e: Pair)
    requires psize > 0 && align > 0 && pos < end && |bytes| == Want(pos, end, psize)
    requires Readable(mem, pos, |bytes|) && bytes == Slice(mem, pos, |bytes|)
    requires PointerIn(mem, mapped, psize, align, pos, end, e)
    ensures psize <= |bytes|
    ensures e in WindowWords(bytes, pos, psize, align, mapped) || (psize < |bytes| && pos + |bytes| - psize < e.other)
  {
    if e.other + psize <= pos + |bytes| {
      assert PointerIn(mem, mapped, psize, align, pos, pos + |bytes|, e);
      WindowExact(mem, bytes, pos, psize, align, mapped, e);
    }
  }

  lemma WindowComplete(t: Target, mem: Snapshot, region: Region, pos: nat, psize: nat, align: nat, mapped: nat -> bool,
                       e: Pair)
    requires psize > 0 && align > 0 && Faithful(t, mem) && FullReads(t, [region])
    requires region.base <= pos < region.End()
    ensures var w := WindowAt(t, pos, region.End(), psize, align, mapped);
            && !w.failed
            && (PointerIn(mem, mapped, psize, align, pos, region.End(), e) ==>
                  e in w.words || (w.next.Some? && w.next.value < e.other))
  {
    var want := Want(pos, region.End(), psize);
    var got := t.read(pos, want);
    FullReadOf(t, region, pos, want);
    ReadIsSlice(t, mem, pos, want);
    if PointerIn(mem, mapped, psize, align, pos, region.End(), e) {
      FullWindow(mem, got.bytes, pos, region.End(), psize, align, mapped, e);
    }
  }

  lemma FullReadOf(t: Target, region: Region, a: nat, n: nat)
    requires FullReads(t, [region]) && region.base <= a && a + n <= region.End()
    ensures t.read(a, n).Got? && |t.read(a, n).bytes| == n
  {
    assert region in [region];
  }

  /** With full reads every pointer of the region is among its words. */
  lemma {:induction false} RegionWordsComplete(t: Target, mem: Snapshot, region: Region, pos: nat, psize: nat, align: nat,
                                               mapped: nat -> bool, e: Pair)
    requires psize > 0 && align > 0 && Faithful(t, mem) && FullReads(t, [region]) && region.base <= pos
    ensures !RegionWords(t, pos, region.End(), psize, align, mapped).failed
    ensures PointerIn(mem, mapped, psize, align, pos, region.End(), e) ==>
      e in RegionWords(t, pos, region.End(), psize, align, mapped).words
    decreases region.End() - pos
  {
    if pos < region.End() {
      WindowComplete(t, mem, region, pos, psize, align, mapped, e);
      var w := WindowAt(t, pos, region.End(), psize, align, mapped);
      if w.next.Some? {
        RegionWordsComplete(t, mem, region, w.next.value, psize, align, mapped, e);
      }
    }
  }

  lemma {:induction false} AllWordsSound(t: Target, mem: Snapshot, regions: seq<Region>, psize: nat, align: nat,
                                         mapped: nat -> bool, e: Pair)
    requires psize > 0 && align > 0 && Faithful(t, mem)
    requires e in AllWords(t, regions, psize, align, mapped).words
    ensures Harvestable(mem, regions, mapped, psize, align, e)
  {
    var first := RegionWords(t, regions[0].base, regions[0].End(), psize, align, mapped);
    if e in first.words {
      RegionWordsSound(t, mem, regions[0].base, regions[0].End(), psize, align, mapped, e);
      assert regions[0] in regions;
    } else {
      AllWordsSound(t, mem, regions[1..], psize, align, mapped, e);
      var r :| r in regions[1..] && PointerIn(mem, mapped, psize, align, r.base, r.End(), e);
      assert r in regions;
    }
  }

  /** With full reads the words are all the harvestable ones, and no read fails. */
  lemma {:induction false} AllWordsComplete(t: Target, mem: Snapshot, regions: seq<Region>, psize: nat, align: nat,
                                            mapped: nat -> bool, e: Pair)
    requires psize > 0 && align > 0 && Faithful(t, mem) && FullReads(t, regions)
    ensures !AllWords(t, regions, psize, align, mapped).failed
    ensures Harvestable(mem, regions, mapped, psize, align, e) ==> e in AllWords(t, regions, psize, align, mapped).words
  {
    if regions != [] {
      var region := regions[0];
      assert region in regions && FullReads(t, [region]);
      RegionWordsComplete(t, mem, region, region.base, psize, align, mapped, e);
      assert FullReads(t, regions[1..]) by {
        assert forall r :: r in regions[1..] ==> r in regions;
      }
      AllWordsComplete(t, mem, regions[1..], psize, align, mapped, e);
      if r :| r in regions && PointerIn(mem, mapped, psize, align, r.base, r.End(), e) {
        assert r == region || r in regions[1..];
      }
    }
  }

  // ----- How often a word is pushed -----------------------------------------------------

  /** A later window of the region starts here. */
  predicate Seam(base: nat, end: nat, psize: nat, a: nat) {
    base < a && (a + psize == end || (a + psize < end && (a - base) % CHUNK == 0))
  }

  /** Holders ascend; one that comes twice comes back to back, at a seam. */
  ghost predicate TwiceAtSeams(es: seq<Pair>, base: nat, end: nat, psize: nat) {
    && HoldersAscend(es)
    && forall i, j :: 0 <= i < j < |es| && es[i].other == es[j].other ==> j == i + 1 && Seam(base, end, psize, es[i].other)
  }

  ghost predicate HoldersRise(es: seq<Pair>) {
    forall i, j :: 0 <= i < j < |es| ==> es[i].other < es[j].other
  }

  lemma {:induction false} PointersRise(bytes: seq<Byte>, pos: nat, i: nat, psize: nat, align: nat, mapped: nat -> bool)
    requires align > 0
    ensures HoldersRise(PointersFrom(bytes, pos, i, psize, align, mapped))
    ensures forall e :: e in PointersFrom(bytes, pos, i, psize, align, mapped) ==>
      pos + i <= e.other && e.other + psize <= pos + |bytes|
    decreases |bytes| - i
  {
    if i + psize <= |bytes| {
      PointersRise(bytes, pos, i + align, psize, align, mapped);
      RiseCons(Pair(Word(bytes[i..i + psize]), pos + i), PointersFrom(bytes, pos, i + align, psize, align, mapped));
    }
  }

  lemma RiseCons(e: Pair, rest: seq<Pair>)
    requires HoldersRise(rest)
    ensures (forall x :: x in rest ==> e.other < x.other) ==> HoldersRise([e] + rest)
  {
    assert forall k :: 0 <= k < |rest| ==> rest[k] in rest;
  }

  lemma LastOfWords(words: seq<Pair>, i: nat, next: nat)
    requires i < |words| && HoldersRise(words) && words[i].other == next && forall e :: e in words ==> e.other <= next
    ensures i == |words| - 1
  {
    var last := words[|words| - 1];
    assert last in words && last.other <= next;
  }

  /** What starts a window is its first word. */
  lemma FirstOfRest(rest: seq<Pair>, x: nat, next: nat, end: nat, psize: nat)
    requires x < |rest| && TwiceAtSeams(rest, next, end, psize) && rest[x].other == next
    requires forall e :: e in rest ==> next <= e.other
    ensures x == 0
  {
    var first := rest[0];
    assert first in rest && next <= first.other;
  }

  /** Windows meet in one word: the last of one may be the first of the next. */
  lemma SeamsJoin(words: seq<Pair>, rest: seq<Pair>, pos: nat, next: nat, end: nat, psize: nat)
    requires HoldersRise(words) && (forall e :: e in words ==> pos <= e.other <= next)
    requires TwiceAtSeams(rest, next, end, psize) && (forall e :: e in rest ==> next <= e.other)
    requires pos < next && (next + psize == end || (next == pos + CHUNK && next + psize < end))
    ensures TwiceAtSeams(words + rest, pos, end, psize)
  {
    var es := words + rest;
    assert forall k :: 0 <= k < |words| ==> words[k] in words;
    assert forall k :: 0 <= k < |rest| ==> rest[k] in rest;
    assert forall a :: Seam(next, end, psize, a) ==> Seam(pos, end, psize, a);
    forall i, j | 0 <= i < j < |es| && es[i].other == es[j].other
      ensures j == i + 1 && Seam(pos, end, psize, es[i].other)
    {
      if i < |words| <= j {
        var x := j - |words|;
        assert es[j] == rest[x] && es[i].other == next;
        LastOfWords(words, i, next);
        FirstOfRest(rest, x, next, end, psize);
      } else if i >= |words| {
        assert es[i] == rest[i - |words|] && es[j] == rest[j - |words|];
      }
    }
  }

  lemma WindowRises(t: Target, mem: Snapshot, pos: nat, end: nat, psize: nat, align: nat, mapped: nat -> bool)
    requires psize > 0 && align > 0 && pos < end && Faithful(t, mem)
    ensures var w := WindowAt(t, pos, end, psize, align, mapped);
            && HoldersRise(w.words)
            && (forall e :: e in w.words ==> pos <= e.other && e.other + psize <= end)
            && (w.next.Some? ==> forall e :: e in w.words ==> e.other <= w.next.value)
  {
    var want := Want(pos, end, psize);
    var got := t.read(pos, want);
    if got.Got? {
      assert |got.bytes| <= want;
      WordsRise(got.bytes, pos, psize, align, mapped);
    }
  }

  lemma WordsRise(bytes: seq<Byte>, pos: nat, psize: nat, align: nat, mapped: nat -> bool)
    requires align > 0
    ensures HoldersRise(WindowWords(bytes, pos, psize, align, mapped))
    ensures forall e :: e in WindowWords(bytes, pos, psize, align, mapped) ==>
      pos <= e.other && e.other + psize <= pos + |bytes|
  {
    PointersRise(bytes, pos, NextMultiple(pos, align) - pos, psize, align, mapped);
  }

  lemma {:induction false} RegionTwice(t: Target, mem: Snapshot, pos: nat, end: nat, psize: nat, align: nat,
                                       mapped: nat -> bool)
    requires psize > 0 && align > 0 && Faithful(t, mem)
    ensures var es := RegionWords(t, pos, end, psize, align, mapped).words;
            TwiceAtSeams(es, pos, end, psize) && forall e :: e in es ==> pos <= e.other && e.other + psize <= end
    decreases end - pos
  {
    if pos < end {
      WindowRises(t, mem, pos, end, psize, align, mapped);
      var w := WindowAt(t, pos, end, psize, align, mapped);
      if w.next.Some? {
        RegionTwice(t, mem, w.next.value, end, psize, align, mapped);
        SeamsJoin(w.words, RegionWords(t, w.next.value, end, psize, align, mapped).words, pos, w.next.value, end, psize);
      }
    }
  }

  /** The holder lies on a seam of some region. */
  ghost predicate OnSeam(regions: seq<Region>, psize: nat, a: nat) {
    exists r :: r in regions && Seam(r.base, r.End(), psize, a)
  }

  /** The same over all regions. */
  ghost predicate AtMostTwice(es: seq<Pair>, regions: seq<Region>, psize: nat) {
    && HoldersAscend(es)
    && forall i, j :: 0 <= i < j < |es| && es[i].other == es[j].other ==> j == i + 1 && OnSeam(regions, psize, es[i].other)
  }

  /** A harvest pushes a word at most twice, and twice only where a later window of
      its region starts. */
  lemma {:induction false} AllTwice(t: Target, mem: Snapshot, regions: seq<Region>, psize: nat, align: nat,
                                    mapped: nat -> bool)
    requires psize > 0 && align > 0 && Faithful(t, mem) && Ascending(regions)
    ensures var es := AllWords(t, regions, psize, align, mapped).words;
            AtMostTwice(es, regions, psize) && forall e :: e in es && regions != [] ==> regions[0].base <= e.other
  {
    if regions != [] {
      var r := regions[0];
      RegionTwice(t, mem, r.base, r.End(), psize, align, mapped);
      AllTwice(t, mem, regions[1..], psize, align, mapped);
      TwiceConcat(RegionWords(t, r.base, r.End(), psize, align, mapped).words,
                  AllWords(t, regions[1..], psize, align, mapped).words, regions, psize);
    }
  }

  lemma TwiceConcat(a: seq<Pair>, b: seq<Pair>, regions: seq<Region>, psize: nat)
    requires psize > 0 && regions != [] && Ascending(regions)
    requires TwiceAtSeams(a, regions[0].base, regions[0].End(), psize)
    requires forall e :: e in a ==> regions[0].base <= e.other && e.other + psize <= regions[0].End()
    requires AtMostTwice(b, regions[1..], psize)
    requires forall e :: e in b && regions[1..] != [] ==> regions[1..][0].base <= e.other
    requires regions[1..] == [] ==> b == []
    ensures AtMostTwice(a + b, regions, psize)
    ensures forall e :: e in a + b ==> regions[0].base <= e.other
  {
    var es := a + b;
    assert forall k :: 0 <= k < |a| ==> a[k] in a;
    assert forall k :: 0 <= k < |b| ==> b[k] in b;
    assert regions[1..] != [] ==> regions[0].End() <= regions[1].base;
    forall i, j | 0 <= i < j < |es| && es[i].other == es[j].other
      ensures j == i + 1 && OnSeam(regions, psize, es[i].other)
    {
      if j < |a| {
        assert regions[0] in regions && Seam(regions[0].base, regions[0].End(), psize, es[i].other);
      } else if i >= |a| {
        assert es[i] == b[i - |a|] && es[j] == b[j - |a|];
        var r :| r in regions[1..] && Seam(r.base, r.End(), psize, es[i].other);
        assert r in regions;
      }
    }
  }

  /** The word at a seam of the walk is the one the next window starts at, or a word at
      a later seam. */
  lemma SeamAhead(pos: nat, end: nat, psize: nat, a: nat)
    requires psize > 0 && pos < end && Seam(pos, end, psize, a)
    ensures psize < Want(pos, end, psize)
    ensures var next := pos + Want(pos, end, psize) - psize;
            a == next || Seam(next, end, psize, a)
  {
    if a + psize < end {
      var d := a - pos;
      assert d == CHUNK * (d / CHUNK);
      if d / CHUNK >= 2 {
        assert (d - CHUNK) % CHUNK == 0;
      }
    }
  }

  /** With full reads a pointer at a seam is pushed twice. */
  lemma {:induction false} SeamPushedTwice(t: Target, mem: Snapshot, region: Region, pos: nat, psize: nat, align: nat,
                                           mapped: nat -> bool, e: Pair)
    requires psize > 0 && align > 0 && Faithful(t, mem) && FullReads(t, [region]) && region.base <= pos
    requires PointerIn(mem, mapped, psize, align, pos, region.End(), e) && Seam(pos, region.End(), psize, e.other)
    ensures multiset(RegionWords(t, pos, region.End(), psize, align, mapped).words)[e] > 1
    decreases region.End() - pos
  {
    var w := WindowAt(t, pos, region.End(), psize, align, mapped);
    WindowFull(t, mem, region, pos, psize, align, mapped);
    SeamAhead(pos, region.End(), psize, e.other);
    var next := w.next.value;
    var rest := RegionWords(t, next, region.End(), psize, align, mapped).words;
    if e.other == next {
      WindowComplete(t, mem, region, pos, psize, align, mapped, e);
      RegionWordsComplete(t, mem, region, next, psize, align, mapped, e);
      assert e in w.words && e in rest;
    } else {
      SeamPushedTwice(t, mem, region, next, psize, align, mapped, e);
    }
  }

  lemma WindowFull(t: Target, mem: Snapshot, region: Region, pos: nat, psize: nat, align: nat, mapped: nat -> bool)
    requires psize > 0 && align > 0 && FullReads(t, [region]) && region.base <= pos < region.End()
    requires Want(pos, region.End(), psize) > psize
    ensures WindowAt(t, pos, region.End(), psize, align, mapped).next == Some(pos + Want(pos, region.End(), psize) - psize)
  {
    FullReadOf(t, region, pos, Want(pos, region.End(), psize));
  }

  lemma {:induction false} SeamInAllTwice(t: Target, mem: Snapshot, regions: seq<Region>, psize: nat, align: nat,
                                          mapped: nat -> bool, r: Region, e: Pair)
    requires psize > 0 && align > 0 && Faithful(t, mem) && FullReads(t, regions) && r in regions
    requires PointerIn(mem, mapped, psize, align, r.base, r.End(), e) && Seam(r.base, r.End(), psize, e.other)
    ensures multiset(AllWords(t, regions, psize, align, mapped).words)[e] > 1
  {
    var region := regions[0];
    assert region in regions && FullReads(t, [region]);
    RegionWordsComplete(t, mem, region, region.base, psize, align, mapped, e);
    if r == region {
      SeamPushedTwice(t, mem, r, r.base, psize, align, mapped, e);
    } else {
      assert FullReads(t, regions[1..]) by {
        assert forall q :: q in regions[1..] ==> q in regions;
      }
      SeamInAllTwice(t, mem, regions[1..], psize, align, mapped, r, e);
    }
  }

  // ----- When the index is free of repeats ---------------------------------------------

  ghost predicate Distinct<T>(s: seq<T>) {
    forall i, j :: 0 <= i < j < |s| ==> s[i] != s[j]
  }

  /** Equal elements stand together. */
  ghost predicate Grouped(es: seq<Pair>) {
    forall i, j, k :: 0 <= i < j < k < |es| && es[i] == es[k] ==> es[j] == es[i]
  }

  /** Dropping equal neighbours leaves no pair twice exactly when copies stand together. */
  lemma {:induction false} DedupDistinctIff(es: seq<Pair>)
    ensures Distinct(Dedup(es)) <==> Grouped(es)
  {
    if |es| > 1 {
      DedupDistinctIff(es[1..]);
      if es[0] == es[1] {
        GroupedRepeat(es);
      } else {
        GroupedCons(es);
        DistinctCons(es[0], Dedup(es[1..]));
      }
    }
  }

  lemma GroupedRepeat(es: seq<Pair>)
    requires |es| > 1 && es[0] == es[1]
    ensures Grouped(es) <==> Grouped(es[1..])
  {
    var tail := es[1..];
    if Grouped(es) {
      forall i, j, k | 0 <= i < j < k < |tail| && tail[i] == tail[k] ensures tail[j] == tail[i] {
        assert tail[i] == es[i + 1] && tail[j] == es[j + 1] && tail[k] == es[k + 1];
      }
    }
    if Grouped(tail) {
      forall i, j, k | 0 <= i < j < k < |es| && es[i] == es[k] ensures es[j] == es[i] {
        var first := if i == 0 then 0 else i - 1;
        assert tail[first] == es[i] && tail[j - 1] == es[j] && tail[k - 1] == es[k];
      }
    }
  }

  lemma GroupedCons(es: seq<Pair>)
    requires |es| > 1 && es[0] != es[1]
    ensures Grouped(es) <==> Grouped(es[1..]) && es[0] !in es[1..]
  {
    var tail := es[1..];
    if Grouped(es) {
      forall i, j, k | 0 <= i < j < k < |tail| && tail[i] == tail[k] ensures tail[j] == tail[i] {
        assert tail[i] == es[i + 1] && tail[j] == es[j + 1] && tail[k] == es[k + 1];
      }
      forall k | 0 <= k < |tail| ensures tail[k] != es[0] {
        assert tail[k] == es[k + 1];
      }
    }
    if Grouped(tail) && es[0] !in tail {
      forall i, j, k | 0 <= i < j < k < |es| && es[i] == es[k] ensures es[j] == es[i] {
        assert es[k] == tail[k - 1] && es[k] in tail;
        assert es[i] == tail[i - 1] && es[j] == tail[j - 1];
      }
    }
  }

  lemma DistinctCons(e: Pair, rest: seq<Pair>)
    ensures Distinct([e] + rest) <==> Distinct(rest) && e !in rest
  {
    var all := [e] + rest;
    if Distinct(all) {
      forall i, j | 0 <= i < j < |rest| ensures rest[i] != rest[j] {
        assert all[i + 1] == rest[i] && all[j + 1] == rest[j];
      }
      forall j | 0 <= j < |rest| ensures rest[j] != e {
        assert all[0] == e && all[j + 1] == rest[j];
      }
    }
    if Distinct(rest) && e !in rest {
      forall i, j | 0 <= i < j < |all| ensures all[i] != all[j] {
        assert all[j] == rest[j - 1] && all[j] in rest;
      }
    }
  }

  /** No pair that comes twice shares its value with another one. */
  ghost predicate TwinFree(es: seq<Pair>) {
    forall e, f :: multiset(es)[e] > 1 && f in es && f.key == e.key ==> f == e
  }

  /** What a sort by value may make of the list. */
  ghost predicate Sorts(es: seq<Pair>, sorted: seq<Pair>) {
    multiset(sorted) == multiset(es) && SortedByKey(sorted)
  }

  /** Sorting by value puts a repeated pair's copies together unless another pair
      shares its value. */
  lemma SortedGroups(es: seq<Pair>, sorted: seq<Pair>)
    requires Sorts(es, sorted) && TwinFree(es)
    ensures Grouped(sorted)
  {
    forall i, j, k | 0 <= i < j < k < |sorted| && sorted[i] == sorted[k] ensures sorted[j] == sorted[i] {
      var e := sorted[i];
      CountTwo(sorted, i, k);
      SameMembers(sorted, es);
      assert sorted[j] in sorted;
    }
  }

  function Without(es: seq<Pair>, e: Pair): (r: seq<Pair>)
    requires e in es
    ensures multiset(es) == multiset(r) + multiset{e}
  {
    assert es == [es[0]] + es[1..];
    if es[0] == e then es[1..] else [es[0]] + Without(es[1..], e)
  }

  lemma TakeOut(es: seq<Pair>, e: Pair, f: Pair) returns (rest: seq<Pair>)
    requires multiset(es)[e] > 1 && f in es && f != e
    ensures multiset(es) == multiset(rest) + multiset([e, f, e])
  {
    assert f in multiset(es);
    var once := Without(es, e);
    assert e in multiset(once) && f in multiset(once);
    var none := Without(once, e);
    assert f in multiset(none);
    rest := Without(none, f);
  }

  lemma SortedConcat(a: seq<Pair>, b: seq<Pair>, key: nat)
    requires SortedByKey(a) && SortedByKey(b)
    requires (forall i :: 0 <= i < |a| ==> a[i].key <= key) && (forall i :: 0 <= i < |b| ==> key <= b[i].key)
    ensures SortedByKey(a + b)
  {
  }

  /** A list of pairs of one value goes where its value belongs. */
  lemma SplicedSorted(rest: seq<Pair>, p: nat, mid: seq<Pair>, key: nat)
    requires SortedByKey(rest) && p == PartitionPoint(rest, key)
    requires forall i :: 0 <= i < |mid| ==> mid[i].key == key
    ensures SortedByKey(rest[..p] + (mid + rest[p..]))
  {
    forall i | p <= i < |rest| ensures key <= rest[i].key {
      assert rest[p].key <= rest[i].key;
    }
    var low, high := rest[..p], rest[p..];
    SortedConcat(mid, high, key);
    SortedConcat(low, mid + high, key);
  }

  lemma SplicedMembers(rest: seq<Pair>, p: nat, mid: seq<Pair>)
    requires p <= |rest|
    ensures multiset(rest[..p] + (mid + rest[p..])) == multiset(rest) + multiset(mid)
  {
    assert rest == rest[..p] + rest[p..];
  }

  /** A pair that comes twice and another of its value may be sorted into each other. */
  lemma PartTwins(es: seq<Pair>, e: Pair, f: Pair) returns (sorted: seq<Pair>)
    requires multiset(es)[e] > 1 && f in es && f.key == e.key && f != e
    ensures Sorts(es, sorted) && !Grouped(sorted)
  {
    var rest := TakeOut(es, e, f);
    var lower := SortPairs(rest);
    SortPairsSorts(rest);
    var p := PartitionPoint(lower, e.key);
    SplicedSorted(lower, p, [e, f, e], e.key);
    SplicedMembers(lower, p, [e, f, e]);
    sorted := lower[..p] + ([e, f, e] + lower[p..]);
    assert sorted[p] == e && sorted[p + 1] == f && sorted[p + 2] == e;
  }

  /** However the sort orders equal values, no pair is left twice: exactly when none
      that comes twice shares its value. */
  lemma DistinctForEverySortIff(es: seq<Pair>)
    ensures TwinFree(es) <==> forall sorted :: Sorts(es, sorted) ==> Distinct(Dedup(sorted))
  {
    if TwinFree(es) {
      forall sorted | Sorts(es, sorted) ensures Distinct(Dedup(sorted)) {
        SortedGroups(es, sorted);
        DedupDistinctIff(sorted);
      }
    } else {
      var e, f :| multiset(es)[e] > 1 && f in es && f.key == e.key && f != e;
      var sorted := PartTwins(es, e, f);
      DedupDistinctIff(sorted);
    }
  }

  lemma CountTwo(es: seq<Pair>, i: nat, k: nat)
    requires i < k < |es| && es[i] == es[k]
    ensures multiset(es)[es[i]] > 1
  {
    assert es == es[..k] + es[k..];
    assert es[..k][i] in es[..k] && es[k..][0] in es[k..];
    assert multiset(es) == multiset(es[..k]) + multiset(es[k..]);
  }

  lemma {:induction false} CountedTwice(es: seq<Pair>, e: Pair)
    requires multiset(es)[e] > 1
    ensures exists i, k :: 0 <= i < k < |es| && es[i] == e == es[k]
  {
    var i :| 0 <= i < |es| && es[i] == e;
    assert es == es[..i] + [e] + es[i + 1..];
    assert multiset(es) == multiset(es[..i]) + multiset{e} + multiset(es[i + 1..]);
    if e in es[..i] {
      var k :| 0 <= k < i && es[..i][k] == e;
      assert es[k] == e;
    } else {
      assert e in es[i + 1..];
      var k :| 0 <= k < |es[i + 1..]| && es[i + 1..][k] == e;
      assert es[i + 1 + k] == e;
    }
  }
}
