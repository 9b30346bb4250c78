/** The spider's graph against memory alone
    (crates/nemclass-scan/src/spider.rs): what a window read covers decides which
    slots count, and on whole-page targets it decides nothing. */
module SpiderMemory {
  import opened Memory
  import opened SpiderWindow
  import opened SpiderGraph
  import opened SpiderComplete
  import opened Spider

  /** A matching slot of the struct at `a`. */
  ghost function MemoryHit(s: Search, mem: Snapshot, a: nat, off: nat): Option<seq<Byte>> {
    if Readable(mem, a + off, s.stride) && s.matches(Slice(mem, a + off, s.stride))
    then Some(Slice(mem, a + off, s.stride)) else None
  }

  /** The struct that an aligned, readable pointer of the struct at `a` leads to. */
  ghost function MemoryChild(s: Search, mem: Snapshot, a: nat, off: nat): Option<nat>
    requires s.cfg.pointerSize > 0
  {
    if (a + off) % s.cfg.pointerSize == 0 && Readable(mem, a + off, s.cfg.pointerSize)
    then
      var w := WordAt(mem, a + off, s.cfg.pointerSize);
      if w != 0 && w != a && s.mapped(w) then Some(w) else None
    else None
  }

  ghost function MemoryGraph(s: Search, mem: Snapshot): Graph
    requires s.cfg.pointerSize > 0
  {
    Graph(s.root, s.align, s.cfg.structSize, s.cfg.maxDepth, s.cfg.dedupeNodes,
          (a, off) => MemoryHit(s, mem, a, off), (a, off) => MemoryChild(s, mem, a, off))
  }

  /** A read of a whole window returns all of it or nothing. */
  ghost predicate WholeWindows(s: Search) {
    forall a: nat {:trigger s.target.read(a, s.WindowLength())} ::
      var got := s.target.read(a, s.WindowLength());
      got.Got? && got.bytes != [] ==> |got.bytes| == s.WindowLength()
  }

  /** Where pages are mapped whole and windows are read whole or not at all, a slot
      inside the window is covered exactly when it is readable. */
  lemma CoveredIffReadable(s: Search, mem: Snapshot, a: nat, off: nat, need: nat)
    requires Faithful(s.target, mem) && AllOrNothing(s.target, mem) && WholeWindows(s) && need > 0
    ensures s.CoverAt(a).Has(off, need) <==> off + need <= s.WindowLength() && Readable(mem, a + off, need)
  {
    var len := s.WindowLength();
    var got := s.target.read(a, len);
    if s.CoverAt(a).Has(off, need) {
      HasImpliesReadable(s.target, mem, a, len, off, need);
    } else if off + need <= len && (got.Failed? || got.bytes == []) {
      FallbackIsExact(s.target, mem, a, len, off, need);
    }
  }

  /** A pointer at a slot always lies inside the window. */
  lemma PointerFits(s: Search, a: nat, off: nat)
    requires s.Valid() && off < Start(s.align, a) + s.cfg.structSize
    ensures off + s.cfg.pointerSize <= s.WindowLength()
  {
    NextMultipleIsNext(a, s.align);
  }

  /** The slots of the graph are those of memory whose values end inside the window. */
  lemma SlotsAreMemory(s: Search, mem: Snapshot, a: nat, off: nat)
    requires s.Valid() && Faithful(s.target, mem) && AllOrNothing(s.target, mem) && WholeWindows(s)
    requires off < Start(s.align, a) + s.cfg.structSize
    ensures HitAt(s, mem, a, off) == if off + s.stride <= s.WindowLength() then MemoryHit(s, mem, a, off) else None
    ensures ChildAt(s, mem, a, off) == MemoryChild(s, mem, a, off)
  {
    CoveredIffReadable(s, mem, a, off, s.stride);
    CoveredIffReadable(s, mem, a, off, s.cfg.pointerSize);
    PointerFits(s, a, off);
  }

  /** What a short read loses: exactly the slots that do not lie wholly inside the
      bytes that came back, readable or not. */
  lemma ShortReadKeepsItsBytes(s: Search, mem: Snapshot, a: nat, off: nat)
    requires s.Valid() && Faithful(s.target, mem)
    requires var got := s.target.read(a, s.WindowLength()); got.Got? && got.bytes != []
    ensures var n := |s.target.read(a, s.WindowLength()).bytes|;
            && (HitAt(s, mem, a, off) == if off + s.stride <= n then MemoryHit(s, mem, a, off) else None)
            && (ChildAt(s, mem, a, off) == if off + s.cfg.pointerSize <= n then MemoryChild(s, mem, a, off) else None)
  {
  }

  // ----- Values in a struct's last slots --------------------------------------------

  /** The last slot of a struct that starts one past a lattice point. */
  function LastSlot(s: Search): nat
    requires s.align > 0 && s.cfg.structSize > 0
  {
    s.align - 1 + s.align * ((s.cfg.structSize - 1) / s.align)
  }

  /** Even there a value ends inside the window. */
  predicate TailFits(s: Search)
    requires s.align > 0 && s.cfg.structSize > 0
  {
    s.align * ((s.cfg.structSize - 1) / s.align) + s.stride <= s.cfg.structSize + s.cfg.pointerSize + 1
  }

  ghost predicate SlotOf(s: Search, a: nat, off: nat)
    requires s.align > 0
  {
    Start(s.align, a) <= off < Start(s.align, a) + s.cfg.structSize && (a + off) % s.align == 0
  }

  /** Multiples of `m` less than `size` apart are at most the last step apart. */
  lemma LatticeSteps(m: nat, first: nat, at: nat, size: nat)
    requires m > 0 && first % m == 0 && at % m == 0 && first <= at < first + size
    ensures at - first <= m * ((size - 1) / m)
  {
    var j, q := at / m - first / m, (size - 1) / m;
    assert m * j == at - first;
    LastStep(m, size, q);
    MulGrows(m, j - (q + 1));
    assert m * (j - (q + 1)) == m * j - m * (q + 1);
    assert j <= q;
    MulGrows(m, q - j);
    assert m * (q - j) == m * q - m * j;
  }

  lemma LastStep(m: nat, size: nat, q: nat)
    requires m > 0 && size > 0 && q == (size - 1) / m
    ensures size - 1 < m * (q + 1)
  {
  }

  /** No slot lies further out than `LastSlot`. */
  lemma SlotBound(s: Search, a: nat, off: nat)
    requires s.align > 0 && s.cfg.structSize > 0 && SlotOf(s, a, off)
    ensures off <= LastSlot(s)
  {
    NextMultipleIsNext(a, s.align);
    LatticeSteps(s.align, NextMultiple(a, s.align), a + off, s.cfg.structSize);
  }

  lemma LastSlotIsSlot(s: Search)
    requires s.align > 0 && s.cfg.structSize > 0
    ensures SlotOf(s, 1, LastSlot(s))
  {
    var m, q := s.align, (s.cfg.structSize - 1) / s.align;
    assert NextMultiple(1, m) == m;
    assert 1 + LastSlot(s) == m * (q + 1);
    MultipleMod(q + 1, m);
  }

  /** On any faithful target a value too long for what is left of the window is never a
      hit; a value no longer than a pointer always fits. */
  lemma LongValuesMissTheTail(s: Search, mem: Snapshot, a: nat, off: nat)
    requires s.Valid() && Faithful(s.target, mem)
    ensures off + s.stride > s.WindowLength() ==> HitAt(s, mem, a, off) == None
    ensures off < Start(s.align, a) + s.cfg.structSize && s.stride <= s.cfg.pointerSize ==>
              off + s.stride <= s.WindowLength()
  {
    if s.CoverAt(a).Has(off, s.stride) {
      HasImpliesReadable(s.target, mem, a, s.WindowLength(), off, s.stride);
    }
    NextMultipleIsNext(a, s.align);
  }

  /** Every slot of every struct has its value inside the window exactly when the
      configuration's tail fits. */
  lemma AllFitIffTailFits(s: Search)
    requires s.Valid() && s.cfg.structSize > 0
    ensures TailFits(s) <==> forall a: nat, off: nat :: SlotOf(s, a, off) ==> off + s.stride <= s.WindowLength()
  {
    LastSlotIsSlot(s);
    forall a: nat, off: nat | SlotOf(s, a, off) && TailFits(s) ensures off + s.stride <= s.WindowLength() {
      SlotBound(s, a, off);
    }
  }

  lemma {:induction false} WalksAreMemory(s: Search, mem: Snapshot, path: seq<nat>)
    requires s.Valid() && Faithful(s.target, mem) && AllOrNothing(s.target, mem) && WholeWindows(s)
    ensures Walk(GraphOf(s, mem), path) == Walk(MemoryGraph(s, mem), path)
    decreases |path|
  {
    if path != [] {
      var n := |path| - 1;
      WalksAreMemory(s, mem, path[..n]);
      var at := Walk(MemoryGraph(s, mem), path[..n]);
      if at.Some? && IsSlot(MemoryGraph(s, mem), at.value, path[n]) {
        SlotsAreMemory(s, mem, at.value, path[n]);
      }
    }
  }

  /** A slot of memory whose value ends inside the window is listed. */
  lemma ListedInMemory(s: Search, mem: Snapshot, hits: seq<SpiderHit>, path: seq<nat>, off: nat)
    requires s.Valid() && Faithful(s.target, mem) && AllOrNothing(s.target, mem) && WholeWindows(s)
    requires MissesNothing(GraphOf(s, mem), hits) && off + s.stride <= s.WindowLength()
    requires |path| <= s.cfg.maxDepth && Matching(MemoryGraph(s, mem), path, off)
    ensures Lists(MemoryGraph(s, mem), hits, path, off)
  {
    var g, m := GraphOf(s, mem), MemoryGraph(s, mem);
    var a := Walk(m, path).value;
    WalksAreMemory(s, mem, path);
    SlotsAreMemory(s, mem, a, off);
    assert g.hitAt(a, off) == HitAt(s, mem, a, off) && m.hitAt(a, off) == MemoryHit(s, mem, a, off);
    assert Matching(g, path, off) && Lists(g, hits, path, off);
    var h :| h in hits && IsHitFor(g, h, path, off);
    WalksAreMemory(s, mem, h.path.parentOffsets);
    assert IsHitFor(m, h, path, off);
  }

  /** Where the tail fits, missing nothing of the graph is missing nothing of memory. */
  lemma MissesNothingOfMemory(s: Search, mem: Snapshot, hits: seq<SpiderHit>)
    requires s.Valid() && Faithful(s.target, mem) && AllOrNothing(s.target, mem) && WholeWindows(s)
    requires s.cfg.structSize > 0 && TailFits(s) && MissesNothing(GraphOf(s, mem), hits)
    ensures MissesNothing(MemoryGraph(s, mem), hits)
  {
    var m := MemoryGraph(s, mem);
    AllFitIffTailFits(s);
    forall path, off | |path| <= m.maxDepth && Matching(m, path, off) ensures Lists(m, hits, path, off) {
      assert SlotOf(s, Walk(m, path).value, off);
      ListedInMemory(s, mem, hits, path, off);
    }
  }

  // ----- Where the tail does not fit ----------------------------------------------------

  /** Zeros from address 0 up to `n`. */
  ghost function ZerosTo(n: nat): (mem: Snapshot)
    ensures forall x :: x in mem <==> 0 <= x < n
    ensures forall x :: x in mem ==> mem[x] == 0
  {
    if n == 0 then map[] else ZerosTo(n - 1)[n - 1 := 0]
  }

  /** A target of zeros from address 0 up to `end`: a read gets all it asks for or fails. */
  function ZeroTarget(end: nat): Target {
    Target([], (a: nat, n: nat) => if a + n <= end then Got(seq(n, i => 0)) else Failed)
  }

  lemma ZeroTargetIsFaithful(end: nat)
    ensures Faithful(ZeroTarget(end), ZerosTo(end))
  {
    var t, mem := ZeroTarget(end), ZerosTo(end);
    forall a: nat, n: nat | t.read(a, n).Got? ensures Readable(mem, a, n) && t.read(a, n).bytes == Slice(mem, a, n) {
    }
  }

  lemma SamePage(x: nat, y: nat, pages: nat)
    ensures x / PAGE == y / PAGE && x < PAGE * pages ==> y < PAGE * pages
  {
  }

  lemma ZeroPagesAreWhole(end: nat, pages: nat)
    requires end == PAGE * pages
    ensures AllOrNothing(ZeroTarget(end), ZerosTo(end))
  {
    forall x: nat, y: nat | x / PAGE == y / PAGE ensures x < end ==> y < end {
      SamePage(x, y, pages);
    }
  }

  /** A search of the same shape over some target with whole pages and windows. */
  ghost predicate OfShape(z: Search, s: Search, mem: Snapshot) {
    && z.cfg == s.cfg && z.align == s.align && z.stride == s.stride
    && Faithful(z.target, mem) && AllOrNothing(z.target, mem) && WholeWindows(z)
  }

  /** A search of the same shape over zeros, from a root one past a lattice point, for
      any value. */
  lemma OverZeros(s: Search) returns (z: Search, mem: Snapshot)
    requires s.Valid() && s.cfg.structSize > 0
    ensures OfShape(z, s, mem) && z.root == 1 && (forall b :: z.matches(b))
    ensures Readable(mem, 1 + LastSlot(s), s.stride)
  {
    var pages := 1 + LastSlot(s) + s.stride;
    var end := PAGE * pages;
    z, mem := s.(target := ZeroTarget(end), root := 1, matches := b => true), ZerosTo(end);
    ZeroTargetIsFaithful(end);
    ZeroPagesAreWhole(end, pages);
  }

  /** In memory the root's last slot matches; the graph has no hit there. */
  lemma LastSlotMatches(z: Search, mem: Snapshot)
    requires z.Valid() && z.cfg.structSize > 0 && !TailFits(z) && OfShape(z, z, mem)
    requires z.root == 1 && (forall b :: z.matches(b)) && Readable(mem, 1 + LastSlot(z), z.stride)
    ensures Matching(MemoryGraph(z, mem), [], LastSlot(z))
    ensures HitAt(z, mem, 1, LastSlot(z)) == None
  {
    LastSlotIsSlot(z);
    SlotsAreMemory(z, mem, 1, LastSlot(z));
  }

  /** Where the tail does not fit, such a search does not list the match in its root's
      last slot. */
  lemma TailIsMissed(z: Search, mem: Snapshot)
    requires z.Valid() && z.cfg.structSize > 0 && !TailFits(z) && OfShape(z, z, mem)
    requires z.root == 1 && (forall b :: z.matches(b)) && Readable(mem, 1 + LastSlot(z), z.stride)
    ensures var g, m := GraphOf(z, mem), MemoryGraph(z, mem);
            Matching(m, [], LastSlot(z)) && !Lists(m, HitsOf(g, FramesTo(g, g.maxDepth)), [], LastSlot(z))
  {
    LastSlotMatches(z, mem);
    var g, m := GraphOf(z, mem), MemoryGraph(z, mem);
    assert g.hitAt(1, LastSlot(z)) == None;
    forall h | h in HitsOf(g, FramesTo(g, g.maxDepth)) ensures !IsHitFor(m, h, [], LastSlot(z)) {
      HitIsReal(g, g.maxDepth, h);
    }
  }

  /** Whatever the target, the root and the value: no match of memory is missed by a
      search that misses none of its graph. */
  ghost predicate NeverMisses(s: Search)
    requires s.Valid()
  {
    forall z, mem, hits :: OfShape(z, s, mem) && MissesNothing(GraphOf(z, mem), hits) ==>
      MissesNothing(MemoryGraph(z, mem), hits)
  }

  /** That is so exactly when the tail fits. */
  lemma NeverMissesIff(s: Search)
    requires s.Valid() && s.cfg.structSize > 0
    ensures NeverMisses(s) <==> TailFits(s)
  {
    if TailFits(s) {
      forall z, mem, hits | OfShape(z, s, mem) && MissesNothing(GraphOf(z, mem), hits)
        ensures MissesNothing(MemoryGraph(z, mem), hits)
      {
        MissesNothingOfMemory(z, mem, hits);
      }
    } else {
      var z, mem := OverZeros(s);
      TailIsMissed(z, mem);
      SearchMissesNothing(GraphOf(z, mem));
    }
  }

  /** In structs of one page at the default alignment: values of up to 13 bytes. */
  lemma DefaultTail(s: Search)
    requires s.Valid() && s.cfg.structSize == 4096 && s.align == 4 && s.cfg.pointerSize == 8
    ensures NeverMisses(s) <==> s.stride <= 13
  {
    NeverMissesIff(s);
  }
}
