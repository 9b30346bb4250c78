/** The structure spider from the outside (crates/nemclass-scan/src/spider.rs):
    what is asked of a search, in terms of memory alone, and that the search
    answers it. */
module SpiderScan {
  import opened Memory
  import opened SpiderWindow
  import opened SpiderGraph
  import opened SpiderComplete
  import opened ValueType
  import opened Spider
  import opened SpiderMemory
  import PointerScan

  // ----- The question ------------------------------------------------------------

  /** Everything the answer depends on. */
  datatype Question = Question(mem: Snapshot, regions: seq<Region>, root: nat, cfg: SpiderConfig,
                               compare: ScanCompareType, needle: Needle)
  {
    /** Distance of the slots: as configured, or with 0 the value's own width. */
    function Step(): nat {
      if cfg.alignment == 0 then needle.stride else cfg.alignment
    }

    /** What one struct's read asks for. */
    function Window(): nat {
      cfg.Clamped().structSize + cfg.Clamped().pointerSize + Step()
    }

    /** Even the last slot of any struct has its value inside that read. */
    predicate TailFits()
      requires needle.stride > 0
    {
      var c := cfg.Clamped();
      Step() * ((c.structSize - 1) / Step()) + needle.stride <= c.structSize + c.pointerSize + 1
    }
  }

  /** `off` leads to an aligned address of the struct at `a`, which extends `structSize`
      bytes from its first one. */
  ghost predicate SlotAt(q: Question, a: nat, off: nat)
    requires q.Step() > 0
  {
    (a + off) % q.Step() == 0
    && NextMultiple(a, q.Step()) <= a + off < NextMultiple(a, q.Step()) + q.cfg.Clamped().structSize
  }

  /** The struct that the pointer at slot `off` of the struct at `a` leads to: it is
      itself aligned, readable, not null, not to the same struct, and mapped. */
  ghost function PointsTo(q: Question, a: nat, off: nat): Option<nat> {
    var psize := q.cfg.Clamped().pointerSize;
    if (a + off) % psize == 0 && Readable(q.mem, a + off, psize) then
      var w := WordAt(q.mem, a + off, psize);
      if w != 0 && w != a && PointerScan.Mapped(q.regions)(w) then Some(w) else None
    else None
  }

  /** The struct a path from the root leads to. */
  ghost function Leads(q: Question, path: seq<nat>): Option<nat>
    requires q.Step() > 0
  {
    if path == [] then Some(q.root)
    else
      var n := |path| - 1;
      match Leads(q, path[..n])
      case None => None
      case Some(a) => if SlotAt(q, a, path[n]) then PointsTo(q, a, path[n]) else None
  }

  /** The path leads to a struct whose slot `off` holds what is searched for. */
  ghost predicate Holds(q: Question, path: seq<nat>, off: nat)
    requires q.Step() > 0
  {
    match Leads(q, path)
    case None => false
    case Some(a) =>
      && SlotAt(q, a, off) && Readable(q.mem, a + off, q.needle.stride)
      && q.needle.test(q.compare, Slice(q.mem, a + off, q.needle.stride), None)
  }

  /** A hit is right: its path starts at the root, is not too long, resolves in memory
      to a slot that holds what is searched for, and carries the bytes there. */
  ghost predicate IsRight(q: Question, h: SpiderHit)
    requires q.Step() > 0
  {
    var at := Resolve(h.path, PointerScan.ReadPtr(q.mem, q.cfg.Clamped().pointerSize));
    && h.path.root == q.root && |h.path.parentOffsets| <= q.cfg.Clamped().maxDepth
    && Holds(q, h.path.parentOffsets, h.path.offset)
    && at == Some(Leads(q, h.path.parentOffsets).value + h.path.offset)
    && Readable(q.mem, at.value, q.needle.stride)
    && h.current == h.previous == Slice(q.mem, at.value, q.needle.stride)
    && q.needle.test(q.compare, h.current, None)
  }

  /** There is a hit for the value, by a path to the same struct that is no longer, and
      without deduplication by that very path. */
  ghost predicate Answered(q: Question, hits: seq<SpiderHit>, path: seq<nat>, off: nat)
    requires q.Step() > 0
  {
    exists h :: h in hits && Answers(q, h, path, off)
  }

  ghost predicate Answers(q: Question, h: SpiderHit, path: seq<nat>, off: nat)
    requires q.Step() > 0
  {
    var parents := h.path.parentOffsets;
    && h.path.offset == off && Leads(q, parents) == Leads(q, path) && |parents| <= |path|
    && (!q.cfg.dedupeNodes ==> parents == path)
  }

  /** Every value within the depth limit has its hit. */
  ghost predicate AllAnswered(q: Question, hits: seq<SpiderHit>)
    requires q.Step() > 0
  {
    forall path, off :: |path| <= q.cfg.Clamped().maxDepth && Holds(q, path, off) ==> Answered(q, hits, path, off)
  }

  ghost predicate AllRight(q: Question, hits: seq<SpiderHit>)
    requires q.Step() > 0
  {
    forall h :: h in hits ==> IsRight(q, h)
  }

  // ----- The search for it -----------------------------------------------------------

  function SearchFor(t: Target, root: nat, cfg: SpiderConfig, compare: ScanCompareType, needle: Needle): (s: Search)
    requires needle.stride > 0
    ensures s.Valid()
  {
    var c := cfg.Clamped();
    Search(t, root, c, if c.alignment == 0 then needle.stride else c.alignment, needle.stride,
           bytes => needle.test(compare, bytes, None), PointerScan.Mapped(t.regions))
  }

  /** `s` searches a target of the question's regions for just what it asks. */
  ghost predicate Asks(q: Question, s: Search) {
    && s.Valid() && q.needle.stride > 0 && q.Step() > 0
    && s.root == q.root && s.cfg == q.cfg.Clamped() && s.align == q.Step() && s.stride == q.needle.stride
    && (forall b :: s.matches(b) <==> q.needle.test(q.compare, b, None))
    && s.mapped == PointerScan.Mapped(q.regions)
  }

  /** The path leads where the graph of memory says. */
  lemma {:induction false} LeadsIsWalk(q: Question, s: Search, path: seq<nat>)
    requires Asks(q, s)
    ensures Leads(q, path) == Walk(MemoryGraph(s, q.mem), path)
    decreases |path|
  {
    if path != [] {
      LeadsIsWalk(q, s, path[..|path| - 1]);
    }
  }

  /** What the graph of a target says is so in memory. */
  lemma {:induction false} WalkIsLeads(q: Question, s: Search, path: seq<nat>)
    requires Asks(q, s) && Walk(GraphOf(s, q.mem), path).Some?
    ensures Leads(q, path) == Walk(GraphOf(s, q.mem), path)
    decreases |path|
  {
    if path != [] {
      var n := |path| - 1;
      WalkIsLeads(q, s, path[..n]);
      ChildIsPointer(q, s, Leads(q, path[..n]).value, path[n]);
    }
  }

  lemma ChildIsPointer(q: Question, s: Search, a: nat, off: nat)
    requires Asks(q, s)
    ensures ChildAt(s, q.mem, a, off).Some? ==> PointsTo(q, a, off) == ChildAt(s, q.mem, a, off)
  {
  }

  /** Every hit of the search is right. */
  lemma HitIsRight(q: Question, s: Search, h: SpiderHit)
    requires Asks(q, s) && Addressable(q.mem)
    requires h in HitsOf(GraphOf(s, q.mem), FramesTo(GraphOf(s, q.mem), s.cfg.maxDepth))
    ensures IsRight(q, h)
  {
    var g := GraphOf(s, q.mem);
    HitIsReal(g, g.maxDepth, h);
    HitsAreReal(s, q.mem, g, h);
    WalkIsLeads(q, s, h.path.parentOffsets);
    HitResolves(s, q.mem, h);
  }

  /** It resolves to its slot. */
  lemma HitResolves(s: Search, mem: Snapshot, h: SpiderHit)
    requires s.Valid() && Addressable(mem)
    requires h in HitsOf(GraphOf(s, mem), FramesTo(GraphOf(s, mem), s.cfg.maxDepth))
    ensures Walk(GraphOf(s, mem), h.path.parentOffsets).Some?
    ensures Resolve(h.path, PointerScan.ReadPtr(mem, s.cfg.pointerSize))
         == Some(Walk(GraphOf(s, mem), h.path.parentOffsets).value + h.path.offset)
  {
    var g := GraphOf(s, mem);
    HitIsReal(g, g.maxDepth, h);
    GraphEdgesAreReads(s, mem, g);
    WalkIsHops(g, PointerScan.ReadPtr(mem, s.cfg.pointerSize), h.path.parentOffsets);
    var a, off := Walk(g, h.path.parentOffsets).value, h.path.offset;
    assert g.hitAt(a, off) == HitAt(s, mem, a, off);
    assert a + off in mem;
  }

  /** What misses nothing of memory answers the question. */
  lemma NothingMissed(q: Question, s: Search, hits: seq<SpiderHit>)
    requires Asks(q, s) && MissesNothing(MemoryGraph(s, q.mem), hits)
    ensures AllAnswered(q, hits)
  {
    var m := MemoryGraph(s, q.mem);
    forall path, off | |path| <= q.cfg.Clamped().maxDepth && Holds(q, path, off) ensures Answered(q, hits, path, off) {
      LeadsIsWalk(q, s, path);
      assert Matching(m, path, off) && Lists(m, hits, path, off);
      var h :| h in hits && IsHitFor(m, h, path, off);
      LeadsIsWalk(q, s, h.path.parentOffsets);
      assert Answers(q, h, path, off);
    }
  }

  // ----- The public entry point --------------------------------------------------------

  /** The checks made before any memory is read, in the source's order. */
  function Validate(ty: ScanValueType, compare: ScanCompareType, needle: Option<Needle>): Option<ScanError> {
    if compare.IsBaseline() then Some(CompareIsFirstScanOnly)
    else if compare.NeedsPrevious() then Some(CompareNeedsPrevious)
    else if needle.None? then Some(MissingNeedle)
    else if needle.value.ty != ty then Some(NeedleTypeMismatch)
    else if needle.value.stride == 0 then Some(NoStride)
    else None
  }

  /** A spider takes the compares that look at one value, with a needle of the type and
      of some width. */
  lemma AcceptsIff(ty: ScanValueType, compare: ScanCompareType, needle: Option<Needle>)
    ensures Validate(ty, compare, needle).None? <==>
      && compare in {Exact, NotEqual, GreaterThan, LessThan, Between}
      && needle.Some? && needle.value.ty == ty && needle.value.stride > 0
  {
  }

  /** A read of a whole window returns all of it or nothing. */
  ghost predicate ReadsWholeWindows(t: Target, len: nat) {
    forall a: nat {:trigger t.read(a, len)} ::
      t.read(a, len).Got? && t.read(a, len).bytes != [] ==> |t.read(a, len).bytes| == len
  }

  method Scan(t: Target, ghost mem: Snapshot, root: nat, cfg: SpiderConfig, ty: ScanValueType, compare: ScanCompareType,
              needle: Option<Needle>, keepGoing: nat -> bool) returns (o: Outcome)
    requires Faithful(t, mem) && Addressable(mem)
    ensures Validate(ty, compare, needle).Some? ==> o == Refused(Validate(ty, compare, needle).value)
    ensures Validate(ty, compare, needle).None? && o.Refused? ==>
      var s := SearchFor(t, root, cfg, compare, needle.value);
      o.error == ScanCancelled && exists n: nat :: n <= |Looked(GraphOf(s, mem), s)| && Dismissed(keepGoing, n)
    ensures o.Finished? ==>
      var s := SearchFor(t, root, cfg, compare, needle.value);
      && Reports(GraphOf(s, mem), s, o.result) && Watched(keepGoing, o.result.nodesVisited)
      && (!o.result.truncated ==> MissesNothing(GraphOf(s, mem), o.result.hits))
    ensures o.Finished? ==>
      var q := Question(mem, t.regions, root, cfg, compare, needle.value);
      && AllRight(q, o.result.hits) && ShallowFirst(o.result.hits) && WithinCaps(q, o.result)
      && (!o.result.truncated && AllOrNothing(t, mem) && ReadsWholeWindows(t, q.Window()) && q.TailFits() ==>
            AllAnswered(q, o.result.hits))
  {
    var refusal := Validate(ty, compare, needle);
    if refusal.Some? {
      return Refused(refusal.value);
    }
    var s := SearchFor(t, root, cfg, compare, needle.value);
    ghost var g := GraphOf(s, mem);
    var r := Run(s, mem, g, keepGoing);
    if r.None? {
      return Refused(ScanCancelled);
    }
    o := Finished(r.value);
    ReportsPrefix(g, s, r.value);
    SearchMissesNothing(g);
    ghost var q := Question(mem, t.regions, root, cfg, compare, needle.value);
    ReportsRight(q, s, r.value);
    if !r.value.truncated && AllOrNothing(t, mem) && ReadsWholeWindows(t, q.Window()) && q.TailFits() {
      ReportsAll(q, s, r.value.hits);
    }
  }

  /** The caps are kept, and a truncated result has reached one of them. */
  ghost predicate WithinCaps(q: Question, r: SpiderScanResult) {
    var c := q.cfg.Clamped();
    && |r.hits| <= c.maxResults && r.nodesVisited <= c.maxNodes
    && (r.truncated ==> |r.hits| == c.maxResults || r.nodesVisited == c.maxNodes)
  }

  lemma ReportsRight(q: Question, s: Search, r: SpiderScanResult)
    requires Asks(q, s) && Addressable(q.mem) && Reports(GraphOf(s, q.mem), s, r)
    ensures AllRight(q, r.hits) && ShallowFirst(r.hits) && WithinCaps(q, r)
  {
    var g := GraphOf(s, q.mem);
    ReportsPrefix(g, s, r);
    HitsShallowFirst(g, g.maxDepth);
    var all := HitsOf(g, FramesTo(g, g.maxDepth));
    forall h | h in r.hits ensures IsRight(q, h) {
      InPrefix(r.hits, all, h);
      HitIsRight(q, s, h);
    }
  }

  lemma InPrefix(some: seq<SpiderHit>, all: seq<SpiderHit>, h: SpiderHit)
    requires some <= all && h in some
    ensures h in all
  {
    var i :| 0 <= i < |some| && some[i] == h;
    assert all[i] == h;
  }

  lemma ReportsAll(q: Question, s: Search, hits: seq<SpiderHit>)
    requires Asks(q, s) && MissesNothing(GraphOf(s, q.mem), hits) && q.TailFits()
    requires Faithful(s.target, q.mem) && AllOrNothing(s.target, q.mem) && ReadsWholeWindows(s.target, q.Window())
    ensures AllAnswered(q, hits)
  {
    MissesNothingOfMemory(s, q.mem, hits);
    NothingMissed(q, s, hits);
  }
}
