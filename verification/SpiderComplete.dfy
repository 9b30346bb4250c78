/** Completeness of the breadth-first search of module `SpiderGraph`
    (crates/nemclass-scan/src/spider.rs): no matching slot within the depth limit
    is missed, and without deduplication no route to one is. */
module SpiderComplete {
  import opened Memory
  import opened SpiderGraph

  /** The hit that slot `off` of a frame gives. */
  function HitFor(g: Graph, f: Frame, off: nat, b: seq<Byte>): SpiderHit {
    SpiderHit(SpiderPath(g.root, f.path, off), b, b)
  }

  /** No matching slot of a frame is skipped. */
  lemma {:induction false} SlotHitsComplete(g: Graph, f: Frame, off: nat, at: nat)
    requires g.align > 0 && (f.addr + off) % g.align == 0 && Start(g.align, f.addr) <= off
    requires IsSlot(g, f.addr, at) && off <= at && g.hitAt(f.addr, at).Some?
    ensures HitFor(g, f, at, g.hitAt(f.addr, at).value) in SlotHits(g, f, off)
    decreases Start(g.align, f.addr) + g.structSize - off
  {
    NextAligned(f.addr + off, g.align);
    assert f.addr + (off + g.align) == f.addr + off + g.align;
    if at > off {
      if at < off + g.align {
        AlignedGap(f.addr + off, f.addr + at, g.align);
      }
      SlotHitsComplete(g, f, off + g.align, at);
    }
  }

  lemma {:induction false} HitsOfComplete(g: Graph, frames: seq<Frame>, f: Frame, at: nat)
    requires g.align > 0 && f in frames && IsSlot(g, f.addr, at) && g.hitAt(f.addr, at).Some?
    ensures HitFor(g, f, at, g.hitAt(f.addr, at).value) in HitsOf(g, frames)
  {
    if f == frames[0] {
      StartAligned(g.align, f.addr);
      SlotHitsComplete(g, f, Start(g.align, f.addr), at);
    } else {
      HitsOfComplete(g, frames[1..], f, at);
    }
  }

  // ----- Every route, without deduplication ----------------------------------------

  lemma {:induction false} SlotChildrenAll(g: Graph, f: Frame, off: nat, seen: set<nat>, at: nat)
    requires g.align > 0 && !g.dedupe && (f.addr + off) % g.align == 0 && Start(g.align, f.addr) <= off
    requires IsSlot(g, f.addr, at) && off <= at && g.childAt(f.addr, at).Some?
    ensures Child(f, at, g.childAt(f.addr, at).value) in SlotChildren(g, f, off, seen)
    decreases Start(g.align, f.addr) + g.structSize - off
  {
    NextAligned(f.addr + off, g.align);
    assert f.addr + (off + g.align) == f.addr + off + g.align;
    if at > off {
      if at < off + g.align {
        AlignedGap(f.addr + off, f.addr + at, g.align);
      }
      SlotChildrenAll(g, f, off + g.align, if g.childAt(f.addr, off).Some? then seen + {g.childAt(f.addr, off).value} else seen, at);
    }
  }

  lemma {:induction false} NextLevelAll(g: Graph, frames: seq<Frame>, seen: set<nat>, f: Frame, at: nat)
    requires g.align > 0 && !g.dedupe && f in frames && f.depth < g.maxDepth
    requires IsSlot(g, f.addr, at) && g.childAt(f.addr, at).Some?
    ensures Child(f, at, g.childAt(f.addr, at).value) in NextLevel(g, frames, seen)
  {
    if f == frames[0] {
      StartAligned(g.align, f.addr);
      SlotChildrenAll(g, f, Start(g.align, f.addr), seen, at);
    } else {
      NextLevelAll(g, frames[1..], seen + Addrs(Children(g, frames[0], seen)), f, at);
    }
  }

  /** Without deduplication every path within the depth limit has its own frame. */
  lemma {:induction false} EveryRouteHasAFrame(g: Graph, path: seq<nat>)
    requires g.align > 0 && !g.dedupe && |path| <= g.maxDepth && Walk(g, path).Some?
    ensures Frame(Walk(g, path).value, |path|, path) in Level(g, |path|)
    decreases |path|
  {
    if path != [] {
      var n := |path| - 1;
      EveryRouteHasAFrame(g, path[..n]);
      var f := Frame(Walk(g, path[..n]).value, n, path[..n]);
      assert path[..n] + [path[n]] == path;
      NextLevelAll(g, Level(g, n), Seen(g, n), f, path[n]);
      assert Level(g, n + 1) == NextLevel(g, Level(g, n), Seen(g, n));
    }
  }

  lemma {:induction false} LevelInFrames(g: Graph, j: nat, d: nat, f: Frame)
    requires g.align > 0 && j <= d && f in Level(g, j)
    ensures f in FramesTo(g, d)
    decreases d
  {
    if j < d {
      LevelInFrames(g, j, d - 1, f);
      assert FramesTo(g, d) == FramesTo(g, d - 1) + Level(g, d);
    } else if d > 0 {
      assert FramesTo(g, d) == FramesTo(g, d - 1) + Level(g, d);
    }
  }

  // ----- Nothing is missed --------------------------------------------------------------

  /** `path` leads to a struct whose slot `off` matches. */
  ghost predicate Matching(g: Graph, path: seq<nat>, off: nat)
    requires g.align > 0
  {
    Walk(g, path).Some? && IsSlot(g, Walk(g, path).value, off) && g.hitAt(Walk(g, path).value, off).Some?
  }

  /** A hit for the slot `off` of the struct `path` leads to, by a path no longer;
      without deduplication by that very path. */
  ghost predicate Lists(g: Graph, hits: seq<SpiderHit>, path: seq<nat>, off: nat)
    requires g.align > 0 && Matching(g, path, off)
  {
    exists h :: h in hits && IsHitFor(g, h, path, off)
  }

  ghost predicate IsHitFor(g: Graph, h: SpiderHit, path: seq<nat>, off: nat)
    requires g.align > 0 && Matching(g, path, off)
  {
    var parents := h.path.parentOffsets;
    && h.path.root == g.root && h.path.offset == off && h.current == g.hitAt(Walk(g, path).value, off).value
    && Walk(g, parents) == Walk(g, path) && |parents| <= |path| && (!g.dedupe ==> parents == path)
  }

  /** Every matching slot of every struct within the depth limit is listed. */
  ghost predicate MissesNothing(g: Graph, hits: seq<SpiderHit>)
    requires g.align > 0
  {
    forall path, off :: |path| <= g.maxDepth && Matching(g, path, off) ==> Lists(g, hits, path, off)
  }

  /** The frame the search examines for the struct a path leads to. */
  lemma FrameFor(g: Graph, path: seq<nat>) returns (f: Frame)
    requires g.align > 0 && |path| <= g.maxDepth && Walk(g, path).Some?
    ensures f in FramesTo(g, g.maxDepth) && Some(f.addr) == Walk(g, path) == Walk(g, f.path)
    ensures |f.path| <= |path| && (!g.dedupe ==> f.path == path)
  {
    if g.dedupe {
      ExaminesReachableOnce(g, Walk(g, path).value);
      f :| f in FramesTo(g, g.maxDepth) && f.addr == Walk(g, path).value;
    } else {
      EveryRouteHasAFrame(g, path);
      f := Frame(Walk(g, path).value, |path|, path);
      LevelInFrames(g, |path|, g.maxDepth, f);
    }
  }

  lemma SearchMissesNothing(g: Graph)
    requires g.align > 0
    ensures MissesNothing(g, HitsOf(g, FramesTo(g, g.maxDepth)))
  {
    var hits := HitsOf(g, FramesTo(g, g.maxDepth));
    forall path, off | |path| <= g.maxDepth && Matching(g, path, off) ensures Lists(g, hits, path, off)
    {
      var f := FrameFor(g, path);
      HitsOfComplete(g, FramesTo(g, g.maxDepth), f, off);
      var h := HitFor(g, f, off, g.hitAt(f.addr, off).value);
      assert h in hits && IsHitFor(g, h, path, off);
    }
  }
}
