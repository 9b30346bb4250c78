/** The structure spider as a breadth-first search over an abstract object
    graph (crates/nemclass-scan/src/spider.rs): which structs it examines, by
    which path, and in which order. The graph's two edge functions are supplied
    by the memory-backed search. */
module SpiderGraph {
  import opened Memory

  /** Offsets dereferenced from the root, then the final, undereferenced one. */
  datatype SpiderPath = SpiderPath(root: nat, parentOffsets: seq<nat>, offset: nat)

  datatype SpiderHit = SpiderHit(path: SpiderPath, current: seq<Byte>, previous: seq<Byte>)

  datatype Frame = Frame(addr: nat, depth: nat, path: seq<nat>)

  /** `hitAt(a, off)`: the bytes at a matching slot; `childAt(a, off)`: the
      struct a pointer slot leads to. */
  datatype Graph = Graph(root: nat, align: nat, structSize: nat, maxDepth: nat, dedupe: bool,
                         hitAt: (nat, nat) -> Option<seq<Byte>>, childAt: (nat, nat) -> Option<nat>)

  /** First slot: the first absolutely aligned address, as an offset from the
      raw struct base. */
  function Start(align: nat, a: nat): nat
    requires align > 0
  {
    NextMultiple(a, align) - a
  }

  ghost predicate IsSlot(g: Graph, a: nat, off: nat)
    requires g.align > 0
  {
    Start(g.align, a) <= off < Start(g.align, a) + g.structSize && (a + off) % g.align == 0
  }

  // ----- One struct --------------------------------------------------------

  /** Hits at the slots `off`, `off + align`, ... of a frame. */
  function SlotHits(g: Graph, f: Frame, off: nat): seq<SpiderHit>
    requires g.align > 0
    decreases Start(g.align, f.addr) + g.structSize - off
  {
    if off >= Start(g.align, f.addr) + g.structSize then []
    else
      var rest := SlotHits(g, f, off + g.align);
      match g.hitAt(f.addr, off)
      case None => rest
      case Some(b) => [SpiderHit(SpiderPath(g.root, f.path, off), b, b)] + rest
  }

  function FrameHits(g: Graph, f: Frame): seq<SpiderHit>
    requires g.align > 0
  {
    SlotHits(g, f, Start(g.align, f.addr))
  }

  function Child(f: Frame, off: nat, w: nat): Frame {
    Frame(w, f.depth + 1, f.path + [off])
  }

  /** Children found from slot `off` on; `seen` are the structs already known. */
  function SlotChildren(g: Graph, f: Frame, off: nat, seen: set<nat>): seq<Frame>
    requires g.align > 0
    decreases Start(g.align, f.addr) + g.structSize - off
  {
    if off >= Start(g.align, f.addr) + g.structSize then []
    else
      match g.childAt(f.addr, off)
      case None => SlotChildren(g, f, off + g.align, seen)
      case Some(w) =>
        if g.dedupe && w in seen then SlotChildren(g, f, off + g.align, seen)
        else [Child(f, off, w)] + SlotChildren(g, f, off + g.align, seen + {w})
  }

  function Children(g: Graph, f: Frame, seen: set<nat>): seq<Frame>
    requires g.align > 0
  {
    if f.depth < g.maxDepth then SlotChildren(g, f, Start(g.align, f.addr), seen) else []
  }

  // ----- Levels ----------------------------------------------------------------

  function Addrs(frames: seq<Frame>): set<nat> {
    set f | f in frames :: f.addr
  }

  function NextLevel(g: Graph, frames: seq<Frame>, seen: set<nat>): seq<Frame>
    requires g.align > 0
  {
    if frames == [] then []
    else
      var c := Children(g, frames[0], seen);
      c + NextLevel(g, frames[1..], seen + Addrs(c))
  }

  function HitsOf(g: Graph, frames: seq<Frame>): seq<SpiderHit>
    requires g.align > 0
  {
    if frames == [] then [] else FrameHits(g, frames[0]) + HitsOf(g, frames[1..])
  }

  /** The search after `d` levels: the frames to examine next, the structs
      known so far, and every frame up to and including the frontier. */
  datatype Progress = Progress(frontier: seq<Frame>, seen: set<nat>, frames: seq<Frame>)

  function Advance(g: Graph, p: Progress): Progress
    requires g.align > 0
  {
    var next := NextLevel(g, p.frontier, p.seen);
    Progress(next, p.seen + Addrs(next), p.frames + next)
  }

  function After(g: Graph, d: nat): Progress
    requires g.align > 0
  {
    if d == 0 then Progress([Frame(g.root, 0, [])], {g.root}, [Frame(g.root, 0, [])])
    else Advance(g, After(g, d - 1))
  }

  function Level(g: Graph, d: nat): seq<Frame>
    requires g.align > 0
  {
    After(g, d).frontier
  }

  function Seen(g: Graph, d: nat): set<nat>
    requires g.align > 0
  {
    After(g, d).seen
  }

  /** Every frame of levels `0..d`, in the order they are examined. */
  function FramesTo(g: Graph, d: nat): seq<Frame>
    requires g.align > 0
  {
    After(g, d).frames
  }

  // ----- Paths -------------------------------------------------------------------

  /** The struct a path of pointer slots leads to. */
  ghost function Walk(g: Graph, path: seq<nat>): Option<nat>
    requires g.align > 0
  {
    if path == [] then Some(g.root)
    else
      var n := |path| - 1;
      match Walk(g, path[..n])
      case None => None
      case Some(a) => if IsSlot(g, a, path[n]) then g.childAt(a, path[n]) else None
  }

  ghost predicate DistinctAddrs(frames: seq<Frame>) {
    forall i, j :: 0 <= i < j < |frames| ==> frames[i].addr != frames[j].addr
  }

  /** What the children of one frame look like. */
  ghost predicate ChildrenOf(g: Graph, f: Frame, seen: set<nat>, frames: seq<Frame>)
    requires g.align > 0
  {
    && (forall c :: c in frames ==> ChildOf(g, f, c) && (g.dedupe ==> c.addr !in seen))
    && (g.dedupe ==> DistinctAddrs(frames))
  }

  ghost predicate ChildOf(g: Graph, f: Frame, c: Frame)
    requires g.align > 0
  {
    c.path != [] && var off := c.path[|c.path| - 1];
    IsSlot(g, f.addr, off) && g.childAt(f.addr, off) == Some(c.addr) && c == Child(f, off, c.addr)
  }

  lemma {:induction false} SlotChildrenSound(g: Graph, f: Frame, off: nat, seen: set<nat>)
    requires g.align > 0 && (f.addr + off) % g.align == 0 && Start(g.align, f.addr) <= off
    ensures ChildrenOf(g, f, seen, SlotChildren(g, f, off, seen))
    decreases Start(g.align, f.addr) + g.structSize - off
  {
    if off < Start(g.align, f.addr) + g.structSize {
      NextAligned(f.addr + off, g.align);
      assert f.addr + (off + g.align) == f.addr + off + g.align;
      match g.childAt(f.addr, off)
      case None => SlotChildrenSound(g, f, off + g.align, seen);
      case Some(w) =>
        if g.dedupe && w in seen {
          SlotChildrenSound(g, f, off + g.align, seen);
        } else {
          SlotChildrenSound(g, f, off + g.align, seen + {w});
          var rest := SlotChildren(g, f, off + g.align, seen + {w});
          assert forall i :: 0 <= i < |rest| ==> rest[i] in rest;
        }
    }
  }

  /** No pointer slot is missed: its struct was known already or is a new frame. */
  lemma {:induction false} SlotChildrenComplete(g: Graph, f: Frame, off: nat, seen: set<nat>, at: nat)
    requires g.align > 0 && (f.addr + off) % g.align == 0 && Start(g.align, f.addr) <= off
    requires IsSlot(g, f.addr, at) && off <= at && g.childAt(f.addr, at).Some?
    ensures g.childAt(f.addr, at).value in seen + Addrs(SlotChildren(g, f, off, seen))
    decreases Start(g.align, f.addr) + g.structSize - off
  {
    NextAligned(f.addr + off, g.align);
    assert f.addr + (off + g.align) == f.addr + off + g.align;
    if at == off {
      var w := g.childAt(f.addr, off).value;
      if !(g.dedupe && w in seen) {
        assert Child(f, off, w) in SlotChildren(g, f, off, seen);
      }
    } else {
      if at < off + g.align {
        AlignedGap(f.addr + off, f.addr + at, g.align);
      }
      match g.childAt(f.addr, off)
      case None => SlotChildrenComplete(g, f, off + g.align, seen, at);
      case Some(w) =>
        if g.dedupe && w in seen {
          SlotChildrenComplete(g, f, off + g.align, seen, at);
        } else {
          SlotChildrenComplete(g, f, off + g.align, seen + {w}, at);
          var rest := SlotChildren(g, f, off + g.align, seen + {w});
          AddrsCons(Child(f, off, w), rest);
        }
    }
  }

  lemma AddrsCons(f: Frame, rest: seq<Frame>)
    ensures Addrs([f] + rest) == {f.addr} + Addrs(rest)
  {
    assert forall x :: x in [f] + rest <==> x == f || x in rest;
  }

  lemma AddrsConcat(a: seq<Frame>, b: seq<Frame>)
    ensures Addrs(a + b) == Addrs(a) + Addrs(b)
  {
    assert forall x :: x in a + b <==> x in a || x in b;
  }

  lemma StartAligned(align: nat, a: nat)
    requires align > 0
    ensures (a + Start(align, a)) % align == 0
  {
    NextMultipleIsNext(a, align);
  }

  // ----- One level --------------------------------------------------------------

  /** Every frame of `next` is a child of a frame of `frames`, new if deduping. */
  ghost predicate ChildrenOfLevel(g: Graph, frames: seq<Frame>, seen: set<nat>, next: seq<Frame>)
    requires g.align > 0
  {
    && (forall c :: c in next ==> exists f :: f in frames && f.depth < g.maxDepth && ChildOf(g, f, c))
    && (g.dedupe ==> forall c :: c in next ==> c.addr !in seen)
    && (g.dedupe ==> DistinctAddrs(next))
  }

  lemma {:induction false} NextLevelSound(g: Graph, frames: seq<Frame>, seen: set<nat>)
    requires g.align > 0
    ensures ChildrenOfLevel(g, frames, seen, NextLevel(g, frames, seen))
  {
    if frames != [] {
      var f := frames[0];
      var c := Children(g, f, seen);
      StartAligned(g.align, f.addr);
      if f.depth < g.maxDepth {
        SlotChildrenSound(g, f, Start(g.align, f.addr), seen);
      }
      NextLevelSound(g, frames[1..], seen + Addrs(c));
      var rest := NextLevel(g, frames[1..], seen + Addrs(c));
      JoinLevels(g, f, frames, seen, c, rest);
    }
  }

  lemma JoinLevels(g: Graph, f: Frame, frames: seq<Frame>, seen: set<nat>, c: seq<Frame>, rest: seq<Frame>)
    requires g.align > 0 && frames != [] && f == frames[0]
    requires f.depth < g.maxDepth || c == []
    requires ChildrenOf(g, f, seen, c)
    requires ChildrenOfLevel(g, frames[1..], seen + Addrs(c), rest)
    ensures ChildrenOfLevel(g, frames, seen, c + rest)
  {
    var next := c + rest;
    forall x | x in next
      ensures (exists p :: p in frames && p.depth < g.maxDepth && ChildOf(g, p, x)) && (g.dedupe ==> x.addr !in seen)
    {
      if x in c {
        assert f in frames && ChildOf(g, f, x);
      } else {
        var p :| p in frames[1..] && p.depth < g.maxDepth && ChildOf(g, p, x);
        assert p in frames;
      }
    }
    if g.dedupe {
      forall i, j | 0 <= i < j < |next| ensures next[i].addr != next[j].addr {
        if i < |c| <= j {
          assert c[i] in c && c[i].addr in Addrs(c);
          assert rest[j - |c|] in rest;
        }
      }
    }
  }

  lemma {:induction false} NextLevelComplete(g: Graph, frames: seq<Frame>, seen: set<nat>, f: Frame, off: nat)
    requires g.align > 0 && f in frames && f.depth < g.maxDepth
    requires IsSlot(g, f.addr, off) && g.childAt(f.addr, off).Some?
    ensures g.childAt(f.addr, off).value in seen + Addrs(NextLevel(g, frames, seen))
  {
    var c := Children(g, frames[0], seen);
    var rest := NextLevel(g, frames[1..], seen + Addrs(c));
    AddrsConcat(c, rest);
    if f == frames[0] {
      StartAligned(g.align, f.addr);
      SlotChildrenComplete(g, f, Start(g.align, f.addr), seen, off);
    } else {
      NextLevelComplete(g, frames[1..], seen + Addrs(c), f, off);
    }
  }

  // ----- The whole search ----------------------------------------------------------

  lemma ParentOf(g: Graph, frames: seq<Frame>, seen: set<nat>, c: Frame) returns (f: Frame)
    requires g.align > 0 && c in NextLevel(g, frames, seen)
    ensures f in frames && f.depth < g.maxDepth && ChildOf(g, f, c)
    ensures g.dedupe ==> c.addr !in seen
  {
    NextLevelSound(g, frames, seen);
    f :| f in frames && f.depth < g.maxDepth && ChildOf(g, f, c);
  }

  lemma ChildWalk(g: Graph, f: Frame, c: Frame)
    requires g.align > 0 && Walk(g, f.path) == Some(f.addr) && ChildOf(g, f, c)
    ensures Walk(g, c.path) == Some(c.addr)
  {
    assert c.path[..|c.path| - 1] == f.path;
  }

  /** Depth, path and novelty of the frames of level `d`. */
  lemma {:induction false} LevelSound(g: Graph, d: nat, f: Frame)
    requires g.align > 0 && f in Level(g, d)
    ensures f.depth == d == |f.path| && Walk(g, f.path) == Some(f.addr)
    ensures d <= g.maxDepth
    ensures g.dedupe && d > 0 ==> f.addr !in Seen(g, d - 1)
    decreases d
  {
    if d > 0 {
      var p := ParentOf(g, Level(g, d - 1), Seen(g, d - 1), f);
      LevelSound(g, d - 1, p);
      ChildWalk(g, p, f);
    }
  }

  lemma LevelDistinct(g: Graph, d: nat)
    requires g.align > 0 && g.dedupe
    ensures DistinctAddrs(Level(g, d))
  {
    if d > 0 {
      NextLevelSound(g, Level(g, d - 1), Seen(g, d - 1));
    }
  }

  lemma {:induction false} SeenGrows(g: Graph, m: nat, n: nat, a: nat)
    requires g.align > 0 && m <= n && a in Seen(g, m)
    ensures a in Seen(g, n)
    decreases n
  {
    if m < n {
      SeenGrows(g, m, n - 1, a);
    }
  }

  lemma {:induction false} FrameOf(g: Graph, d: nat, a: nat) returns (j: nat, f: Frame)
    requires g.align > 0 && a in Seen(g, d)
    ensures j <= d && f in Level(g, j) && f.addr == a
    decreases d
  {
    if d == 0 {
      j, f := 0, Frame(g.root, 0, []);
    } else if a in Seen(g, d - 1) {
      j, f := FrameOf(g, d - 1, a);
    } else {
      j := d;
      f :| f in Level(g, d) && f.addr == a;
    }
  }

  lemma ChildSeen(g: Graph, j: nat, f: Frame, off: nat)
    requires g.align > 0 && f in Level(g, j) && j < g.maxDepth
    requires IsSlot(g, f.addr, off) && g.childAt(f.addr, off).Some?
    ensures g.childAt(f.addr, off).value in Seen(g, j + 1)
  {
    LevelSound(g, j, f);
    NextLevelComplete(g, Level(g, j), Seen(g, j), f, off);
    assert Level(g, j + 1) == NextLevel(g, Level(g, j), Seen(g, j));
  }

  lemma SeenStep(g: Graph, n: nat, a: nat, off: nat)
    requires g.align > 0 && a in Seen(g, n) && n < g.maxDepth
    requires IsSlot(g, a, off) && g.childAt(a, off).Some?
    ensures g.childAt(a, off).value in Seen(g, n + 1)
  {
    var j, f := FrameOf(g, n, a);
    ChildSeen(g, j, f, off);
    SeenGrows(g, j + 1, n + 1, g.childAt(a, off).value);
  }

  /** Every struct some path of at most `maxDepth` hops leads to is seen by then. */
  lemma {:induction false} PathsAreSeen(g: Graph, path: seq<nat>)
    requires g.align > 0 && |path| <= g.maxDepth && Walk(g, path).Some?
    ensures Walk(g, path).value in Seen(g, |path|)
    decreases |path|
  {
    if path != [] {
      var n := |path| - 1;
      PathsAreSeen(g, path[..n]);
      SeenStep(g, n, Walk(g, path[..n]).value, path[n]);
    }
  }

  /** A frame's path has the fewest hops of any path to its struct. */
  lemma ShortestPath(g: Graph, d: nat, f: Frame, path: seq<nat>)
    requires g.align > 0 && g.dedupe && f in Level(g, d)
    requires Walk(g, path) == Some(f.addr)
    ensures |f.path| <= |path|
  {
    LevelSound(g, d, f);
    if |path| < d {
      PathsAreSeen(g, path);
      SeenGrows(g, |path|, d - 1, f.addr);
    }
  }

  lemma {:induction false} LevelOf(g: Graph, d: nat, f: Frame) returns (j: nat)
    requires g.align > 0 && f in FramesTo(g, d)
    ensures j <= d && f in Level(g, j)
    decreases d
  {
    if d == 0 || f in Level(g, d) {
      j := d;
    } else {
      j := LevelOf(g, d - 1, f);
    }
  }

  lemma {:induction false} FramesDistinct(g: Graph, d: nat)
    requires g.align > 0 && g.dedupe
    ensures DistinctAddrs(FramesTo(g, d)) && Addrs(FramesTo(g, d)) == Seen(g, d)
    decreases d
  {
    if d == 0 {
      assert Level(g, 0)[0] in Level(g, 0);
    } else {
      FramesDistinct(g, d - 1);
      LevelDistinct(g, d);
      var a, b := FramesTo(g, d - 1), Level(g, d);
      AddrsConcat(a, b);
      forall i, j | 0 <= i < j < |a + b| ensures (a + b)[i].addr != (a + b)[j].addr {
        if i < |a| <= j {
          assert a[i] in a && a[i].addr in Addrs(a);
          LevelSound(g, d, b[j - |a|]);
        }
      }
    }
  }

  /** With deduplication, the search examines exactly the structs reachable in
      at most `maxDepth` hops, each once, each by a path of the fewest hops. */
  lemma ExaminesReachableOnce(g: Graph, a: nat)
    requires g.align > 0 && g.dedupe
    ensures DistinctAddrs(FramesTo(g, g.maxDepth))
    ensures (exists f :: f in FramesTo(g, g.maxDepth) && f.addr == a)
       <==> (exists path :: |path| <= g.maxDepth && Walk(g, path) == Some(a))
    ensures forall f, path :: f in FramesTo(g, g.maxDepth) && Walk(g, path) == Some(f.addr) ==>
      Walk(g, f.path) == Some(f.addr) && |f.path| <= |path|
  {
    var all := FramesTo(g, g.maxDepth);
    FramesDistinct(g, g.maxDepth);
    if f :| f in all && f.addr == a {
      var j := LevelOf(g, g.maxDepth, f);
      LevelSound(g, j, f);
      assert |f.path| <= g.maxDepth && Walk(g, f.path) == Some(a);
    }
    if path :| |path| <= g.maxDepth && Walk(g, path) == Some(a) {
      PathsAreSeen(g, path);
      SeenGrows(g, |path|, g.maxDepth, a);
      assert a in Addrs(all);
    }
    forall f, path | f in all && Walk(g, path) == Some(f.addr)
      ensures Walk(g, f.path) == Some(f.addr) && |f.path| <= |path|
    {
      var j := LevelOf(g, g.maxDepth, f);
      LevelSound(g, j, f);
      ShortestPath(g, j, f, path);
    }
  }

  // ----- Hits, in order ---------------------------------------------------------------

  lemma {:induction false} SlotHitsOf(g: Graph, f: Frame, off: nat, h: SpiderHit)
    requires g.align > 0 && (f.addr + off) % g.align == 0 && Start(g.align, f.addr) <= off
    requires h in SlotHits(g, f, off)
    ensures h.path.root == g.root && h.path.parentOffsets == f.path
    ensures g.hitAt(f.addr, h.path.offset) == Some(h.current) && h.previous == h.current
    ensures IsSlot(g, f.addr, h.path.offset)
    decreases Start(g.align, f.addr) + g.structSize - off
  {
    NextAligned(f.addr + off, g.align);
    assert f.addr + (off + g.align) == f.addr + off + g.align;
    if g.hitAt(f.addr, off).None? || h in SlotHits(g, f, off + g.align) {
      SlotHitsOf(g, f, off + g.align, h);
    }
  }

  /** Every hit belongs to an examined frame and carries its path. */
  lemma {:induction false} HitsHaveFrames(g: Graph, frames: seq<Frame>, h: SpiderHit)
    requires g.align > 0 && h in HitsOf(g, frames)
    ensures exists f :: f in frames && h in FrameHits(g, f)
  {
    if h in FrameHits(g, frames[0]) {
      assert frames[0] in frames;
    } else {
      HitsHaveFrames(g, frames[1..], h);
      var f :| f in frames[1..] && h in FrameHits(g, f);
      assert f in frames;
    }
  }

  lemma HitIsReal(g: Graph, d: nat, h: SpiderHit)
    requires g.align > 0 && h in HitsOf(g, FramesTo(g, d))
    ensures h.path.root == g.root && h.previous == h.current
    ensures Walk(g, h.path.parentOffsets).Some?
    ensures g.hitAt(Walk(g, h.path.parentOffsets).value, h.path.offset) == Some(h.current)
    ensures IsSlot(g, Walk(g, h.path.parentOffsets).value, h.path.offset)
  {
    HitsHaveFrames(g, FramesTo(g, d), h);
    var f :| f in FramesTo(g, d) && h in FrameHits(g, f);
    var j := LevelOf(g, d, f);
    LevelSound(g, j, f);
    StartAligned(g.align, f.addr);
    SlotHitsOf(g, f, Start(g.align, f.addr), h);
  }

  ghost predicate ShallowFirst(hits: seq<SpiderHit>) {
    forall i, j :: 0 <= i < j < |hits| ==> |hits[i].path.parentOffsets| <= |hits[j].path.parentOffsets|
  }

  lemma {:induction false} HitsConcat(g: Graph, a: seq<Frame>, b: seq<Frame>)
    requires g.align > 0
    ensures HitsOf(g, a + b) == HitsOf(g, a) + HitsOf(g, b)
  {
    if a == [] {
      assert a + b == b;
    } else {
      assert (a + b)[1..] == a[1..] + b;
      HitsConcat(g, a[1..], b);
    }
  }

  lemma HitDepth(g: Graph, d: nat, h: SpiderHit)
    requires g.align > 0 && h in HitsOf(g, Level(g, d))
    ensures |h.path.parentOffsets| == d
  {
    HitsHaveFrames(g, Level(g, d), h);
    var f :| f in Level(g, d) && h in FrameHits(g, f);
    LevelSound(g, d, f);
    StartAligned(g.align, f.addr);
    SlotHitsOf(g, f, Start(g.align, f.addr), h);
  }

  lemma ShallowConcat(a: seq<SpiderHit>, b: seq<SpiderHit>, d: nat)
    requires ShallowFirst(a) && (forall h :: h in a ==> |h.path.parentOffsets| <= d)
    requires forall h :: h in b ==> |h.path.parentOffsets| == d
    ensures ShallowFirst(a + b)
  {
    var s := a + b;
    forall i, j | 0 <= i < j < |s| ensures |s[i].path.parentOffsets| <= |s[j].path.parentOffsets| {
      assert j >= |a| ==> s[j] in b;
      assert if i < |a| then s[i] in a else s[i] in b;
    }
  }

  /** Hits come out shallowest first, deduplicating or not. */
  lemma {:induction false} HitsShallowFirst(g: Graph, d: nat)
    requires g.align > 0
    ensures ShallowFirst(HitsOf(g, FramesTo(g, d)))
    ensures forall h :: h in HitsOf(g, FramesTo(g, d)) ==> |h.path.parentOffsets| <= d
    decreases d
  {
    var b := HitsOf(g, Level(g, d));
    forall h | h in b ensures |h.path.parentOffsets| == d {
      HitDepth(g, d, h);
    }
    if d > 0 {
      HitsShallowFirst(g, d - 1);
      HitsConcat(g, FramesTo(g, d - 1), Level(g, d));
      ShallowConcat(HitsOf(g, FramesTo(g, d - 1)), b, d);
    } else {
      ShallowConcat([], b, d);
      assert [] + b == b;
    }
  }
}
