/** The structure spider over a target's memory
    (crates/nemclass-scan/src/spider.rs). The search loops are proved to list
    the hits of the breadth-first search of module `SpiderGraph`, whose graph is
    read off the memory snapshot; the reused window never leaks into it. */
module Spider {
  import opened Memory
  import opened SpiderWindow
  import opened SpiderGraph
  import opened ValueType
  import PointerScan

  const MAX_STRUCT_SIZE: nat := 0x4000
  const MAX_DEPTH: nat := 8

  /** Struct nodes between observer ticks. */
  const PROGRESS_INTERVAL: nat := 64

  datatype SpiderConfig = SpiderConfig(structSize: nat, alignment: nat, maxDepth: nat, pointerSize: nat,
                                       maxResults: nat, maxNodes: nat, dedupeNodes: bool)
  {
    /** Every knob forced into its supported range; one in range is kept. */
    function Clamped(): (c: SpiderConfig)
      ensures 1 <= c.structSize <= MAX_STRUCT_SIZE && c.maxDepth <= MAX_DEPTH && 1 <= c.pointerSize <= 8
      ensures c.maxResults >= 1 && c.maxNodes >= 1
      ensures (1 <= structSize <= MAX_STRUCT_SIZE && maxDepth <= MAX_DEPTH && 1 <= pointerSize <= 8
               && maxResults >= 1 && maxNodes >= 1) ==> c == this
      ensures structSize <= MAX_STRUCT_SIZE ==> c.structSize == Max(structSize, 1)
      ensures structSize > MAX_STRUCT_SIZE ==> c.structSize == MAX_STRUCT_SIZE
      ensures c.maxDepth == Min(maxDepth, MAX_DEPTH) && c.alignment == alignment && c.dedupeNodes == dedupeNodes
      ensures pointerSize <= 8 ==> c.pointerSize == Max(pointerSize, 1)
      ensures pointerSize > 8 ==> c.pointerSize == 8
      ensures c.maxResults == Max(maxResults, 1) && c.maxNodes == Max(maxNodes, 1)
    {
      SpiderConfig(if structSize < 1 then 1 else if structSize > MAX_STRUCT_SIZE then MAX_STRUCT_SIZE else structSize,
                   alignment,
                   if maxDepth > MAX_DEPTH then MAX_DEPTH else maxDepth,
                   if pointerSize < 1 then 1 else if pointerSize > 8 then 8 else pointerSize,
                   if maxResults < 1 then 1 else maxResults,
                   if maxNodes < 1 then 1 else maxNodes,
                   dedupeNodes)
    }
  }

  datatype SpiderScanResult = SpiderScanResult(hits: seq<SpiderHit>, truncated: bool, nodesVisited: nat)

  datatype Outcome = Finished(result: SpiderScanResult) | Refused(error: ScanError)

  /** A validated search. */
  datatype Search = Search(target: Target, root: nat, cfg: SpiderConfig, align: nat, stride: nat,
                           matches: seq<Byte> -> bool, mapped: nat -> bool)
  {
    predicate Valid() {
      align > 0 && stride > 0 && cfg.pointerSize > 0 && cfg.maxResults > 0
    }

    function WindowLength(): nat {
      cfg.structSize + cfg.pointerSize + align
    }

    function CoverAt(a: nat): Cover {
      CoverOf(target, a, WindowLength())
    }
  }

  // ----- The memory as a graph --------------------------------------------------

  ghost function HitAt(s: Search, mem: Snapshot, a: nat, off: nat): Option<seq<Byte>> {
    if s.CoverAt(a).Has(off, s.stride) && Readable(mem, a + off, s.stride) && s.matches(Slice(mem, a + off, s.stride))
    then Some(Slice(mem, a + off, s.stride)) else None
  }

  /** The struct a pointer slot of the struct at `a` leads to. */
  ghost function ChildAt(s: Search, mem: Snapshot, a: nat, off: nat): Option<nat>
    requires s.cfg.pointerSize > 0
  {
    if (a + off) % s.cfg.pointerSize == 0 && s.CoverAt(a).Has(off, s.cfg.pointerSize)
       && Readable(mem, a + off, s.cfg.pointerSize)
    then
      var w := WordAt(mem, a + off, s.cfg.pointerSize);
      if w != 0 && w != a && s.mapped(w) then Some(w) else None
    else None
  }

  ghost function GraphOf(s: Search, mem: Snapshot): Graph
    requires s.cfg.pointerSize > 0
  {
    Graph(s.root, s.align, s.cfg.structSize, s.cfg.maxDepth, s.cfg.dedupeNodes,
          (a, off) => HitAt(s, mem, a, off), (a, off) => ChildAt(s, mem, a, off))
  }

  /** `g` is the graph of the search over `mem`. */
  ghost predicate Depicts(g: Graph, s: Search, mem: Snapshot)
    requires s.cfg.pointerSize > 0
  {
    && g.root == s.root && g.align == s.align && g.structSize == s.cfg.structSize
    && g.maxDepth == s.cfg.maxDepth && g.dedupe == s.cfg.dedupeNodes
    && (forall a, off {:trigger g.hitAt(a, off)} :: g.hitAt(a, off) == HitAt(s, mem, a, off))
    && (forall a, off {:trigger g.childAt(a, off)} :: g.childAt(a, off) == ChildAt(s, mem, a, off))
  }

  /** Slots at or past the read limit hold neither hits nor children, so
      stopping the walk there loses nothing. */
  lemma {:induction false} NothingPastLimit(s: Search, mem: Snapshot, g: Graph, f: Frame, off: nat, seen: set<nat>)
    requires s.Valid() && Faithful(s.target, mem) && Depicts(g, s, mem) && s.CoverAt(f.addr).Limit() <= off
    ensures SlotHits(g, f, off) == []
    ensures SlotChildren(g, f, off, seen) == []
    decreases Start(s.align, f.addr) + s.cfg.structSize - off
  {
    if off < Start(s.align, f.addr) + s.cfg.structSize {
      NoSlotPastLimit(s, mem, f.addr, off);
      NothingPastLimit(s, mem, g, f, off + s.align, seen);
    }
  }

  lemma NoSlotPastLimit(s: Search, mem: Snapshot, a: nat, off: nat)
    requires s.Valid() && Faithful(s.target, mem) && s.CoverAt(a).Limit() <= off
    ensures HitAt(s, mem, a, off) == None && ChildAt(s, mem, a, off) == None
  {
    if s.CoverAt(a).Has(off, s.stride) {
      HasImpliesReadable(s.target, mem, a, s.WindowLength(), off, s.stride);
    }
    if s.CoverAt(a).Has(off, s.cfg.pointerSize) {
      HasImpliesReadable(s.target, mem, a, s.WindowLength(), off, s.cfg.pointerSize);
    }
  }

  // ----- One struct -----------------------------------------------------------------

  /** The window agrees with memory on everything the cover claims. */
  ghost predicate Holds(window: seq<Byte>, mem: Snapshot, a: nat, c: Cover) {
    forall k :: 0 <= k < |window| && InCover(c, k) ==> a + k in mem && window[k] == mem[a + k]
  }

  lemma CoveredSlice(s: Search, mem: Snapshot, window: seq<Byte>, a: nat, off: nat, need: nat)
    requires Faithful(s.target, mem) && |window| == s.WindowLength() && Holds(window, mem, a, s.CoverAt(a))
    requires need > 0 && s.CoverAt(a).Has(off, need)
    ensures off + need <= |window| && Readable(mem, a + off, need)
    ensures window[off..off + need] == Slice(mem, a + off, need)
  {
    HasImpliesReadable(s.target, mem, a, s.WindowLength(), off, need);
    var b, d := window[off..off + need], Slice(mem, a + off, need);
    forall i | 0 <= i < need ensures b[i] == d[i] {
      HasCovers(s.CoverAt(a), off, need, off + i);
      assert window[off + i] == mem[a + (off + i)];
    }
  }

  /** A validated search, its graph, and the window of the struct at `a`. */
  ghost predicate Ready(s: Search, mem: Snapshot, g: Graph, window: seq<Byte>, a: nat, c: Cover) {
    && s.Valid() && Faithful(s.target, mem) && Depicts(g, s, mem)
    && |window| == s.WindowLength() && c == s.CoverAt(a) && Holds(window, mem, a, c)
  }

  /** Value branch of one slot. */
  method TestSlot(s: Search, ghost mem: Snapshot, ghost g: Graph, window: seq<Byte>, c: Cover, a: nat, off: nat)
    returns (r: Option<seq<Byte>>)
    requires Ready(s, mem, g, window, a, c)
    ensures r == g.hitAt(a, off)
  {
    assert g.hitAt(a, off) == HitAt(s, mem, a, off);
    if c.Has(off, s.stride) {
      CoveredSlice(s, mem, window, a, off, s.stride);
      if s.matches(window[off..off + s.stride]) {
        return Some(window[off..off + s.stride]);
      }
    }
    r := None;
  }

  /** Pointer branch of one slot. */
  method FollowSlot(s: Search, ghost mem: Snapshot, ghost g: Graph, window: seq<Byte>, c: Cover, a: nat, off: nat)
    returns (r: Option<nat>)
    requires Ready(s, mem, g, window, a, c)
    ensures r == g.childAt(a, off)
  {
    assert g.childAt(a, off) == ChildAt(s, mem, a, off);
    var psize := s.cfg.pointerSize;
    if (a + off) % psize == 0 && c.Has(off, psize) {
      CoveredSlice(s, mem, window, a, off, psize);
      var w := ReadWord(window[off..off + psize]);
      if w != 0 && w != a && s.mapped(w) {
        return Some(w);
      }
    }
    r := None;
  }

  /** Everything the search carries from frame to frame. `known` are the structs
      ever queued; `visited` is the source's set, kept only when deduping. */
  datatype Carry = Carry(visited: set<nat>, next: seq<Frame>, hits: seq<SpiderHit>)

  ghost predicate Tracks(s: Search, c: Carry, known: set<nat>) {
    s.cfg.dedupeNodes ==> c.visited == known
  }

  /** What one frame adds; on a full result list, a part of its hits. */
  ghost predicate Examined(g: Graph, f: Frame, max: nat, before: Carry, known: set<nat>, after: Carry, full: bool)
    requires g.align > 0
  {
    if full then after.hits <= before.hits + FrameHits(g, f) && |after.hits| == max
    else
      && after.hits == before.hits + FrameHits(g, f) && |after.hits| < max
      && after.next == before.next + Children(g, f, known)
  }

  /** Children still to be found from slot `off` on. */
  function Remaining(g: Graph, f: Frame, off: nat, seen: set<nat>): seq<Frame>
    requires g.align > 0
  {
    if f.depth < g.maxDepth then SlotChildren(g, f, off, seen) else []
  }

  /** Queues the struct behind one slot, if there is one to queue. */
  method QueueChild(s: Search, ghost mem: Snapshot, ghost g: Graph, f: Frame, window: seq<Byte>, c: Cover, off: nat,
                    before: Carry, ghost known: set<nat>)
    returns (after: Carry, ghost known': set<nat>, ghost found: seq<Frame>)
    requires Ready(s, mem, g, window, f.addr, c) && Tracks(s, before, known)
    requires off < Start(g.align, f.addr) + g.structSize
    ensures Remaining(g, f, off, known) == found + Remaining(g, f, off + g.align, known')
    ensures known' == known + Addrs(found) && Tracks(s, after, known')
    ensures after.next == before.next + found && after.hits == before.hits
  {
    after, known', found := before, known, [];
    assert forall q: seq<Frame> :: [] + q == q;
    if f.depth < s.cfg.maxDepth {
      var word := FollowSlot(s, mem, g, window, c, f.addr, off);
      if word.Some? && (!s.cfg.dedupeNodes || word.value !in before.visited) {
        if s.cfg.dedupeNodes {
          after := after.(visited := before.visited + {word.value});
        }
        var child := Frame(word.value, f.depth + 1, f.path + [off]);
        after := after.(next := before.next + [child]);
        known', found := known + {word.value}, [child];
        AddrsCons(child, []);
        assert [child] + [] == [child];
      }
    }
  }

  /** What a slot walk has left to do from `off` on. */
  ghost predicate OnWalk(g: Graph, f: Frame, off: nat, max: nat, c: Carry, known: set<nat>, hits: seq<SpiderHit>,
                         next: seq<Frame>, seen: set<nat>)
    requires g.align > 0
  {
    && c.hits + SlotHits(g, f, off) == hits && |c.hits| < max
    && c.next + Remaining(g, f, off, known) == next
    && known + Addrs(Remaining(g, f, off, known)) == seen
  }

  lemma QueueStep(g: Graph, f: Frame, off: nat, max: nat, before: Carry, known: set<nat>, after: Carry, known': set<nat>,
                  found: seq<Frame>, hits: seq<SpiderHit>, next: seq<Frame>, seen: set<nat>)
    requires g.align > 0 && off < Start(g.align, f.addr) + g.structSize
    requires before.hits + SlotHits(g, f, off + g.align) == hits && |before.hits| < max
    requires before.next + Remaining(g, f, off, known) == next
    requires known + Addrs(Remaining(g, f, off, known)) == seen
    requires Remaining(g, f, off, known) == found + Remaining(g, f, off + g.align, known')
    requires known' == known + Addrs(found) && after.next == before.next + found && after.hits == before.hits
    ensures OnWalk(g, f, off + g.align, max, after, known', hits, next, seen)
  {
    var rest := Remaining(g, f, off + g.align, known');
    assert before.next + (found + rest) == before.next + found + rest;
    AddrsConcat(found, rest);
  }

  /** The slot walk of one frame. */
  method WalkSlots(s: Search, ghost mem: Snapshot, ghost g: Graph, f: Frame, window: seq<Byte>, c: Cover,
                   before: Carry, ghost known: set<nat>)
    returns (after: Carry, ghost known': set<nat>, full: bool)
    requires Ready(s, mem, g, window, f.addr, c)
    requires |before.hits| < s.cfg.maxResults && Tracks(s, before, known)
    ensures Examined(g, f, s.cfg.maxResults, before, known, after, full)
    ensures Tracks(s, after, known') && (!full ==> known' == known + Addrs(Children(g, f, known)))
  {
    var off: nat := Start(s.align, f.addr);
    var end: nat := off + s.cfg.structSize;
    ghost var hits, next := before.hits + FrameHits(g, f), before.next + Children(g, f, known);
    ghost var seen := known + Addrs(Children(g, f, known));
    after, known', full := before, known, false;
    WalkStarts(g, f, s.cfg.maxResults, before, known);
    while !full && off < end && off < c.Limit()
      invariant Walking(g, f, off, s.cfg.maxResults, after, known', hits, next, seen, full) && Tracks(s, after, known')
      decreases if full then 0 else 1, end as int - off
    {
      after, known', full := WalkSlot(s, mem, g, f, window, c, off, after, known', hits, next, seen);
      off := off + s.align;
    }
    if !full {
      WalkEnds(s, mem, g, f, off, end, c, after, known', hits, next, seen);
    }
  }

  /** Before slot `off`, or stopped on a full list. */
  ghost predicate Walking(g: Graph, f: Frame, off: nat, max: nat, c: Carry, known: set<nat>, hits: seq<SpiderHit>,
                          next: seq<Frame>, seen: set<nat>, full: bool)
    requires g.align > 0
  {
    if full then c.hits <= hits && |c.hits| == max else OnWalk(g, f, off, max, c, known, hits, next, seen)
  }

  lemma WalkStarts(g: Graph, f: Frame, max: nat, before: Carry, known: set<nat>)
    requires g.align > 0 && |before.hits| < max
    ensures Walking(g, f, Start(g.align, f.addr), max, before, known, before.hits + FrameHits(g, f),
                    before.next + Children(g, f, known), known + Addrs(Children(g, f, known)), false)
  {
  }

  /** One slot: record a hit, stop if the list is full, then queue the child. */
  method WalkSlot(s: Search, ghost mem: Snapshot, ghost g: Graph, f: Frame, window: seq<Byte>, c: Cover, off: nat,
                  before: Carry, ghost known: set<nat>, ghost hits: seq<SpiderHit>, ghost next: seq<Frame>,
                  ghost seen: set<nat>)
    returns (after: Carry, ghost known': set<nat>, full: bool)
    requires Ready(s, mem, g, window, f.addr, c) && off < Start(g.align, f.addr) + g.structSize
    requires Walking(g, f, off, s.cfg.maxResults, before, known, hits, next, seen, false) && Tracks(s, before, known)
    ensures Tracks(s, after, known') && (full ==> |after.hits| == s.cfg.maxResults)
    ensures Walking(g, f, off + s.align, s.cfg.maxResults, after, known', hits, next, seen, full)
  {
    after, known', full := before, known, false;
    var hit := TestSlot(s, mem, g, window, c, f.addr, off);
    if hit.Some? {
      StepHits(g, f, off, after.hits, hits);
      after := after.(hits := after.hits + [SpiderHit(SpiderPath(s.root, f.path, off), hit.value, hit.value)]);
      if |after.hits| >= s.cfg.maxResults {
        full := true;
        return;
      }
    }
    ghost var c0, found := after, [];
    after, known', found := QueueChild(s, mem, g, f, window, c, off, after, known');
    QueueStep(g, f, off, s.cfg.maxResults, c0, known, after, known', found, hits, next, seen);
  }

  lemma WalkEnds(s: Search, mem: Snapshot, g: Graph, f: Frame, off: nat, end: nat, c: Cover,
                 after: Carry, known: set<nat>, hits: seq<SpiderHit>, next: seq<Frame>, seen: set<nat>)
    requires s.Valid() && Faithful(s.target, mem) && Depicts(g, s, mem) && c == s.CoverAt(f.addr)
    requires end == Start(s.align, f.addr) + s.cfg.structSize && (off >= end || off >= c.Limit())
    requires Walking(g, f, off, s.cfg.maxResults, after, known, hits, next, seen, false)
    ensures |after.hits| < s.cfg.maxResults && after.hits == hits && after.next == next && known == seen
  {
    if off < end {
      NothingPastLimit(s, mem, g, f, off, known);
    }
    assert after.hits + [] == after.hits && after.next + [] == after.next;
    assert Addrs([]) == {};
  }

  lemma StepHits(g: Graph, f: Frame, off: nat, hits: seq<SpiderHit>, all: seq<SpiderHit>)
    requires g.align > 0 && off < Start(g.align, f.addr) + g.structSize && g.hitAt(f.addr, off).Some?
    requires hits + SlotHits(g, f, off) == all
    ensures var b := g.hitAt(f.addr, off).value;
            var more := hits + [SpiderHit(SpiderPath(g.root, f.path, off), b, b)];
            more + SlotHits(g, f, off + g.align) == all && more <= all
  {
    var b := g.hitAt(f.addr, off).value;
    var h := SpiderHit(SpiderPath(g.root, f.path, off), b, b);
    assert hits + ([h] + SlotHits(g, f, off + g.align)) == (hits + [h]) + SlotHits(g, f, off + g.align);
  }

  /** One frame: read its window, then walk it. An unreadable struct adds nothing. */
  method ExamineFrame(s: Search, ghost mem: Snapshot, ghost g: Graph, f: Frame, win: array<Byte>,
                      before: Carry, ghost known: set<nat>)
    returns (after: Carry, ghost known': set<nat>, full: bool)
    requires s.Valid() && Faithful(s.target, mem) && Depicts(g, s, mem) && win.Length == s.WindowLength()
    requires |before.hits| < s.cfg.maxResults && Tracks(s, before, known)
    modifies win
    ensures Examined(g, f, s.cfg.maxResults, before, known, after, full)
    ensures Tracks(s, after, known') && (!full ==> known' == known + Addrs(Children(g, f, known)))
  {
    var c := ReadWindow(s.target, mem, f.addr, win);
    if c.Limit() == 0 {
      NothingPastLimit(s, mem, g, f, Start(s.align, f.addr), known);
      assert before.hits + [] == before.hits && before.next + [] == before.next;
      assert Addrs([]) == {};
      return before, known, false;
    }
    after, known', full := WalkSlots(s, mem, g, f, win[..], c, before, known);
  }

  // ----- Levels and the whole search -------------------------------------------------

  /** The search state between frames: `rest` is what this level still has to
      contribute, so that the totals stay fixed. */
  ghost predicate OnCourse(g: Graph, rest: seq<Frame>, c: Carry, known: set<nat>,
                           hits: seq<SpiderHit>, next: seq<Frame>)
    requires g.align > 0
  {
    c.hits + HitsOf(g, rest) == hits && c.next + NextLevel(g, rest, known) == next
  }

  lemma StayOnCourse(g: Graph, rest: seq<Frame>, max: nat, before: Carry, known: set<nat>,
                     after: Carry, known': set<nat>, hits: seq<SpiderHit>, next: seq<Frame>)
    requires g.align > 0 && rest != [] && OnCourse(g, rest, before, known, hits, next)
    requires Examined(g, rest[0], max, before, known, after, false)
    requires known' == known + Addrs(Children(g, rest[0], known))
    ensures OnCourse(g, rest[1..], after, known', hits, next)
  {
    var h, c := FrameHits(g, rest[0]), Children(g, rest[0], known);
    assert before.hits + (h + HitsOf(g, rest[1..])) == (before.hits + h) + HitsOf(g, rest[1..]);
    assert before.next + (c + NextLevel(g, rest[1..], known')) == (before.next + c) + NextLevel(g, rest[1..], known');
  }

  datatype Stop = Drained | CapReached | Interrupted

  /** The observer let the pass go on at each of its ticks up to node `n`. */
  ghost predicate Watched(keepGoing: nat -> bool, n: nat) {
    forall k: nat {:trigger keepGoing(k)} :: 0 < k <= n && k % PROGRESS_INTERVAL == 0 ==> keepGoing(k)
  }

  /** Node `n` is the first tick at which it did not. */
  ghost predicate Dismissed(keepGoing: nat -> bool, n: nat) {
    n > 0 && n % PROGRESS_INTERVAL == 0 && !keepGoing(n) && Watched(keepGoing, n - 1)
  }

  /** The observer is asked at every `PROGRESS_INTERVAL`th node. */
  method Tick(keepGoing: nat -> bool, node: nat) returns (go: bool)
    requires node > 0 && Watched(keepGoing, node - 1)
    ensures if go then Watched(keepGoing, node) else Dismissed(keepGoing, node)
  {
    go := node % PROGRESS_INTERVAL != 0 || keepGoing(node);
  }

  /** Hits stand at `now` after `k` of these frames. Only a list that the last of them
      filled may lack some of its hits. */
  ghost predicate CutAt(g: Graph, frames: seq<Frame>, k: nat, max: nat, hits: seq<SpiderHit>, now: seq<SpiderHit>)
    requires g.align > 0 && k <= |frames|
  {
    && now <= hits + HitsOf(g, frames[..k]) && |now| <= max
    && (|now| < max ==> now == hits + HitsOf(g, frames[..k]))
    && (|now| == max ==> k > 0 && |hits + HitsOf(g, frames[..k - 1])| < max)
  }

  /** What scanning one level achieves. */
  ghost predicate LevelScanned(g: Graph, s: Search, frames: seq<Frame>, before: Carry, known: set<nat>, visitedSoFar: nat,
                               after: Carry, known': set<nat>, nodes: nat, stop: Stop)
    requires g.align > 0
  {
    && visitedSoFar <= nodes <= visitedSoFar + |frames| && nodes <= s.cfg.maxNodes
    && (stop == CapReached ==>
          && CutAt(g, frames, nodes - visitedSoFar, s.cfg.maxResults, before.hits, after.hits)
          && (|after.hits| == s.cfg.maxResults || (nodes == s.cfg.maxNodes && nodes < visitedSoFar + |frames|)))
    && (stop == Drained ==>
          && |after.hits| < s.cfg.maxResults && nodes == visitedSoFar + |frames|
          && after.hits == before.hits + HitsOf(g, frames)
          && after.next == NextLevel(g, frames, known)
          && known' == known + Addrs(after.next) && Tracks(s, after, known'))
  }

  /** Before frame `k` the hits are those of the frames before it. */
  lemma CourseCut(g: Graph, frames: seq<Frame>, k: nat, max: nat, hits: seq<SpiderHit>, c: Carry, known: set<nat>,
                  next: seq<Frame>)
    requires g.align > 0 && k <= |frames| && |c.hits| < max
    requires OnCourse(g, frames[k..], c, known, hits + HitsOf(g, frames), next)
    ensures c.hits == hits + HitsOf(g, frames[..k])
    ensures CutAt(g, frames, k, max, hits, c.hits)
  {
    assert frames == frames[..k] + frames[k..];
    HitsConcat(g, frames[..k], frames[k..]);
    CancelTail(c.hits, hits, HitsOf(g, frames[..k]), HitsOf(g, frames[k..]));
  }

  lemma CancelTail<T>(a: seq<T>, b: seq<T>, c: seq<T>, tail: seq<T>)
    requires a + tail == b + (c + tail)
    ensures a == b + c
  {
    assert b + (c + tail) == (b + c) + tail;
    assert a == (a + tail)[..|a|] && b + c == ((b + c) + tail)[..|b + c|];
  }

  /** A full list stops inside frame `k`. */
  lemma FrameCut(g: Graph, frames: seq<Frame>, k: nat, max: nat, hits: seq<SpiderHit>, c: Carry, known: set<nat>,
                 after: Carry)
    requires g.align > 0 && k < |frames| && c.hits == hits + HitsOf(g, frames[..k]) && |c.hits| < max
    requires Examined(g, frames[k], max, c, known, after, true)
    ensures CutAt(g, frames, k + 1, max, hits, after.hits)
  {
    assert frames[..k + 1] == frames[..k] + [frames[k]];
    HitsConcat(g, frames[..k], [frames[k]]);
    assert HitsOf(g, [frames[k]]) == FrameHits(g, frames[k]) + [];
    assert c.hits + FrameHits(g, frames[k]) == hits + (HitsOf(g, frames[..k]) + FrameHits(g, frames[k]));
  }

  /** One level, frame by frame, until it is drained or a cap or the observer stops it. */
  method ScanLevel(s: Search, ghost mem: Snapshot, ghost g: Graph, frames: seq<Frame>, win: array<Byte>,
                   before: Carry, ghost known: set<nat>, visitedSoFar: nat, keepGoing: nat -> bool)
    returns (after: Carry, ghost known': set<nat>, nodes: nat, stop: Stop)
    requires s.Valid() && Faithful(s.target, mem) && Depicts(g, s, mem) && win.Length == s.WindowLength()
    requires |before.hits| < s.cfg.maxResults && Tracks(s, before, known) && before.next == []
    requires visitedSoFar <= s.cfg.maxNodes && Watched(keepGoing, visitedSoFar)
    modifies win
    ensures LevelScanned(g, s, frames, before, known, visitedSoFar, after, known', nodes, stop)
    ensures if stop == Interrupted then Dismissed(keepGoing, nodes) else Watched(keepGoing, nodes)
  {
    after, known', nodes := before, known, visitedSoFar;
    var k := 0;
    LevelStarts(g, s, frames, before, known);
    while k < |frames|
      invariant 0 <= k <= |frames| && nodes == visitedSoFar + k <= s.cfg.maxNodes
      invariant Underway(g, s, frames, k, before, known, after, known') && Watched(keepGoing, nodes)
    {
      LevelCut(g, s, frames, k, before, known, after, known');
      if nodes >= s.cfg.maxNodes {
        return after, known', nodes, CapReached;
      }
      nodes := nodes + 1;
      var go := Tick(keepGoing, nodes);
      if !go {
        return after, known', nodes, Interrupted;
      }
      var full;
      after, known', full := ScanFrame(s, mem, g, frames, k, win, before, known, after, known');
      if full {
        return after, known', nodes, CapReached;
      }
      k := k + 1;
    }
    stop := Drained;
    LevelEnds(g, s, frames, before, known, after, known');
  }

  /** Frame `k` of a level: the level goes on, or the list is full. */
  method ScanFrame(s: Search, ghost mem: Snapshot, ghost g: Graph, frames: seq<Frame>, k: nat, win: array<Byte>,
                   ghost before: Carry, ghost known: set<nat>, c: Carry, ghost kn: set<nat>)
    returns (after: Carry, ghost known': set<nat>, full: bool)
    requires s.Valid() && Faithful(s.target, mem) && Depicts(g, s, mem) && win.Length == s.WindowLength()
    requires k < |frames| && Underway(g, s, frames, k, before, known, c, kn)
    modifies win
    ensures full ==> |after.hits| == s.cfg.maxResults && CutAt(g, frames, k + 1, s.cfg.maxResults, before.hits, after.hits)
    ensures !full ==> Underway(g, s, frames, k + 1, before, known, after, known')
  {
    LevelCut(g, s, frames, k, before, known, c, kn);
    after, known', full := ExamineFrame(s, mem, g, frames[k], win, c, kn);
    if full {
      FrameCut(g, frames, k, s.cfg.maxResults, before.hits, c, kn, after);
    } else {
      LevelGoesOn(g, s, frames, k, before, known, c, kn, after, known');
    }
  }

  /** Before frame `k` of a level. */
  ghost predicate Underway(g: Graph, s: Search, frames: seq<Frame>, k: nat, before: Carry, known: set<nat>,
                           c: Carry, known': set<nat>)
    requires g.align > 0 && k <= |frames|
  {
    && OnCourse(g, frames[k..], c, known', before.hits + HitsOf(g, frames), NextLevel(g, frames, known))
    && |c.hits| < s.cfg.maxResults && Tracks(s, c, known') && known' == known + Addrs(c.next)
  }

  lemma LevelStarts(g: Graph, s: Search, frames: seq<Frame>, before: Carry, known: set<nat>)
    requires g.align > 0 && |before.hits| < s.cfg.maxResults && Tracks(s, before, known) && before.next == []
    ensures Underway(g, s, frames, 0, before, known, before, known)
  {
    assert frames[0..] == frames;
    assert [] + NextLevel(g, frames, known) == NextLevel(g, frames, known);
  }

  lemma LevelCut(g: Graph, s: Search, frames: seq<Frame>, k: nat, before: Carry, known: set<nat>,
                 c: Carry, known': set<nat>)
    requires g.align > 0 && k <= |frames| && Underway(g, s, frames, k, before, known, c, known')
    ensures c.hits == before.hits + HitsOf(g, frames[..k]) && |c.hits| < s.cfg.maxResults && Tracks(s, c, known')
    ensures CutAt(g, frames, k, s.cfg.maxResults, before.hits, c.hits)
  {
    CourseCut(g, frames, k, s.cfg.maxResults, before.hits, c, known', NextLevel(g, frames, known));
  }

  lemma LevelGoesOn(g: Graph, s: Search, frames: seq<Frame>, k: nat, before: Carry, known: set<nat>,
                    c: Carry, kn: set<nat>, after: Carry, known': set<nat>)
    requires g.align > 0 && k < |frames| && Underway(g, s, frames, k, before, known, c, kn)
    requires Examined(g, frames[k], s.cfg.maxResults, c, kn, after, false) && Tracks(s, after, known')
    requires known' == kn + Addrs(Children(g, frames[k], kn))
    ensures Underway(g, s, frames, k + 1, before, known, after, known')
  {
    StayOnCourse(g, frames[k..], s.cfg.maxResults, c, kn, after, known', before.hits + HitsOf(g, frames),
                 NextLevel(g, frames, known));
    AddrsConcat(c.next, Children(g, frames[k], kn));
    assert frames[k..][1..] == frames[k + 1..];
  }

  lemma LevelEnds(g: Graph, s: Search, frames: seq<Frame>, before: Carry, known: set<nat>, c: Carry, known': set<nat>)
    requires g.align > 0 && Underway(g, s, frames, |frames|, before, known, c, known')
    ensures c.hits == before.hits + HitsOf(g, frames) && |c.hits| < s.cfg.maxResults
    ensures c.next == NextLevel(g, frames, known) && known' == known + Addrs(c.next) && Tracks(s, c, known')
  {
    assert frames[|frames|..] == [];
    assert c.next + [] == c.next && c.hits + [] == c.hits;
  }

  lemma {:induction false} LevelsEnd(g: Graph, frames: seq<Frame>, seen: set<nat>)
    requires g.align > 0 && forall f :: f in frames ==> f.depth >= g.maxDepth
    ensures NextLevel(g, frames, seen) == []
  {
    if frames != [] {
      assert frames[0] in frames;
      LevelsEnd(g, frames[1..], seen + Addrs([]));
    }
  }

  /** Once a level is empty, or the depth limit is reached, no frames follow. */
  lemma {:induction false} FramesStop(g: Graph, d: nat, n: nat)
    requires g.align > 0 && d <= n && (Level(g, d) == [] || d == g.maxDepth)
    ensures FramesTo(g, n) == FramesTo(g, d) && (n > d ==> Level(g, n) == [])
    decreases n
  {
    if d < n {
      FramesStop(g, d, n - 1);
      NoLevelAfter(g, n);
      assert FramesTo(g, n - 1) + [] == FramesTo(g, n - 1);
    }
  }

  lemma NoLevelAfter(g: Graph, n: nat)
    requires g.align > 0 && n > 0 && (Level(g, n - 1) == [] || n - 1 == g.maxDepth)
    ensures Level(g, n) == []
  {
    forall f | f in Level(g, n - 1) ensures f.depth >= g.maxDepth {
      LevelSound(g, n - 1, f);
    }
    LevelsEnd(g, Level(g, n - 1), Seen(g, n - 1));
  }

  lemma {:induction false} FramesPrefix(g: Graph, d: nat, n: nat)
    requires g.align > 0 && d <= n
    ensures FramesTo(g, d) <= FramesTo(g, n)
    decreases n
  {
    if d < n {
      FramesPrefix(g, d, n - 1);
      assert FramesTo(g, n) == FramesTo(g, n - 1) + Level(g, n);
    }
  }

  /** The search is about to scan level `d`. */
  ghost predicate AtLevel(g: Graph, s: Search, d: nat, frontier: seq<Frame>, c: Carry, known: set<nat>, nodes: nat)
    requires g.align > 0
  {
    && d <= g.maxDepth + 1 && frontier == Level(g, d) && known == Seen(g, d)
    && Tracks(s, c, known) && |c.hits| < s.cfg.maxResults && nodes <= s.cfg.maxNodes
    && c.hits == HitsBefore(g, d) && nodes == NodesBefore(g, d)
  }

  /** The search has stopped at a cap after `nodes` frames. */
  ghost predicate Halted(g: Graph, s: Search, hits: seq<SpiderHit>, nodes: nat)
    requires g.align > 0
  {
    var frames := FramesTo(g, g.maxDepth);
    && nodes <= |frames| && nodes <= s.cfg.maxNodes && CutAt(g, frames, nodes, s.cfg.maxResults, [], hits)
    && (|hits| == s.cfg.maxResults || (nodes == s.cfg.maxNodes && nodes < |frames|))
  }

  lemma LevelStep(g: Graph, s: Search, d: nat, frontier: seq<Frame>, before: Carry, known: set<nat>, nodes: nat,
                  after: Carry, known': set<nat>, nodes': nat, stop: Stop)
    requires g.align > 0 && frontier != [] && AtLevel(g, s, d, frontier, before, known, nodes)
    requires LevelScanned(g, s, frontier, before, known, nodes, after, known', nodes', stop)
    ensures d <= g.maxDepth && nodes' <= |FramesTo(g, g.maxDepth)|
    ensures stop == Drained ==> AtLevel(g, s, d + 1, after.next, after, known', nodes')
    ensures stop == CapReached ==> Halted(g, s, after.hits, nodes')
  {
    LevelTotals(g, d);
    if stop == CapReached {
      LevelCaps(g, s, d, nodes' - nodes, after.hits);
    }
  }

  /** A level cut off after `k` frames cuts off the search. */
  lemma LevelCaps(g: Graph, s: Search, d: nat, k: nat, hits: seq<SpiderHit>)
    requires g.align > 0 && d <= g.maxDepth && k <= |Level(g, d)| && NodesBefore(g, d) + k <= s.cfg.maxNodes
    requires CutAt(g, Level(g, d), k, s.cfg.maxResults, HitsBefore(g, d), hits)
    requires |hits| == s.cfg.maxResults || (NodesBefore(g, d) + k == s.cfg.maxNodes && k < |Level(g, d)|)
    ensures Halted(g, s, hits, NodesBefore(g, d) + k)
  {
    LevelPlaced(g, d);
    CutMoves(g, Level(g, d), k, s.cfg.maxResults, HitsBefore(g, d), hits, FramesTo(g, g.maxDepth), NodesBefore(g, d));
  }

  /** The frames of `level` stand in `all` from `n` on, after frames that give `before`. */
  ghost predicate Placed(g: Graph, level: seq<Frame>, before: seq<SpiderHit>, all: seq<Frame>, n: nat)
    requires g.align > 0
  {
    && n + |level| <= |all|
    && forall k: nat :: k <= |level| ==> HitsOf(g, all[..n + k]) == before + HitsOf(g, level[..k])
  }

  lemma LevelPlaced(g: Graph, d: nat)
    requires g.align > 0 && d <= g.maxDepth
    ensures Placed(g, Level(g, d), HitsBefore(g, d), FramesTo(g, g.maxDepth), NodesBefore(g, d))
  {
    FramesPrefix(g, d, g.maxDepth);
    var earlier := if d == 0 then [] else FramesTo(g, d - 1);
    assert FramesTo(g, d) == earlier + Level(g, d);
    PlacedIn(g, earlier, Level(g, d), FramesTo(g, g.maxDepth));
  }

  lemma PlacedIn(g: Graph, earlier: seq<Frame>, level: seq<Frame>, all: seq<Frame>)
    requires g.align > 0 && earlier + level <= all
    ensures Placed(g, level, HitsOf(g, earlier), all, |earlier|)
  {
    forall k: nat | k <= |level| ensures HitsOf(g, all[..|earlier| + k]) == HitsOf(g, earlier) + HitsOf(g, level[..k]) {
      assert all[..|earlier| + k] == earlier + level[..k];
      HitsConcat(g, earlier, level[..k]);
    }
  }

  lemma CutMoves(g: Graph, level: seq<Frame>, k: nat, max: nat, before: seq<SpiderHit>, hits: seq<SpiderHit>,
                 all: seq<Frame>, n: nat)
    requires g.align > 0 && k <= |level| && Placed(g, level, before, all, n) && CutAt(g, level, k, max, before, hits)
    ensures CutAt(g, all, n + k, max, [], hits)
  {
    assert [] + HitsOf(g, all[..n + k]) == HitsOf(g, all[..n + k]);
    if k > 0 {
      assert n + k - 1 == n + (k - 1);
      assert [] + HitsOf(g, all[..n + k - 1]) == HitsOf(g, all[..n + k - 1]);
    }
  }

  function First<T>(s: seq<T>, n: nat): seq<T> {
    s[..Min(n, |s|)]
  }

  /** The frames a search may look at. */
  ghost function Looked(g: Graph, s: Search): seq<Frame>
    requires g.align > 0
  {
    First(FramesTo(g, g.maxDepth), s.cfg.maxNodes)
  }

  /** The hits reach `max` at the `n`th of these frames. */
  ghost predicate FilledBy(g: Graph, frames: seq<Frame>, max: nat, n: nat)
    requires g.align > 0 && n <= |frames|
  {
    n > 0 && |HitsOf(g, frames[..n - 1])| < max <= |HitsOf(g, frames[..n])|
  }

  /** What a finished search reports: the first `maxResults` hits of the first
      `maxNodes` frames of the unbounded search. It is truncated exactly when one of
      the two caps was reached, and has looked at no frame past the one that fills
      the list. */
  ghost predicate Reports(g: Graph, s: Search, r: SpiderScanResult)
    requires g.align > 0
  {
    && r.hits == First(HitsOf(g, Looked(g, s)), s.cfg.maxResults)
    && (r.truncated <==> |HitsOf(g, Looked(g, s))| >= s.cfg.maxResults || |FramesTo(g, g.maxDepth)| > s.cfg.maxNodes)
    && r.nodesVisited <= |Looked(g, s)|
    && (|r.hits| < s.cfg.maxResults ==> r.nodesVisited == |Looked(g, s)|)
    && (|r.hits| == s.cfg.maxResults ==> FilledBy(g, Looked(g, s), s.cfg.maxResults, r.nodesVisited))
  }

  /** A search stopped at a cap reports what the caps let through. */
  lemma HaltedReports(g: Graph, s: Search, hits: seq<SpiderHit>, nodes: nat)
    requires g.align > 0 && Halted(g, s, hits, nodes)
    ensures Reports(g, s, SpiderScanResult(hits, true, nodes))
  {
    var all, looked := FramesTo(g, g.maxDepth), Looked(g, s);
    assert looked[..nodes] == all[..nodes];
    assert [] + HitsOf(g, looked[..nodes]) == HitsOf(g, looked[..nodes]);
    if nodes == s.cfg.maxNodes {
      assert looked[..nodes] == looked;
    } else {
      FirstHits(g, looked, nodes, hits);
    }
    if nodes > 0 {
      assert looked[..nodes - 1] == all[..nodes - 1];
      assert [] + HitsOf(g, all[..nodes - 1]) == HitsOf(g, all[..nodes - 1]);
    }
  }

  /** A prefix of the hits of the first frames is a prefix of all hits. */
  lemma FirstHits(g: Graph, frames: seq<Frame>, k: nat, hits: seq<SpiderHit>)
    requires g.align > 0 && k <= |frames| && hits <= HitsOf(g, frames[..k])
    ensures hits <= HitsOf(g, frames) && |HitsOf(g, frames)| >= |hits|
  {
    assert frames == frames[..k] + frames[k..];
    HitsConcat(g, frames[..k], frames[k..]);
  }

  /** A drained search reports everything. */
  lemma DrainedReports(g: Graph, s: Search, hits: seq<SpiderHit>, nodes: nat)
    requires g.align > 0 && hits == HitsOf(g, FramesTo(g, g.maxDepth)) && nodes == |FramesTo(g, g.maxDepth)|
    requires |hits| < s.cfg.maxResults && nodes <= s.cfg.maxNodes
    ensures Reports(g, s, SpiderScanResult(hits, false, nodes))
  {
    assert Looked(g, s) == FramesTo(g, g.maxDepth);
  }

  lemma ReportsPrefix(g: Graph, s: Search, r: SpiderScanResult)
    requires g.align > 0 && Reports(g, s, r)
    ensures r.hits <= HitsOf(g, FramesTo(g, g.maxDepth))
    ensures !r.truncated ==> r.hits == HitsOf(g, FramesTo(g, g.maxDepth)) && r.nodesVisited == |FramesTo(g, g.maxDepth)|
  {
    var frames, looked := FramesTo(g, g.maxDepth), Looked(g, s);
    assert frames == looked + frames[|looked|..];
    HitsConcat(g, looked, frames[|looked|..]);
    if !r.truncated {
      assert looked == frames;
    }
  }

  /** Where the level loop stands: before level `d`, or stopped with a truncated
      result, or cancelled. */
  ghost predicate Standing(g: Graph, s: Search, d: nat, frontier: seq<Frame>, c: Carry, known: set<nat>, nodes: nat,
                           stop: Stop)
    requires g.align > 0
  {
    match stop
    case Drained => AtLevel(g, s, d, frontier, c, known, nodes)
    case CapReached => Halted(g, s, c.hits, nodes)
    case Interrupted => nodes <= |Looked(g, s)|
  }

  /** One turn of the level loop: the next level's state, or why to stop. */
  method RunLevel(s: Search, ghost mem: Snapshot, ghost g: Graph, win: array<Byte>, keepGoing: nat -> bool, ghost d: nat,
                  frontier: seq<Frame>, before: Carry, ghost known: set<nat>, visitedSoFar: nat)
    returns (after: Carry, ghost known': set<nat>, nodes: nat, stop: Stop)
    requires s.Valid() && Faithful(s.target, mem) && Depicts(g, s, mem) && win.Length == s.WindowLength()
    requires frontier != [] && Standing(g, s, d, frontier, before, known, visitedSoFar, Drained)
    requires Watched(keepGoing, visitedSoFar)
    modifies win
    ensures d <= g.maxDepth && Standing(g, s, d + 1, after.next, after, known', nodes, stop)
    ensures if stop == Interrupted then Dismissed(keepGoing, nodes) else Watched(keepGoing, nodes)
  {
    after, known', nodes, stop :=
      ScanLevel(s, mem, g, frontier, win, before.(next := []), known, visitedSoFar, keepGoing);
    LevelStep(g, s, d, frontier, before.(next := []), known, visitedSoFar, after, known', nodes, stop);
  }

  /** The level loop, until nothing is left or a level stops it. */
  method RunLevels(s: Search, ghost mem: Snapshot, ghost g: Graph, win: array<Byte>, keepGoing: nat -> bool)
    returns (c: Carry, nodes: nat, stop: Stop, frontier: seq<Frame>, ghost d: nat, ghost known: set<nat>)
    requires s.Valid() && Faithful(s.target, mem) && Depicts(g, s, mem) && win.Length == s.WindowLength()
    modifies win
    ensures Standing(g, s, d, frontier, c, known, nodes, stop) && (stop == Drained ==> frontier == [])
    ensures if stop == Interrupted then Dismissed(keepGoing, nodes) else Watched(keepGoing, nodes)
  {
    frontier := [Frame(s.root, 0, [])];
    c, nodes, stop, d, known := Carry({s.root}, [], []), 0, Drained, 0, {s.root};
    RootLevel(g, s);
    while frontier != [] && stop == Drained
      invariant Standing(g, s, d, frontier, c, known, nodes, stop)
      invariant if stop == Interrupted then Dismissed(keepGoing, nodes) else Watched(keepGoing, nodes)
      decreases if stop == Drained then 1 else 0, g.maxDepth + 1 - d
    {
      c, known, nodes, stop := RunLevel(s, mem, g, win, keepGoing, d, frontier, c, known, nodes);
      frontier := c.next;
      d := d + 1;
    }
  }

  /** The whole search. `None` is a cancelled pass. */
  method Run(s: Search, ghost mem: Snapshot, ghost g: Graph, keepGoing: nat -> bool) returns (r: Option<SpiderScanResult>)
    requires s.Valid() && Faithful(s.target, mem) && Depicts(g, s, mem)
    ensures r.Some? ==> Reports(g, s, r.value) && Watched(keepGoing, r.value.nodesVisited)
    ensures r.None? ==> exists n: nat :: n <= |Looked(g, s)| && Dismissed(keepGoing, n)
  {
    var c, nodes, stop;
    ghost var d, known;
    var win := new Byte[s.WindowLength()](_ => 0);
    var frontier;
    c, nodes, stop, frontier, d, known := RunLevels(s, mem, g, win, keepGoing);
    if stop == Interrupted {
      return None;
    }
    if stop == Drained {
      FinalTotals(g, d);
      DrainedReports(g, s, c.hits, nodes);
    } else {
      HaltedReports(g, s, c.hits, nodes);
    }
    r := Some(SpiderScanResult(c.hits, stop == CapReached, nodes));
  }

  lemma RootLevel(g: Graph, s: Search)
    requires g.align > 0 && g.root == s.root && s.cfg.maxResults > 0
    ensures Standing(g, s, 0, [Frame(s.root, 0, [])], Carry({s.root}, [], []), {s.root}, 0, Drained)
  {
  }

  ghost function HitsBefore(g: Graph, d: nat): seq<SpiderHit>
    requires g.align > 0
  {
    if d == 0 then [] else HitsOf(g, FramesTo(g, d - 1))
  }

  ghost function NodesBefore(g: Graph, d: nat): nat
    requires g.align > 0
  {
    if d == 0 then 0 else |FramesTo(g, d - 1)|
  }

  lemma LevelTotals(g: Graph, d: nat)
    requires g.align > 0 && Level(g, d) != []
    ensures d <= g.maxDepth
    ensures HitsBefore(g, d) + HitsOf(g, Level(g, d)) == HitsBefore(g, d + 1)
    ensures NodesBefore(g, d) + |Level(g, d)| == NodesBefore(g, d + 1) <= |FramesTo(g, g.maxDepth)|
  {
    LevelDepth(g, d);
    FramesPrefix(g, d, g.maxDepth);
    if d > 0 {
      HitsConcat(g, FramesTo(g, d - 1), Level(g, d));
    } else {
      assert [] + HitsOf(g, Level(g, d)) == HitsOf(g, Level(g, d));
    }
  }

  lemma FinalTotals(g: Graph, d: nat)
    requires g.align > 0 && Level(g, d) == [] && d <= g.maxDepth + 1
    ensures HitsBefore(g, d) == HitsOf(g, FramesTo(g, g.maxDepth))
    ensures NodesBefore(g, d) == |FramesTo(g, g.maxDepth)|
  {
    if d <= g.maxDepth {
      FramesStop(g, d, g.maxDepth);
      assert FramesTo(g, d - 1) + [] == FramesTo(g, d - 1);
    }
  }

  lemma LevelDepth(g: Graph, d: nat)
    requires g.align > 0 && Level(g, d) != []
    ensures d <= g.maxDepth
  {
    LevelSound(g, d, Level(g, d)[0]);
  }

  // ----- Paths resolve ---------------------------------------------------------------

  /** The struct reached by dereferencing `parents` in order; a null hop fails. */
  function Hops(root: nat, parents: seq<nat>, readPtr: nat -> Option<nat>): Option<nat> {
    if parents == [] then Some(root)
    else
      var n := |parents| - 1;
      match Hops(root, parents[..n], readPtr)
      case None => None
      case Some(a) =>
        if a + parents[n] > USIZE_MAX then None
        else match readPtr(a + parents[n])
             case None => None
             case Some(v) => if v == 0 then None else Some(v)
  }

  function Resolve(p: SpiderPath, readPtr: nat -> Option<nat>): Option<nat> {
    match Hops(p.root, p.parentOffsets, readPtr)
    case None => None
    case Some(a) => if a + p.offset > USIZE_MAX then None else Some(a + p.offset)
  }

  lemma {:induction false} HopsFail(root: nat, parents: seq<nat>, readPtr: nat -> Option<nat>, i: nat)
    requires i <= |parents| && Hops(root, parents[..i], readPtr) == None
    ensures Hops(root, parents, readPtr) == None
    decreases |parents|
  {
    if i < |parents| {
      var n := |parents| - 1;
      assert parents[..n][..i] == parents[..i];
      HopsFail(root, parents[..n], readPtr, i);
    } else {
      assert parents[..i] == parents;
    }
  }

  /** The structs a walk stands in: from the root, each one's pointer is read without
      overflow, is not null, and is the next one. */
  ghost predicate Chained(root: nat, parents: seq<nat>, readPtr: nat -> Option<nat>, structs: seq<nat>) {
    && |structs| == |parents| + 1 && structs[0] == root
    && forall k {:trigger parents[k]} :: 0 <= k < |parents| ==> HopTo(readPtr, structs[k], parents[k], structs[k + 1])
  }

  predicate HopTo(readPtr: nat -> Option<nat>, a: nat, off: nat, next: nat) {
    a + off <= USIZE_MAX && readPtr(a + off) == Some(next) && next != 0
  }

  lemma ChainedSnoc(root: nat, front: seq<nat>, off: nat, readPtr: nat -> Option<nat>, structs: seq<nat>, next: nat)
    requires Chained(root, front, readPtr, structs) && HopTo(readPtr, structs[|front|], off, next)
    ensures Chained(root, front + [off], readPtr, structs + [next])
  {
    var parents, all := front + [off], structs + [next];
    forall k | 0 <= k < |parents| ensures HopTo(readPtr, all[k], parents[k], all[k + 1]) {
      assert k < |front| ==> front[k] == parents[k];
    }
  }

  lemma ChainedFront(root: nat, parents: seq<nat>, readPtr: nat -> Option<nat>, structs: seq<nat>)
    requires parents != [] && Chained(root, parents, readPtr, structs)
    ensures var n := |parents| - 1;
            Chained(root, parents[..n], readPtr, structs[..n + 1]) && HopTo(readPtr, structs[n], parents[n], structs[n + 1])
  {
    var n := |parents| - 1;
    forall k | 0 <= k < n ensures HopTo(readPtr, structs[..n + 1][k], parents[..n][k], structs[..n + 1][k + 1]) {
      assert parents[..n][k] == parents[k];
    }
    assert HopTo(readPtr, structs[n], parents[n], structs[n + 1]);
  }

  lemma {:induction false} HopsAreChained(root: nat, parents: seq<nat>, readPtr: nat -> Option<nat>) returns (structs: seq<nat>)
    requires Hops(root, parents, readPtr).Some?
    ensures Chained(root, parents, readPtr, structs) && Hops(root, parents, readPtr) == Some(structs[|parents|])
    decreases |parents|
  {
    if parents == [] {
      structs := [root];
    } else {
      var n := |parents| - 1;
      var front := HopsAreChained(root, parents[..n], readPtr);
      var next := Hops(root, parents, readPtr).value;
      ChainedSnoc(root, parents[..n], parents[n], readPtr, front, next);
      assert parents[..n] + [parents[n]] == parents;
      structs := front + [next];
    }
  }

  lemma {:induction false} ChainedIsHops(root: nat, parents: seq<nat>, readPtr: nat -> Option<nat>, structs: seq<nat>)
    requires Chained(root, parents, readPtr, structs)
    ensures Hops(root, parents, readPtr) == Some(structs[|parents|])
    decreases |parents|
  {
    if parents != [] {
      var n := |parents| - 1;
      ChainedFront(root, parents, readPtr, structs);
      ChainedIsHops(root, parents[..n], readPtr, structs[..n + 1]);
    }
  }

  /** A path resolves exactly when such structs exist, to the offset in the last one. */
  lemma ResolvesIff(p: SpiderPath, readPtr: nat -> Option<nat>, at: nat)
    ensures Resolve(p, readPtr) == Some(at) <==>
            at <= USIZE_MAX
            && exists structs :: Chained(p.root, p.parentOffsets, readPtr, structs) && at == structs[|p.parentOffsets|] + p.offset
  {
    if Hops(p.root, p.parentOffsets, readPtr).Some? {
      var structs := HopsAreChained(p.root, p.parentOffsets, readPtr);
    }
    forall structs | Chained(p.root, p.parentOffsets, readPtr, structs)
      ensures Hops(p.root, p.parentOffsets, readPtr) == Some(structs[|p.parentOffsets|])
    {
      ChainedIsHops(p.root, p.parentOffsets, readPtr, structs);
    }
  }

  method ResolvePath(p: SpiderPath, readPtr: nat -> Option<nat>) returns (r: Option<nat>)
    ensures r == Resolve(p, readPtr)
  {
    var addr: nat, i := p.root, 0;
    while i < |p.parentOffsets|
      invariant 0 <= i <= |p.parentOffsets|
      invariant Hops(p.root, p.parentOffsets[..i], readPtr) == Some(addr)
    {
      ghost var done := p.parentOffsets[..i + 1];
      assert done[..i] == p.parentOffsets[..i];
      var at := addr + p.parentOffsets[i];
      var next := if at > USIZE_MAX then None else readPtr(at);
      if next.None? || next.value == 0 {
        HopsFail(p.root, p.parentOffsets, readPtr, i + 1);
        return None;
      }
      addr := next.value;
      i := i + 1;
    }
    assert p.parentOffsets[..i] == p.parentOffsets;
    r := if addr + p.offset > USIZE_MAX then None else Some(addr + p.offset);
  }

  /** Addresses of a snapshot are machine words. */
  ghost predicate Addressable(mem: Snapshot) {
    forall a :: a in mem ==> a <= USIZE_MAX
  }

  /** Every edge of the graph is a readable, non-null pointer. */
  ghost predicate EdgesAreReads(g: Graph, readPtr: nat -> Option<nat>) {
    forall a: nat, off: nat {:trigger g.childAt(a, off)} :: g.childAt(a, off).Some? ==>
      a + off <= USIZE_MAX && g.childAt(a, off).value != 0 && readPtr(a + off) == g.childAt(a, off)
  }

  lemma GraphEdgesAreReads(s: Search, mem: Snapshot, g: Graph)
    requires s.Valid() && Depicts(g, s, mem) && Addressable(mem)
    ensures EdgesAreReads(g, PointerScan.ReadPtr(mem, s.cfg.pointerSize))
  {
    forall a: nat, off: nat | g.childAt(a, off).Some?
      ensures a + off <= USIZE_MAX && g.childAt(a, off).value != 0
      ensures PointerScan.ReadPtr(mem, s.cfg.pointerSize)(a + off) == g.childAt(a, off)
    {
      assert g.childAt(a, off) == ChildAt(s, mem, a, off);
      assert a + off in mem;
    }
  }

  /** Walking the graph is dereferencing the memory. */
  lemma {:induction false} WalkIsHops(g: Graph, readPtr: nat -> Option<nat>, path: seq<nat>)
    requires g.align > 0 && EdgesAreReads(g, readPtr) && Walk(g, path).Some?
    ensures Hops(g.root, path, readPtr) == Walk(g, path)
    decreases |path|
  {
    if path != [] {
      WalkIsHops(g, readPtr, path[..|path| - 1]);
    }
  }

  /** A hit's path leads, in memory, to bytes that satisfy the compare and are
      the bytes the hit reports. */
  ghost predicate RealHit(s: Search, mem: Snapshot, h: SpiderHit)
    requires s.Valid()
  {
    var at := Resolve(h.path, PointerScan.ReadPtr(mem, s.cfg.pointerSize));
    && h.path.root == s.root && |h.path.parentOffsets| <= s.cfg.maxDepth
    && at.Some? && Readable(mem, at.value, s.stride)
    && h.current == h.previous == Slice(mem, at.value, s.stride) && s.matches(h.current)
  }

  lemma HitsAreReal(s: Search, mem: Snapshot, g: Graph, h: SpiderHit)
    requires s.Valid() && Depicts(g, s, mem) && Addressable(mem)
    requires h in HitsOf(g, FramesTo(g, g.maxDepth))
    ensures RealHit(s, mem, h)
  {
    HitIsReal(g, g.maxDepth, h);
    HitsShallowFirst(g, g.maxDepth);
    var a, off := Walk(g, h.path.parentOffsets).value, h.path.offset;
    GraphEdgesAreReads(s, mem, g);
    WalkIsHops(g, PointerScan.ReadPtr(mem, s.cfg.pointerSize), h.path.parentOffsets);
    assert g.hitAt(a, off) == HitAt(s, mem, a, off);
    assert a + off in mem;
  }
}
