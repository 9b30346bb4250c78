/** The reverse pointer-chain search over a harvested index
    (crates/nemclass-scan/src/pointerscan.rs): what the bounded depth-first
    search finds, and that every path it emits leads back to the goal. */
module PointerScan {
  import opened Memory
  import opened PointerMap

  datatype PointerPath = PointerPath(base: nat, offsets: seq<nat>)

  datatype PointerScanConfig = PointerScanConfig(
    maxDepth: nat, maxOffset: nat, alignment: nat, pointerSize: nat,
    staticRanges: seq<Region>, maxResults: nat, maxMapEntries: nat)

  datatype PointerScanResult = PointerScanResult(paths: seq<PointerPath>, truncated: bool)

  /** What one search runs over: the sorted index, the static-anchor test and
      the largest offset a hop may apply. */
  datatype Space = Space(entries: seq<Pair>, isStatic: nat -> bool, maxOffset: nat)

  // ----- Chains: what a result means --------------------------------------

  /** The address a chain must reach after hop `k`; hop 0 is nearest the goal. */
  function GoalAt(goal: nat, hops: seq<Pair>, k: nat): nat
    requires k <= |hops|
  {
    if k == 0 then goal else hops[k - 1].other
  }

  /** Each hop's value is at most `maxOffset` below the address it must reach. */
  ghost predicate Linked(maxOffset: nat, goal: nat, hops: seq<Pair>) {
    forall k {:trigger GoalAt(goal, hops, k)} :: 0 <= k < |hops| ==>
      hops[k].key <= GoalAt(goal, hops, k) <= hops[k].key + maxOffset
  }

  /** The last holder, and no earlier one, is a static anchor. */
  ghost predicate Anchored(isStatic: nat -> bool, hops: seq<Pair>) {
    forall k {:trigger hops[k]} :: 0 <= k < |hops| ==> (isStatic(hops[k].other) <==> k == |hops| - 1)
  }

  /** No address is a goal twice, and none of `avoid` is one. */
  ghost predicate Acyclic(goal: nat, hops: seq<Pair>, avoid: set<nat>) {
    && (forall k {:trigger GoalAt(goal, hops, k)} :: 0 <= k < |hops| ==> GoalAt(goal, hops, k) !in avoid)
    && (forall i, j {:trigger GoalAt(goal, hops, i), GoalAt(goal, hops, j)} ::
          0 <= i < j < |hops| ==> GoalAt(goal, hops, i) != GoalAt(goal, hops, j))
  }

  ghost predicate Chain(sp: Space, goal: nat, hops: seq<Pair>, depth: nat, avoid: set<nat>) {
    && 1 <= |hops| <= depth
    && (forall k {:trigger hops[k]} :: 0 <= k < |hops| ==> hops[k] in sp.entries)
    && Linked(sp.maxOffset, goal, hops)
    && Anchored(sp.isStatic, hops)
    && Acyclic(goal, hops, avoid)
  }

  /** The path a chain denotes: offsets read from the anchor to the goal. */
  ghost function PathOf(maxOffset: nat, goal: nat, hops: seq<Pair>, suffix: seq<nat>): PointerPath
    requires hops != [] && Linked(maxOffset, goal, hops)
  {
    var n := |hops|;
    PointerPath(hops[n - 1].other,
                seq(n, i requires 0 <= i < n => GoalAt(goal, hops, n - 1 - i) - hops[n - 1 - i].key)
                + suffix)
  }

  lemma PathOfOne(maxOffset: nat, goal: nat, hop: Pair, suffix: seq<nat>)
    requires hop.key <= goal <= hop.key + maxOffset
    ensures Linked(maxOffset, goal, [hop])
    ensures PathOf(maxOffset, goal, [hop], suffix) == PointerPath(hop.other, Prepend(goal - hop.key, suffix))
  {
  }

  lemma LinkedCons(maxOffset: nat, goal: nat, hop: Pair, rest: seq<Pair>)
    requires hop.key <= goal <= hop.key + maxOffset && Linked(maxOffset, hop.other, rest)
    ensures Linked(maxOffset, goal, [hop] + rest)
  {
    var hops := [hop] + rest;
    forall k | 0 <= k < |hops| ensures hops[k].key <= GoalAt(goal, hops, k) <= hops[k].key + maxOffset {
      if k > 0 {
        assert hops[k] == rest[k - 1] && GoalAt(goal, hops, k) == GoalAt(hop.other, rest, k - 1);
      }
    }
  }

  /** Moving the nearest hop's offset into the suffix does not change the path. */
  lemma PathOfCons(maxOffset: nat, goal: nat, hop: Pair, rest: seq<Pair>, suffix: seq<nat>)
    requires rest != [] && hop.key <= goal <= hop.key + maxOffset && Linked(maxOffset, hop.other, rest)
    ensures Linked(maxOffset, goal, [hop] + rest)
    ensures PathOf(maxOffset, goal, [hop] + rest, suffix)
         == PathOf(maxOffset, hop.other, rest, Prepend(goal - hop.key, suffix))
  {
    LinkedCons(maxOffset, goal, hop, rest);
    var hops, n := [hop] + rest, |rest| + 1;
    var a := PathOf(maxOffset, goal, hops, suffix).offsets;
    var b := PathOf(maxOffset, hop.other, rest, Prepend(goal - hop.key, suffix)).offsets;
    forall i | 0 <= i < |a| ensures a[i] == b[i] {
      if i < n - 1 {
        assert hops[n - 1 - i] == rest[n - 2 - i];
      }
    }
  }

  lemma LinkedTail(maxOffset: nat, goal: nat, hop: Pair, rest: seq<Pair>)
    requires Linked(maxOffset, goal, [hop] + rest)
    ensures hop.key <= goal <= hop.key + maxOffset && Linked(maxOffset, hop.other, rest)
  {
    var hops := [hop] + rest;
    assert GoalAt(goal, hops, 0) == goal;
    forall k | 0 <= k < |rest|
      ensures rest[k].key <= GoalAt(hop.other, rest, k) <= rest[k].key + maxOffset
    {
      assert rest[k] == hops[k + 1] && GoalAt(hop.other, rest, k) == GoalAt(goal, hops, k + 1);
    }
  }

  lemma AcyclicTail(goal: nat, hop: Pair, rest: seq<Pair>, avoid: set<nat>)
    requires Acyclic(goal, [hop] + rest, avoid)
    ensures goal !in avoid && Acyclic(hop.other, rest, avoid + {goal})
  {
    var hops := [hop] + rest;
    assert GoalAt(goal, hops, 0) == goal;
    forall k | 0 <= k < |rest| ensures GoalAt(hop.other, rest, k) == GoalAt(goal, hops, k + 1) {
    }
  }

  lemma ChainHead(sp: Space, goal: nat, hop: Pair, rest: seq<Pair>, depth: nat, avoid: set<nat>)
    requires Chain(sp, goal, [hop] + rest, depth, avoid)
    ensures goal !in avoid && hop in sp.entries && depth > 0
    ensures hop.key <= goal <= hop.key + sp.maxOffset && Linked(sp.maxOffset, hop.other, rest)
    ensures sp.isStatic(hop.other) <==> rest == []
    ensures rest != [] ==> Chain(sp, hop.other, rest, depth - 1, avoid + {goal})
  {
    var hops := [hop] + rest;
    assert hops[0] == hop;
    LinkedTail(sp.maxOffset, goal, hop, rest);
    AcyclicTail(goal, hop, rest, avoid);
    forall k | 0 <= k < |rest|
      ensures rest[k] in sp.entries && (sp.isStatic(rest[k].other) <==> k == |rest| - 1)
    {
      assert rest[k] == hops[k + 1];
    }
  }

  lemma AcyclicCons(goal: nat, hop: Pair, rest: seq<Pair>, avoid: set<nat>)
    requires goal !in avoid && Acyclic(hop.other, rest, avoid + {goal})
    ensures Acyclic(goal, [hop] + rest, avoid)
  {
    var hops := [hop] + rest;
    forall i, j | 0 <= i < j < |hops| ensures GoalAt(goal, hops, i) != GoalAt(goal, hops, j) {
      assert GoalAt(goal, hops, j) == GoalAt(hop.other, rest, j - 1);
      if i > 0 {
        assert GoalAt(goal, hops, i) == GoalAt(hop.other, rest, i - 1);
      }
    }
    forall k | 0 <= k < |hops| ensures GoalAt(goal, hops, k) !in avoid {
      if k > 0 {
        assert GoalAt(goal, hops, k) == GoalAt(hop.other, rest, k - 1);
      }
    }
  }

  lemma ChainCons(sp: Space, goal: nat, hop: Pair, rest: seq<Pair>, depth: nat, avoid: set<nat>)
    requires goal !in avoid && depth > 0 && hop in sp.entries
    requires hop.key <= goal <= hop.key + sp.maxOffset
    requires if rest == [] then sp.isStatic(hop.other)
             else !sp.isStatic(hop.other) && Chain(sp, hop.other, rest, depth - 1, avoid + {goal})
    ensures Chain(sp, goal, [hop] + rest, depth, avoid)
  {
    var hops := [hop] + rest;
    AcyclicCons(goal, hop, rest, avoid);
    LinkedCons(sp.maxOffset, goal, hop, rest);
    forall k | 0 <= k < |hops|
      ensures hops[k] in sp.entries && (sp.isStatic(hops[k].other) <==> k == |hops| - 1)
    {
      if k > 0 {
        assert hops[k] == rest[k - 1];
      }
    }
  }

  // ----- The unbounded search as a function -------------------------------

  function Prepend(off: nat, suffix: seq<nat>): seq<nat> {
    [off] + suffix
  }

  function SaturatingSub(a: nat, b: nat): nat {
    if a >= b then a - b else 0
  }

  function AllPaths(sp: Space, goal: nat, depth: nat, suffix: seq<nat>, visited: set<nat>): seq<PointerPath>
    decreases depth, 2, 0
  {
    if depth == 0 || goal in visited then []
    else
      AllHops(sp, Range(sp.entries, SaturatingSub(goal, sp.maxOffset), goal), goal, depth, suffix, visited)
  }

  function AllHops(sp: Space, hops: seq<Pair>, goal: nat, depth: nat, suffix: seq<nat>, visited: set<nat>)
    : seq<PointerPath>
    requires depth > 0
    requires forall h :: h in hops ==> h.key <= goal
    decreases depth, 1, |hops|
  {
    if hops == [] then []
    else
      var n := |hops| - 1;
      AllHops(sp, hops[..n], goal, depth, suffix, visited)
      + HopPaths(sp, hops[n], goal, depth, suffix, visited)
  }

  function HopPaths(sp: Space, hop: Pair, goal: nat, depth: nat, suffix: seq<nat>, visited: set<nat>)
    : seq<PointerPath>
    requires depth > 0 && hop.key <= goal
    decreases depth, 0, 0
  {
    var chain := Prepend(goal - hop.key, suffix);
    if sp.isStatic(hop.other) then [PointerPath(hop.other, chain)]
    else AllPaths(sp, hop.other, depth - 1, chain, visited + {goal})
  }

  // ----- Soundness and completeness of the search --------------------------

  ghost predicate Denotes(sp: Space, goal: nat, depth: nat, suffix: seq<nat>, visited: set<nat>,
                          hops: seq<Pair>, p: PointerPath) {
    Chain(sp, goal, hops, depth, visited) && p == PathOf(sp.maxOffset, goal, hops, suffix)
  }

  /** Every path the search lists is the path of some chain. */
  lemma {:induction false} Sound(sp: Space, goal: nat, depth: nat, suffix: seq<nat>, visited: set<nat>,
                                 p: PointerPath)
    returns (hops: seq<Pair>)
    requires SortedByKey(sp.entries)
    requires p in AllPaths(sp, goal, depth, suffix, visited)
    ensures Denotes(sp, goal, depth, suffix, visited, hops, p)
    decreases depth, 1, 0
  {
    var lo := SaturatingSub(goal, sp.maxOffset);
    var range := Range(sp.entries, lo, goal);
    var k := HopOf(sp, range, goal, depth, suffix, visited, p);
    RangeIsExact(sp.entries, lo, goal, range[k]);
    hops := SoundHop(sp, range[k], goal, depth, suffix, visited, p);
  }

  lemma {:induction false} SoundHop(sp: Space, hop: Pair, goal: nat, depth: nat, suffix: seq<nat>,
                                    visited: set<nat>, p: PointerPath)
    returns (hops: seq<Pair>)
    requires SortedByKey(sp.entries)
    requires depth > 0 && goal !in visited && hop in sp.entries
    requires hop.key <= goal <= hop.key + sp.maxOffset
    requires p in HopPaths(sp, hop, goal, depth, suffix, visited)
    ensures Denotes(sp, goal, depth, suffix, visited, hops, p) && hops[0] == hop
    decreases depth, 0, 0
  {
    if sp.isStatic(hop.other) {
      hops := [hop];
      ChainCons(sp, goal, hop, [], depth, visited);
      assert [hop] + [] == hops;
      PathOfOne(sp.maxOffset, goal, hop, suffix);
    } else {
      var rest := Sound(sp, hop.other, depth - 1, Prepend(goal - hop.key, suffix), visited + {goal}, p);
      hops := [hop] + rest;
      PathOfCons(sp.maxOffset, goal, hop, rest, suffix);
      ChainCons(sp, goal, hop, rest, depth, visited);
    }
  }

  /** Each listed path comes from one of the scanned hops. */
  lemma {:induction false} HopOf(sp: Space, hops: seq<Pair>, goal: nat, depth: nat, suffix: seq<nat>,
                                 visited: set<nat>, p: PointerPath)
    returns (k: nat)
    requires depth > 0 && forall h :: h in hops ==> h.key <= goal
    requires p in AllHops(sp, hops, goal, depth, suffix, visited)
    ensures k < |hops| && p in HopPaths(sp, hops[k], goal, depth, suffix, visited)
    decreases |hops|
  {
    var n := |hops| - 1;
    if p in HopPaths(sp, hops[n], goal, depth, suffix, visited) {
      k := n;
    } else {
      k := HopOf(sp, hops[..n], goal, depth, suffix, visited, p);
    }
  }

  lemma {:induction false} HopListed(sp: Space, hops: seq<Pair>, goal: nat, depth: nat, suffix: seq<nat>,
                                     visited: set<nat>, k: nat, p: PointerPath)
    requires depth > 0 && forall h :: h in hops ==> h.key <= goal
    requires k < |hops| && p in HopPaths(sp, hops[k], goal, depth, suffix, visited)
    ensures p in AllHops(sp, hops, goal, depth, suffix, visited)
    decreases |hops|
  {
    var n := |hops| - 1;
    if k < n {
      HopListed(sp, hops[..n], goal, depth, suffix, visited, k, p);
    }
  }

  /** Every chain's path is listed. */
  lemma {:induction false} Complete(sp: Space, goal: nat, depth: nat, suffix: seq<nat>, visited: set<nat>,
                                    hops: seq<Pair>)
    requires SortedByKey(sp.entries)
    requires Chain(sp, goal, hops, depth, visited)
    ensures PathOf(sp.maxOffset, goal, hops, suffix) in AllPaths(sp, goal, depth, suffix, visited)
    decreases depth, 1
  {
    var hop, rest := hops[0], hops[1..];
    assert hops == [hop] + rest;
    ChainHead(sp, goal, hop, rest, depth, visited);
    CompleteHop(sp, goal, depth, suffix, visited, hop, rest);
    ListedThrough(sp, goal, depth, suffix, visited, hop, PathOf(sp.maxOffset, goal, hops, suffix));
  }

  /** What goes through an entry within reach of the goal is listed for the goal. */
  lemma ListedThrough(sp: Space, goal: nat, depth: nat, suffix: seq<nat>, visited: set<nat>, hop: Pair, p: PointerPath)
    requires SortedByKey(sp.entries) && depth > 0 && goal !in visited
    requires hop in sp.entries && hop.key <= goal <= hop.key + sp.maxOffset
    requires p in HopPaths(sp, hop, goal, depth, suffix, visited)
    ensures p in AllPaths(sp, goal, depth, suffix, visited)
  {
    var lo := SaturatingSub(goal, sp.maxOffset);
    RangeIsExact(sp.entries, lo, goal, hop);
    ListedAmong(sp, Range(sp.entries, lo, goal), goal, depth, suffix, visited, hop, p);
  }

  lemma ListedAmong(sp: Space, hops: seq<Pair>, goal: nat, depth: nat, suffix: seq<nat>, visited: set<nat>, hop: Pair,
                    p: PointerPath)
    requires depth > 0 && (forall h :: h in hops ==> h.key <= goal) && hop in hops
    requires p in HopPaths(sp, hop, goal, depth, suffix, visited)
    ensures p in AllHops(sp, hops, goal, depth, suffix, visited)
  {
    var k :| 0 <= k < |hops| && hops[k] == hop;
    HopListed(sp, hops, goal, depth, suffix, visited, k, p);
  }

  lemma {:induction false} CompleteHop(sp: Space, goal: nat, depth: nat, suffix: seq<nat>, visited: set<nat>,
                                       hop: Pair, rest: seq<Pair>)
    requires SortedByKey(sp.entries) && depth > 0
    requires hop.key <= goal <= hop.key + sp.maxOffset
    requires sp.isStatic(hop.other) <==> rest == []
    requires rest != [] ==> Chain(sp, hop.other, rest, depth - 1, visited + {goal})
    ensures Linked(sp.maxOffset, goal, [hop] + rest)
    ensures PathOf(sp.maxOffset, goal, [hop] + rest, suffix) in HopPaths(sp, hop, goal, depth, suffix, visited)
    decreases depth, 0
  {
    if rest == [] {
      PathOfOne(sp.maxOffset, goal, hop, suffix);
      assert [hop] + rest == [hop];
    } else {
      var chain := Prepend(goal - hop.key, suffix);
      Complete(sp, hop.other, depth - 1, chain, visited + {goal}, rest);
      PathOfCons(sp.maxOffset, goal, hop, rest, suffix);
      HopGoesOn(sp, hop, goal, depth, suffix, visited, PathOf(sp.maxOffset, hop.other, rest, chain));
    }
  }

  lemma HopGoesOn(sp: Space, hop: Pair, goal: nat, depth: nat, suffix: seq<nat>, visited: set<nat>, p: PointerPath)
    requires depth > 0 && hop.key <= goal && !sp.isStatic(hop.other)
    requires p in AllPaths(sp, hop.other, depth - 1, Prepend(goal - hop.key, suffix), visited + {goal})
    ensures p in HopPaths(sp, hop, goal, depth, suffix, visited)
  {
  }

  // ----- No path twice ------------------------------------------------------

  /** A holder stores one value. */
  ghost predicate OneValueEach(es: seq<Pair>) {
    forall a, b :: a in es && b in es && a.other == b.other ==> a == b
  }

  lemma OffsetAt(maxOffset: nat, goal: nat, hops: seq<Pair>, suffix: seq<nat>, k: nat)
    requires k < |hops| && Linked(maxOffset, goal, hops)
    ensures var offsets := PathOf(maxOffset, goal, hops, suffix).offsets;
            |offsets| == |hops| + |suffix| && offsets[|hops| - 1 - k] == GoalAt(goal, hops, k) - hops[k].key
  {
  }

  /** Base and offsets determine the whole chain. */
  lemma PathDeterminesChain(sp: Space, goal: nat, depth: nat, avoid: set<nat>, suffix: seq<nat>,
                            g: seq<Pair>, h: seq<Pair>)
    requires OneValueEach(sp.entries)
    requires Chain(sp, goal, g, depth, avoid) && Chain(sp, goal, h, depth, avoid)
    requires PathOf(sp.maxOffset, goal, g, suffix) == PathOf(sp.maxOffset, goal, h, suffix)
    ensures g == h
  {
    OffsetAt(sp.maxOffset, goal, g, suffix, 0);
    OffsetAt(sp.maxOffset, goal, h, suffix, 0);
    forall k | 0 <= k < |g| ensures g[k] == h[k] {
      HopsAgree(sp.entries, sp.maxOffset, goal, suffix, g, h, k);
    }
  }

  lemma {:induction false} HopsAgree(entries: seq<Pair>, maxOffset: nat, goal: nat, suffix: seq<nat>,
                                     g: seq<Pair>, h: seq<Pair>, k: nat)
    requires OneValueEach(entries)
    requires |g| == |h| && k < |g|
    requires forall i {:trigger g[i]} :: 0 <= i < |g| ==> g[i] in entries
    requires forall i {:trigger h[i]} :: 0 <= i < |h| ==> h[i] in entries
    requires Linked(maxOffset, goal, g) && Linked(maxOffset, goal, h)
    requires PathOf(maxOffset, goal, g, suffix) == PathOf(maxOffset, goal, h, suffix)
    ensures g[k] == h[k]
    decreases |g| - k
  {
    if k < |g| - 1 {
      HopsAgree(entries, maxOffset, goal, suffix, g, h, k + 1);
      OffsetAt(maxOffset, goal, g, suffix, k + 1);
      OffsetAt(maxOffset, goal, h, suffix, k + 1);
    }
    assert g[k].other == h[k].other;
  }

  lemma {:induction false} NoPathTwice(sp: Space, goal: nat, depth: nat, suffix: seq<nat>, visited: set<nat>)
    requires SortedByKey(sp.entries) && Distinct(sp.entries) && OneValueEach(sp.entries)
    ensures Distinct(AllPaths(sp, goal, depth, suffix, visited))
    decreases depth, 2, 0
  {
    if depth > 0 && goal !in visited {
      var lo := SaturatingSub(goal, sp.maxOffset);
      var range := Range(sp.entries, lo, goal);
      forall h | h in range ensures h in sp.entries && goal <= h.key + sp.maxOffset {
        RangeIsExact(sp.entries, lo, goal, h);
      }
      NoHopTwice(sp, range, goal, depth, suffix, visited);
    }
  }

  lemma {:induction false} NoHopTwice(sp: Space, hops: seq<Pair>, goal: nat, depth: nat, suffix: seq<nat>,
                                      visited: set<nat>)
    requires SortedByKey(sp.entries) && Distinct(sp.entries) && OneValueEach(sp.entries)
    requires depth > 0 && goal !in visited && Distinct(hops)
    requires forall h :: h in hops ==> h in sp.entries && h.key <= goal <= h.key + sp.maxOffset
    ensures Distinct(AllHops(sp, hops, goal, depth, suffix, visited))
    decreases depth, 1, |hops|
  {
    if hops != [] {
      var n := |hops| - 1;
      var a := AllHops(sp, hops[..n], goal, depth, suffix, visited);
      var b := HopPaths(sp, hops[n], goal, depth, suffix, visited);
      NoHopTwice(sp, hops[..n], goal, depth, suffix, visited);
      if !sp.isStatic(hops[n].other) {
        NoPathTwice(sp, hops[n].other, depth - 1, Prepend(goal - hops[n].key, suffix), visited + {goal});
      }
      forall p | p in a && p in b ensures false {
        var k := HopOf(sp, hops[..n], goal, depth, suffix, visited, p);
        var g := SoundHop(sp, hops[k], goal, depth, suffix, visited, p);
        var h := SoundHop(sp, hops[n], goal, depth, suffix, visited, p);
        PathDeterminesChain(sp, goal, depth, visited, suffix, g, h);
      }
      DistinctConcat(a, b);
    }
  }

  lemma DistinctConcat<T>(a: seq<T>, b: seq<T>)
    requires Distinct(a) && Distinct(b) && forall x :: x in a ==> x !in b
    ensures Distinct(a + b)
  {
    forall i, j | 0 <= i < j < |a + b| ensures (a + b)[i] != (a + b)[j] {
      if i < |a| <= j {
        assert a[i] in a && b[j - |a|] in b;
      }
    }
  }

  // ----- Resolution ---------------------------------------------------------

  /** The rest of a resolution standing at `addr`. */
  function ResolveFrom(addr: nat, offsets: seq<nat>, readPtr: nat -> Option<nat>): Option<nat>
    decreases |offsets|
  {
    if offsets == [] then Some(addr)
    else
      var stepped := addr + offsets[0];
      if stepped > USIZE_MAX then None
      else if |offsets| == 1 then Some(stepped)
      else
        match readPtr(stepped)
        case None => None
        case Some(next) => ResolveFrom(next, offsets[1..], readPtr)
  }

  function Resolve(p: PointerPath, readPtr: nat -> Option<nat>): Option<nat> {
    match readPtr(p.base)
    case None => None
    case Some(addr) => ResolveFrom(addr, p.offsets, readPtr)
  }

  /** The source's loop: every offset but the last is followed by a read. */
  method ResolvePath(p: PointerPath, readPtr: nat -> Option<nat>) returns (r: Option<nat>)
    ensures r == Resolve(p, readPtr)
  {
    var first := readPtr(p.base);
    if first.None? {
      return None;
    }
    var addr: nat, i := first.value, 0;
    while i < |p.offsets|
      invariant 0 <= i <= |p.offsets|
      invariant ResolveFrom(addr, p.offsets[i..], readPtr) == Resolve(p, readPtr)
    {
      var stepped := addr + p.offsets[i];
      if stepped > USIZE_MAX {
        return None;
      }
      if i + 1 < |p.offsets| {
        var next := readPtr(stepped);
        if next.None? {
          return None;
        }
        addr := next.value;
      } else {
        addr := stepped;
      }
      i := i + 1;
    }
    r := Some(addr);
  }

  /** Following a chain's offsets from its anchor's value comes out at the goal. */
  lemma {:induction false} ChainResolves(maxOffset: nat, goal: nat, hops: seq<Pair>, suffix: seq<nat>,
                                         readPtr: nat -> Option<nat>)
    requires hops != [] && Linked(maxOffset, goal, hops) && goal <= USIZE_MAX
    requires forall k {:trigger hops[k]} :: 0 <= k < |hops| ==>
      readPtr(hops[k].other) == Some(hops[k].key) && hops[k].other <= USIZE_MAX
    ensures Resolve(PathOf(maxOffset, goal, hops, suffix), readPtr)
         == if suffix == [] then Some(goal)
            else match readPtr(goal) case None => None case Some(v) => ResolveFrom(v, suffix, readPtr)
    decreases |hops|
  {
    var hop, rest := hops[0], hops[1..];
    assert hops == [hop] + rest;
    LinkedTail(maxOffset, goal, hop, rest);
    var off := goal - hop.key;
    assert Prepend(off, suffix)[1..] == suffix;
    if rest == [] {
      assert hops == [hop];
      PathOfOne(maxOffset, goal, hop, suffix);
    } else {
      PathOfCons(maxOffset, goal, hop, rest, suffix);
      forall k | 0 <= k < |rest| ensures rest[k] == hops[k + 1] {
      }
      ChainResolves(maxOffset, hop.other, rest, Prepend(off, suffix), readPtr);
    }
  }

  // ----- The capped search ---------------------------------------------------

  /** `out` extended by `more` until it holds `max` paths. */
  function Capped(out: seq<PointerPath>, more: seq<PointerPath>, max: nat): (r: seq<PointerPath>)
    ensures |r| <= |out| || |r| <= max
    ensures |out| + |more| <= max ==> r == out + more
    ensures |out| >= max ==> r == out
  {
    if |out| >= max then out
    else if |out| + |more| <= max then out + more
    else out + more[..max - |out|]
  }

  /** Capping is cutting the joined list, unless `out` is full already. */
  lemma CappedIsPrefix(out: seq<PointerPath>, more: seq<PointerPath>, max: nat)
    requires |out| <= max <= |out| + |more|
    ensures Capped(out, more, max) == (out + more)[..max]
  {
  }

  lemma CappedTwice(out: seq<PointerPath>, a: seq<PointerPath>, b: seq<PointerPath>, max: nat)
    ensures Capped(Capped(out, a, max), b, max) == Capped(out, a + b, max)
  {
    assert (out + a) + b == out + (a + b);
    if |out| <= max <= |out| + |a| + |b| {
      CappedIsPrefix(out, a + b, max);
      if |out| + |a| <= max {
        CappedIsPrefix(out + a, b, max);
      } else {
        CappedIsPrefix(out, a, max);
        assert (out + a + b)[..max] == (out + a)[..max];
      }
    }
  }

  /** Once the list is full, what follows changes nothing. */
  lemma CappedFull(out: seq<PointerPath>, a: seq<PointerPath>, b: seq<PointerPath>, max: nat)
    requires |Capped(out, a, max)| >= max && a <= b
    ensures Capped(out, b, max) == Capped(out, a, max)
  {
    assert b == a + b[|a|..];
    CappedTwice(out, a, b[|a|..], max);
  }

  /** What a part of the search that lists `listed` does to the shared list and flag:
      the flag is never taken back, goes up only over a full list, and while it is
      down nothing was left out. */
  ghost predicate Lists(before: seq<PointerPath>, flagBefore: bool, listed: seq<PointerPath>,
                        out: seq<PointerPath>, flag: bool, max: nat) {
    && out == Capped(before, listed, max)
    && (flagBefore ==> flag)
    && (flag && !flagBefore ==> |out| >= max)
    && (!flag ==> |before| + |listed| <= max)
  }

  lemma ListsOn(s0: seq<PointerPath>, f0: bool, a: seq<PointerPath>, s1: seq<PointerPath>, f1: bool,
                b: seq<PointerPath>, s2: seq<PointerPath>, f2: bool, max: nat)
    requires Lists(s0, f0, a, s1, f1, max) && Lists(s1, f1, b, s2, f2, max)
    ensures Lists(s0, f0, a + b, s2, f2, max)
  {
    CappedTwice(s0, a, b, max);
  }

  /** Stopping at a full list loses nothing the cap would have kept. */
  lemma ListsFull(s0: seq<PointerPath>, f0: bool, a: seq<PointerPath>, s1: seq<PointerPath>, f1: bool,
                  b: seq<PointerPath>, max: nat)
    requires Lists(s0, f0, a, s1, f1, max) && |s1| >= max && a <= b
    ensures Lists(s0, f0, b, s1, true, max)
  {
    CappedFull(s0, a, b, max);
  }

  /** The mutable state shared by all frames of one search. */
  class PathSearch {
    const space: Space
    const maxResults: nat
    var suffix: seq<nat>
    var visited: set<nat>
    var out: seq<PointerPath>
    var truncated: bool

    constructor (space: Space, maxResults: nat)
      ensures this.space == space && this.maxResults == maxResults
      ensures suffix == [] && visited == {} && out == [] && !truncated
    {
      this.space, this.maxResults := space, maxResults;
      suffix, visited, out, truncated := [], {}, [], false;
    }

    method Solve(goal: nat, depth: nat)
      modifies this
      ensures suffix == old(suffix) && visited == old(visited)
      ensures Lists(old(out), old(truncated), AllPaths(space, goal, depth, suffix, visited), out, truncated, maxResults)
      decreases depth
    {
      if depth == 0 || |out| >= maxResults {
        if |out| >= maxResults {
          truncated := true;
        }
        return;
      }
      if goal in visited {
        return;
      }
      visited := visited + {goal};
      var hops := Range(space.entries, SaturatingSub(goal, space.maxOffset), goal);
      SolveHops(hops, goal, depth, old(visited));
      visited := visited - {goal};
    }

    /** The loop over one goal's candidate holders. */
    method SolveHops(hops: seq<Pair>, goal: nat, depth: nat, ghost above: set<nat>)
      requires depth > 0 && visited == above + {goal} && |out| < maxResults
      requires forall h :: h in hops ==> h.key <= goal
      modifies this
      ensures suffix == old(suffix) && visited == old(visited)
      ensures Lists(old(out), old(truncated), AllHops(space, hops, goal, depth, suffix, above), out, truncated, maxResults)
      decreases depth, 1
    {
      var k := 0;
      assert hops[..|hops|] == hops;
      while k < |hops|
        invariant 0 <= k <= |hops|
        invariant suffix == old(suffix) && visited == old(visited)
        invariant Lists(old(out), old(truncated), AllHops(space, hops[..k], goal, depth, suffix, above), out, truncated,
                        maxResults)
      {
        ghost var done, s1, f1 := AllHops(space, hops[..k], goal, depth, suffix, above), out, truncated;
        if |out| >= maxResults {
          truncated := true;
          HopsPrefix(space, hops, k, goal, depth, suffix, above);
          ListsFull(old(out), old(truncated), done, s1, f1, AllHops(space, hops, goal, depth, suffix, above), maxResults);
          return;
        }
        ghost var more := HopPaths(space, hops[k], goal, depth, suffix, above);
        HopsStep(space, hops, k, goal, depth, suffix, above);
        SolveHop(hops[k], goal, depth, above);
        ListsOn(old(out), old(truncated), done, s1, f1, more, out, truncated, maxResults);
        k := k + 1;
      }
    }

    /** One candidate holder: a static anchor completes a path, anything else
        becomes the goal one level up. */
    method SolveHop(hop: Pair, goal: nat, depth: nat, ghost above: set<nat>)
      requires depth > 0 && visited == above + {goal} && hop.key <= goal
      requires |out| < maxResults
      modifies this
      ensures suffix == old(suffix) && visited == old(visited)
      ensures Lists(old(out), old(truncated), HopPaths(space, hop, goal, depth, suffix, above), out, truncated, maxResults)
      decreases depth, 0
    {
      var chain := Prepend(goal - hop.key, suffix);
      if space.isStatic(hop.other) {
        out := out + [PointerPath(hop.other, chain)];
      } else {
        suffix := chain;
        Solve(hop.other, depth - 1);
        suffix := suffix[1..];
      }
    }
  }

  lemma HopsStep(sp: Space, hops: seq<Pair>, k: nat, goal: nat, depth: nat, suffix: seq<nat>, above: set<nat>)
    requires depth > 0 && k < |hops| && forall h :: h in hops ==> h.key <= goal
    ensures AllHops(sp, hops[..k + 1], goal, depth, suffix, above)
         == AllHops(sp, hops[..k], goal, depth, suffix, above) + HopPaths(sp, hops[k], goal, depth, suffix, above)
  {
    assert hops[..k + 1][..k] == hops[..k];
  }

  /** The first hops' paths come first. */
  lemma {:induction false} HopsPrefix(sp: Space, hops: seq<Pair>, k: nat, goal: nat, depth: nat,
                                      suffix: seq<nat>, above: set<nat>)
    requires depth > 0 && k <= |hops| && forall h :: h in hops ==> h.key <= goal
    ensures AllHops(sp, hops[..k], goal, depth, suffix, above) <= AllHops(sp, hops, goal, depth, suffix, above)
    decreases |hops|
  {
    if k < |hops| {
      var n := |hops| - 1;
      assert hops[..n][..k] == hops[..k] && hops[..n + 1] == hops;
      HopsPrefix(sp, hops[..n], k, goal, depth, suffix, above);
      HopsStep(sp, hops, n, goal, depth, suffix, above);
    } else {
      assert hops[..k] == hops;
    }
  }

  // ----- End to end -----------------------------------------------------------

  datatype PointerIndex = PointerIndex(entries: seq<Pair>, truncated: bool)

  function PairsOf(regions: seq<Region>): (pairs: seq<Pair>)
    ensures |pairs| == |regions|
  {
    seq(|regions|, i requires 0 <= i < |regions| => Pair(regions[i].base, regions[i].End()))
  }

  /** Regions as sorted `(base, end)` pairs. */
  function RangesOf(regions: seq<Region>): seq<Pair> {
    SortPairs(PairsOf(regions))
  }

  function Mapped(regions: seq<Region>): nat -> bool {
    var ranges := RangesOf(regions);
    (a: nat) => IsMapped(ranges, a)
  }

  /** Some region holds the address. */
  ghost function Inside(regions: seq<Region>): nat -> bool {
    (a: nat) => exists r :: r in regions && r.Contains(a)
  }

  /** No two regions overlap, in whatever order they come. */
  ghost predicate Disjoint(regions: seq<Region>) {
    forall i, j :: 0 <= i < j < |regions| ==> regions[i].End() <= regions[j].base || regions[j].End() <= regions[i].base
  }

  lemma InsideIffInPairs(regions: seq<Region>, a: nat)
    ensures Inside(regions)(a) <==> exists r :: r in PairsOf(regions) && r.key <= a < r.other
  {
    var pairs := PairsOf(regions);
    if q :| q in regions && q.Contains(a) {
      var i :| 0 <= i < |regions| && regions[i] == q;
      assert pairs[i] in pairs && pairs[i].key <= a < pairs[i].other;
    }
    if r :| r in pairs && r.key <= a < r.other {
      var i :| 0 <= i < |pairs| && pairs[i] == r;
      assert regions[i] in regions && regions[i].Contains(a);
    }
  }

  /** Over regions that do not overlap the code's single probe is membership. */
  lemma MappedIffInsideRegion(regions: seq<Region>, a: nat)
    requires Disjoint(regions)
    ensures Mapped(regions)(a) <==> Inside(regions)(a)
  {
    var pairs := PairsOf(regions);
    assert PairwiseApart(pairs);
    SortSeparates(pairs);
    MappedIffInside(RangesOf(regions), a);
    InsideIffInPairs(regions, a);
  }

  /** An aligned word lying wholly in one region whose value lies in some region. */
  ghost predicate HeldPointer(mem: Snapshot, regions: seq<Region>, cfg: PointerScanConfig, e: Pair) {
    Harvestable(mem, regions, Inside(regions), AtLeastOne(cfg.pointerSize), AtLeastOne(cfg.alignment), e)
  }

  lemma HarvestedIffHeld(mem: Snapshot, regions: seq<Region>, cfg: PointerScanConfig, e: Pair)
    requires Ascending(regions)
    ensures Harvestable(mem, regions, Mapped(regions), AtLeastOne(cfg.pointerSize), AtLeastOne(cfg.alignment), e)
       <==> HeldPointer(mem, regions, cfg, e)
  {
    MappedIffInsideRegion(regions, e.key);
  }

  /** Static anchors, too, are those inside a static range, if none overlap. */
  lemma AnchoredIffInside(cfg: PointerScanConfig, hops: seq<Pair>)
    requires Disjoint(cfg.staticRanges)
    ensures Anchored(Mapped(cfg.staticRanges), hops) <==> Anchored(Inside(cfg.staticRanges), hops)
  {
    forall a: nat ensures Mapped(cfg.staticRanges)(a) <==> Inside(cfg.staticRanges)(a) {
      MappedIffInsideRegion(cfg.staticRanges, a);
    }
  }

  lemma HeldPointersAgree(mem: Snapshot, regions: seq<Region>, cfg: PointerScanConfig, a: Pair, b: Pair)
    requires HeldPointer(mem, regions, cfg, a) && HeldPointer(mem, regions, cfg, b) && a.other == b.other
    ensures a == b
  {
  }

  /** What a harvest of the target pushes if nothing stops it. */
  ghost function HarvestOf(t: Target, cfg: PointerScanConfig): Harvested {
    AllWords(t, t.regions, AtLeastOne(cfg.pointerSize), AtLeastOne(cfg.alignment), Mapped(t.regions))
  }

  /** The harvest holds as many words as the index may have. */
  ghost predicate CapReached(t: Target, cfg: PointerScanConfig) {
    |HarvestOf(t, cfg).words| >= AtLeastOne(cfg.maxMapEntries)
  }

  ghost function Pushed(t: Target, cfg: PointerScanConfig): (es: seq<Pair>)
    ensures forall e :: e in es ==> e in HarvestOf(t, cfg).words
  {
    var words := HarvestOf(t, cfg).words;
    if CapReached(t, cfg) then words[..AtLeastOne(cfg.maxMapEntries)] else words
  }

  /** No pointer held where a later window of its region starts shares its value
      with another holder. */
  ghost predicate SeamsStandAlone(mem: Snapshot, regions: seq<Region>, cfg: PointerScanConfig) {
    forall e, f :: (HeldPointer(mem, regions, cfg, e) && HeldPointer(mem, regions, cfg, f) && e.key == f.key
                    && OnSeam(regions, AtLeastOne(cfg.pointerSize), e.other)) ==> e == f
  }

  lemma PushedAreHeld(t: Target, mem: Snapshot, cfg: PointerScanConfig)
    requires Faithful(t, mem) && Ascending(t.regions)
    ensures forall e :: e in HarvestOf(t, cfg).words ==> HeldPointer(mem, t.regions, cfg, e)
    ensures FullReads(t, t.regions) ==>
      !HarvestOf(t, cfg).failed && forall e :: HeldPointer(mem, t.regions, cfg, e) ==> e in HarvestOf(t, cfg).words
  {
    var psize, align := AtLeastOne(cfg.pointerSize), AtLeastOne(cfg.alignment);
    forall e | e in HarvestOf(t, cfg).words ensures HeldPointer(mem, t.regions, cfg, e) {
      AllWordsSound(t, mem, t.regions, psize, align, Mapped(t.regions), e);
      HarvestedIffHeld(mem, t.regions, cfg, e);
    }
    if FullReads(t, t.regions) {
      AllWordsComplete(t, mem, t.regions, psize, align, Mapped(t.regions), Pair(0, 0));
      forall e | HeldPointer(mem, t.regions, cfg, e) ensures e in HarvestOf(t, cfg).words {
        AllWordsComplete(t, mem, t.regions, psize, align, Mapped(t.regions), e);
        HarvestedIffHeld(mem, t.regions, cfg, e);
      }
    }
  }

  lemma PushedAreHeldOnce(t: Target, mem: Snapshot, cfg: PointerScanConfig)
    requires Faithful(t, mem) && Ascending(t.regions)
    ensures AtMostTwice(Pushed(t, cfg), t.regions, AtLeastOne(cfg.pointerSize))
  {
    AllTwice(t, mem, t.regions, AtLeastOne(cfg.pointerSize), AtLeastOne(cfg.alignment), Mapped(t.regions));
  }

  /** Where the seams stand alone, no word pushed twice shares its value. */
  lemma SeamsAreTwinFree(t: Target, mem: Snapshot, cfg: PointerScanConfig)
    requires Faithful(t, mem) && Ascending(t.regions) && SeamsStandAlone(mem, t.regions, cfg)
    ensures TwinFree(Pushed(t, cfg))
  {
    var es := Pushed(t, cfg);
    PushedAreHeld(t, mem, cfg);
    PushedAreHeldOnce(t, mem, cfg);
    forall e, f | multiset(es)[e] > 1 && f in es && f.key == e.key ensures f == e {
      CountedTwice(es, e);
      assert e in es;
      assert HeldPointer(mem, t.regions, cfg, e) && HeldPointer(mem, t.regions, cfg, f);
    }
  }

  /** With full reads below the cap that is the exact condition. */
  lemma SeamsStandAloneIff(t: Target, mem: Snapshot, cfg: PointerScanConfig)
    requires Faithful(t, mem) && Ascending(t.regions) && FullReads(t, t.regions) && !CapReached(t, cfg)
    ensures SeamsStandAlone(mem, t.regions, cfg) <==> TwinFree(Pushed(t, cfg))
  {
    if SeamsStandAlone(mem, t.regions, cfg) {
      SeamsAreTwinFree(t, mem, cfg);
    }
    if TwinFree(Pushed(t, cfg)) {
      PushedAreHeld(t, mem, cfg);
      forall e, f | HeldPointer(mem, t.regions, cfg, e) && HeldPointer(mem, t.regions, cfg, f) && e.key == f.key
                    && OnSeam(t.regions, AtLeastOne(cfg.pointerSize), e.other)
        ensures e == f
      {
        SeamHeldTwice(t, mem, cfg, e);
        assert f in Pushed(t, cfg);
      }
    }
  }

  lemma SeamHeldTwice(t: Target, mem: Snapshot, cfg: PointerScanConfig, e: Pair)
    requires Faithful(t, mem) && Ascending(t.regions) && FullReads(t, t.regions) && HeldPointer(mem, t.regions, cfg, e)
    requires OnSeam(t.regions, AtLeastOne(cfg.pointerSize), e.other)
    ensures multiset(HarvestOf(t, cfg).words)[e] > 1
  {
    var psize, align := AtLeastOne(cfg.pointerSize), AtLeastOne(cfg.alignment);
    HarvestedIffHeld(mem, t.regions, cfg, e);
    var r :| r in t.regions && PointerIn(mem, Mapped(t.regions), psize, align, r.base, r.End(), e);
    var q :| q in t.regions && Seam(q.base, q.End(), psize, e.other);
    SameRegion(t.regions, r, q, e.other);
    SeamInAllTwice(t, mem, t.regions, psize, align, Mapped(t.regions), r, e);
  }

  lemma SameRegion(regions: seq<Region>, r: Region, q: Region, a: nat)
    requires Ascending(regions) && r in regions && q in regions && r.Contains(a) && q.Contains(a)
    ensures r == q
  {
  }

  /** Building the index. It fails only on a failing read before the cap is reached;
      it holds just the pushed words, all of them real pointers; with full reads
      below the cap it holds every pointer; and it holds none twice when the seams
      stand alone. */
  method Build(t: Target, ghost mem: Snapshot, cfg: PointerScanConfig) returns (r: Option<PointerIndex>)
    requires Faithful(t, mem) && Ascending(t.regions)
    ensures r.None? <==> HarvestOf(t, cfg).failed && !CapReached(t, cfg)
    ensures FullReads(t, t.regions) ==> r.Some?
    ensures r.Some? ==> (r.value.truncated <==> CapReached(t, cfg))
    ensures r.Some? ==> forall e :: e in r.value.entries <==> e in Pushed(t, cfg)
    ensures r.Some? ==> SortedByKey(r.value.entries) && OneValueEach(r.value.entries)
    ensures r.Some? ==> forall e :: e in r.value.entries ==> HeldPointer(mem, t.regions, cfg, e)
    ensures FullReads(t, t.regions) && !r.value.truncated ==>
      forall e :: HeldPointer(mem, t.regions, cfg, e) ==> e in r.value.entries
    ensures r.Some? && TwinFree(Pushed(t, cfg)) ==> Distinct(r.value.entries)
    ensures r.Some? && SeamsStandAlone(mem, t.regions, cfg) ==> Distinct(r.value.entries)
  {
    var psize, align := AtLeastOne(cfg.pointerSize), AtLeastOne(cfg.alignment);
    var raw, full := Harvest(t, psize, align, Mapped(t.regions), cfg.maxMapEntries);
    HarvestTaken(t, cfg, raw, full);
    PushedAreHeld(t, mem, cfg);
    if raw.None? {
      return None;
    }
    var sorted := SortByValue(raw.value);
    SameMembers(sorted, raw.value);
    DedupKeepsOrder(sorted);
    r := Some(PointerIndex(Dedup(sorted), full));
    DistinctForEverySortIff(Pushed(t, cfg));
    assert Sorts(Pushed(t, cfg), sorted);
    if SeamsStandAlone(mem, t.regions, cfg) {
      SeamsAreTwinFree(t, mem, cfg);
    }
    forall a, b | a in r.value.entries && b in r.value.entries && a.other == b.other ensures a == b {
      HeldPointersAgree(mem, t.regions, cfg, a, b);
    }
  }

  lemma HarvestTaken(t: Target, cfg: PointerScanConfig, raw: Option<seq<Pair>>, full: bool)
    requires Takes([], HarvestOf(t, cfg), cfg.maxMapEntries, raw, full)
    ensures full <==> CapReached(t, cfg)
    ensures raw.None? <==> HarvestOf(t, cfg).failed && !full
    ensures raw.Some? ==> raw.value == Pushed(t, cfg)
  {
    assert [] + HarvestOf(t, cfg).words == HarvestOf(t, cfg).words;
  }

  function SpaceOf(entries: seq<Pair>, cfg: PointerScanConfig): Space {
    Space(entries, Mapped(cfg.staticRanges), cfg.maxOffset)
  }

  method FindPaths(index: PointerIndex, goal: nat, cfg: PointerScanConfig) returns (r: PointerScanResult)
    requires SortedByKey(index.entries)
    ensures r.paths == Capped([], AllPaths(SpaceOf(index.entries, cfg), goal, cfg.maxDepth, [], {}), cfg.maxResults)
    ensures |r.paths| <= cfg.maxResults
    ensures r.truncated ==> |r.paths| == cfg.maxResults
    ensures !r.truncated ==> r.paths == AllPaths(SpaceOf(index.entries, cfg), goal, cfg.maxDepth, [], {})
    ensures |AllPaths(SpaceOf(index.entries, cfg), goal, cfg.maxDepth, [], {})| < cfg.maxResults ==> !r.truncated
    ensures forall p :: p in r.paths ==> exists hops :: Denotes(SpaceOf(index.entries, cfg), goal, cfg.maxDepth, [], {}, hops, p)
    ensures !r.truncated ==> forall hops, p ::
      Denotes(SpaceOf(index.entries, cfg), goal, cfg.maxDepth, [], {}, hops, p) ==> p in r.paths
    ensures Distinct(index.entries) && OneValueEach(index.entries) ==> Distinct(r.paths)
  {
    var sp := SpaceOf(index.entries, cfg);
    var search := new PathSearch(sp, cfg.maxResults);
    search.Solve(goal, cfg.maxDepth);
    r := PointerScanResult(search.out, search.truncated);
    ghost var all := AllPaths(sp, goal, cfg.maxDepth, [], {});
    forall p | p in r.paths ensures exists hops :: Denotes(sp, goal, cfg.maxDepth, [], {}, hops, p) {
      assert p in all;
      var hops := Sound(sp, goal, cfg.maxDepth, [], {}, p);
    }
    if !r.truncated {
      assert r.paths == all;
      forall hops, p | Denotes(sp, goal, cfg.maxDepth, [], {}, hops, p) ensures p in r.paths {
        Complete(sp, goal, cfg.maxDepth, [], {}, hops);
      }
    }
    if Distinct(index.entries) && OneValueEach(index.entries) {
      NoPathTwice(sp, goal, cfg.maxDepth, [], {});
    }
  }

  /** A pointer chain of the target's memory itself, not of any index. */
  ghost predicate MemoryChain(mem: Snapshot, regions: seq<Region>, cfg: PointerScanConfig, goal: nat, hops: seq<Pair>)
  {
    && 1 <= |hops| <= cfg.maxDepth
    && (forall k {:trigger hops[k]} :: 0 <= k < |hops| ==> HeldPointer(mem, regions, cfg, hops[k]))
    && Linked(cfg.maxOffset, goal, hops)
    && Anchored(Mapped(cfg.staticRanges), hops)
    && Acyclic(goal, hops, {})
  }

  ghost function ReadPtr(mem: Snapshot, psize: nat): nat -> Option<nat> {
    (a: nat) => if Readable(mem, a, psize) then Some(WordAt(mem, a, psize)) else None
  }

  /** A result path: it follows a chain of memory and re-resolves to the goal. */
  ghost predicate LeadsTo(mem: Snapshot, regions: seq<Region>, cfg: PointerScanConfig, goal: nat,
                          hops: seq<Pair>, p: PointerPath) {
    && MemoryChain(mem, regions, cfg, goal, hops)
    && p == PathOf(cfg.maxOffset, goal, hops, [])
    && Resolve(p, ReadPtr(mem, AtLeastOne(cfg.pointerSize))) == Some(goal)
  }

  lemma MemoryChainResolves(mem: Snapshot, regions: seq<Region>, cfg: PointerScanConfig, goal: nat, hops: seq<Pair>)
    requires goal <= USIZE_MAX && MemoryChain(mem, regions, cfg, goal, hops)
    ensures Resolve(PathOf(cfg.maxOffset, goal, hops, []), ReadPtr(mem, AtLeastOne(cfg.pointerSize))) == Some(goal)
  {
    var readPtr := ReadPtr(mem, AtLeastOne(cfg.pointerSize));
    forall k | 0 <= k < |hops|
      ensures readPtr(hops[k].other) == Some(hops[k].key) && hops[k].other <= USIZE_MAX
    {
      assert HeldPointer(mem, regions, cfg, hops[k]);
    }
    ChainResolves(cfg.maxOffset, goal, hops, [], readPtr);
  }

  /** The whole pointer scan. It fails only where the harvest does. Its paths are the
      first `maxResults` of the search over the pushed words. What it lists are
      chains of the target's memory that resolve to the goal; it is truncated only
      when one of the two caps was reached, and otherwise, with full reads, lists
      every such chain; none is listed twice when the seams stand alone. */
  method Scan(t: Target, ghost mem: Snapshot, goal: Usize, cfg: PointerScanConfig)
    returns (r: Option<PointerScanResult>, ghost entries: seq<Pair>)
    requires Faithful(t, mem) && Ascending(t.regions)
    ensures r.None? <==> HarvestOf(t, cfg).failed && !CapReached(t, cfg)
    ensures FullReads(t, t.regions) ==> r.Some?
    ensures r.Some? ==>
      && SortedByKey(entries) && (forall e :: e in entries <==> e in Pushed(t, cfg))
      && r.value.paths == Capped([], AllPaths(SpaceOf(entries, cfg), goal, cfg.maxDepth, [], {}), cfg.maxResults)
    ensures r.Some? ==> |r.value.paths| <= cfg.maxResults
    ensures r.Some? && CapReached(t, cfg) ==> r.value.truncated
    ensures r.Some? && r.value.truncated ==> CapReached(t, cfg) || |r.value.paths| == cfg.maxResults
    ensures r.Some? ==> forall p :: p in r.value.paths ==>
      exists hops :: LeadsTo(mem, t.regions, cfg, goal, hops, p)
    ensures FullReads(t, t.regions) && !r.value.truncated ==>
      forall hops, p :: LeadsTo(mem, t.regions, cfg, goal, hops, p) ==> p in r.value.paths
    ensures r.Some? && TwinFree(Pushed(t, cfg)) ==> Distinct(r.value.paths)
    ensures r.Some? && SeamsStandAlone(mem, t.regions, cfg) ==> Distinct(r.value.paths)
  {
    if SeamsStandAlone(mem, t.regions, cfg) {
      SeamsAreTwinFree(t, mem, cfg);
    }
    var index := Build(t, mem, cfg);
    if index.None? {
      return None, [];
    }
    entries := index.value.entries;
    var found := FindPaths(index.value, goal, cfg);
    r := Some(PointerScanResult(found.paths, found.truncated || index.value.truncated));
    ghost var sp := SpaceOf(index.value.entries, cfg);
    forall p | p in found.paths ensures exists hops :: LeadsTo(mem, t.regions, cfg, goal, hops, p) {
      var hops :| Denotes(sp, goal, cfg.maxDepth, [], {}, hops, p);
      MemoryChainResolves(mem, t.regions, cfg, goal, hops);
      assert LeadsTo(mem, t.regions, cfg, goal, hops, p);
    }
    if FullReads(t, t.regions) && !r.value.truncated {
      forall hops, p | LeadsTo(mem, t.regions, cfg, goal, hops, p) ensures p in found.paths {
        assert Denotes(sp, goal, cfg.maxDepth, [], {}, hops, p);
      }
    }
  }
}
