/** Narrowing a spider's hits against live memory
    (crates/nemclass-scan/src/spider.rs, `spider_refine_with`), and what a run of
    such passes leaves. */
module SpiderRefine {
  import opened Memory
  import opened SpiderGraph
  import opened ValueType
  import Spider
  import PointerScan
  import Scanner

  /** One pass: what it reads behind a path, and which readings it keeps. */
  datatype Pass = Pass(read: SpiderPath -> Option<seq<Byte>>, keep: (seq<Byte>, seq<Byte>) -> bool)

  /** The fresh reading of a hit that stays, `None` for one that goes. */
  function Verdict(p: Pass, h: SpiderHit): Option<seq<Byte>> {
    match p.read(h.path)
    case None => None
    case Some(bytes) => if p.keep(bytes, h.current) then Some(bytes) else None
  }

  /** The survivors in order, each with its reading rotated. */
  function Refined(p: Pass, hits: seq<SpiderHit>): seq<SpiderHit> {
    if hits == [] then []
    else
      var n := |hits| - 1;
      match Verdict(p, hits[n])
      case None => Refined(p, hits[..n])
      case Some(bytes) => Refined(p, hits[..n]) + [SpiderHit(hits[n].path, bytes, hits[n].current)]
  }

  // ----- The pass over a target ----------------------------------------------------

  function Refuse(ty: ScanValueType, compare: ScanCompareType, needle: Option<Needle>): Option<ScanError> {
    if compare.IsBaseline() then Some(CompareIsFirstScanOnly)
    else if compare.NeedsNeedle() && needle.None? then Some(MissingNeedle)
    else if needle.Some? && needle.value.ty != ty then Some(NeedleTypeMismatch)
    else if Scanner.StrideOf(ty, needle) == 0 then Some(NoStride)
    else None
  }

  /** A pointer read counts only when it is whole. */
  function PointerAt(t: Target, psize: nat): nat -> Option<nat> {
    a => var got := t.read(a, psize);
         if got.Got? && |got.bytes| == psize then Some(Word(got.bytes)) else None
  }

  /** Re-walk the path, then re-read the value; anything short is a loss. */
  function ReadPath(t: Target, psize: nat, stride: nat, path: SpiderPath): Option<seq<Byte>> {
    match Spider.Resolve(path, PointerAt(t, psize))
    case None => None
    case Some(a) => Scanner.ReadAt(t, stride, a)
  }

  function PassOver(t: Target, cfg: Spider.SpiderConfig, ty: ScanValueType, compare: ScanCompareType,
                    needle: Option<Needle>, change: Scanner.ChangeTest): Pass
  {
    var psize, stride := cfg.Clamped().pointerSize, Scanner.StrideOf(ty, needle);
    Pass(path => ReadPath(t, psize, stride, path), Scanner.KeepOf(change, ty, compare, needle))
  }

  /** The whole pass. A refused or cancelled one hands the hits back untouched. */
  method Refine(t: Target, hits: seq<SpiderHit>, cfg: Spider.SpiderConfig, ty: ScanValueType, compare: ScanCompareType,
                needle: Option<Needle>, change: Scanner.ChangeTest, keepGoing: nat -> bool)
    returns (error: Option<ScanError>, out: seq<SpiderHit>)
    ensures error.Some? ==> out == hits
    ensures Refuse(ty, compare, needle).Some? ==> error == Refuse(ty, compare, needle)
    ensures Refuse(ty, compare, needle).None? && error.Some? ==>
      error.value == ScanCancelled && exists n :: !keepGoing(n)
    ensures error.None? ==> out == Refined(PassOver(t, cfg, ty, compare, needle, change), hits)
  {
    error, out := Refuse(ty, compare, needle), hits;
    if error.Some? {
      return;
    }
    var p := PassOver(t, cfg, ty, compare, needle, change);
    var verdicts, done := CollectVerdicts(p, hits, keepGoing);
    if !done {
      return Some(ScanCancelled), hits;
    }
    out := Retain(p, hits, verdicts);
  }

  /** The readings are collected before any hit is touched. */
  method CollectVerdicts(p: Pass, hits: seq<SpiderHit>, keepGoing: nat -> bool)
    returns (verdicts: seq<Option<seq<Byte>>>, done: bool)
    ensures done ==> |verdicts| == |hits| && forall i :: 0 <= i < |hits| ==> verdicts[i] == Verdict(p, hits[i])
    ensures !done ==> exists n :: !keepGoing(n)
  {
    verdicts := [];
    for i := 0 to |hits|
      invariant |verdicts| == i && forall j :: 0 <= j < i ==> verdicts[j] == Verdict(p, hits[j])
    {
      if (i + 1) % Spider.PROGRESS_INTERVAL == 0 && !keepGoing(i + 1) {
        return verdicts, false;
      }
      verdicts := verdicts + [Verdict(p, hits[i])];
    }
    done := true;
  }

  method Retain(p: Pass, hits: seq<SpiderHit>, verdicts: seq<Option<seq<Byte>>>) returns (out: seq<SpiderHit>)
    requires |verdicts| == |hits| && forall i :: 0 <= i < |hits| ==> verdicts[i] == Verdict(p, hits[i])
    ensures out == Refined(p, hits)
  {
    out := [];
    for i := 0 to |hits|
      invariant out == Refined(p, hits[..i])
    {
      assert hits[..i + 1][..i] == hits[..i];
      if verdicts[i].Some? {
        out := out + [SpiderHit(hits[i].path, verdicts[i].value, hits[i].current)];
      }
    }
    assert hits[..|hits|] == hits;
  }

  // ----- What is read is what memory holds ---------------------------------------------

  lemma PointerReadsMemory(t: Target, mem: Snapshot, psize: nat, a: nat)
    requires Faithful(t, mem) && psize > 0 && PointerAt(t, psize)(a).Some?
    ensures PointerScan.ReadPtr(mem, psize)(a) == PointerAt(t, psize)(a)
  {
    assert t.read(a, psize).Got?;
  }

  /** Where one reader succeeds, another that agrees with it reaches the same. */
  lemma {:induction false} HopsAgree(root: nat, parents: seq<nat>, one: nat -> Option<nat>, two: nat -> Option<nat>)
    requires forall a: nat {:trigger one(a)} :: one(a).Some? ==> two(a) == one(a)
    requires Spider.Hops(root, parents, one).Some?
    ensures Spider.Hops(root, parents, two) == Spider.Hops(root, parents, one)
    decreases |parents|
  {
    if parents != [] {
      HopsAgree(root, parents[..|parents| - 1], one, two);
    }
  }

  /** A reading is exactly the bytes at the address the path resolves to. */
  lemma ReadingIsMemory(t: Target, mem: Snapshot, psize: nat, stride: nat, path: SpiderPath)
    requires Faithful(t, mem) && psize > 0 && ReadPath(t, psize, stride, path).Some?
    ensures var at := Spider.Resolve(path, PointerScan.ReadPtr(mem, psize));
            at.Some? && Readable(mem, at.value, stride) && ReadPath(t, psize, stride, path).value == Slice(mem, at.value, stride)
  {
    forall a: nat | PointerAt(t, psize)(a).Some? ensures PointerScan.ReadPtr(mem, psize)(a) == PointerAt(t, psize)(a) {
      PointerReadsMemory(t, mem, psize, a);
    }
    HopsAgree(path.root, path.parentOffsets, PointerAt(t, psize), PointerScan.ReadPtr(mem, psize));
    var a := Spider.Resolve(path, PointerAt(t, psize)).value;
    assert t.read(a, stride).Got?;
  }

  /** Over a target that returns whatever is mapped a path is read exactly when it
      resolves in memory to readable bytes. */
  lemma ReadsIffResolves(t: Target, mem: Snapshot, psize: nat, stride: nat, path: SpiderPath)
    requires Faithful(t, mem) && ReadsAll(t, mem) && psize > 0
    ensures var at := Spider.Resolve(path, PointerScan.ReadPtr(mem, psize));
            ReadPath(t, psize, stride, path).Some? <==> at.Some? && Readable(mem, at.value, stride)
  {
    forall a: nat ensures PointerAt(t, psize)(a) == PointerScan.ReadPtr(mem, psize)(a) {
      PointerIsWhole(t, mem, psize, a);
    }
    if Spider.Hops(path.root, path.parentOffsets, PointerAt(t, psize)).Some? {
      HopsAgree(path.root, path.parentOffsets, PointerAt(t, psize), PointerScan.ReadPtr(mem, psize));
    }
    if Spider.Hops(path.root, path.parentOffsets, PointerScan.ReadPtr(mem, psize)).Some? {
      HopsAgree(path.root, path.parentOffsets, PointerScan.ReadPtr(mem, psize), PointerAt(t, psize));
    }
    var at := Spider.Resolve(path, PointerScan.ReadPtr(mem, psize));
    if at.Some? {
      Scanner.ReadableIffRead(t, mem, stride, at.value);
    }
  }

  lemma PointerIsWhole(t: Target, mem: Snapshot, psize: nat, a: nat)
    requires Faithful(t, mem) && ReadsAll(t, mem) && psize > 0
    ensures PointerAt(t, psize)(a) == PointerScan.ReadPtr(mem, psize)(a)
  {
    assert Readable(mem, a, psize) ==> t.read(a, psize).Got?;
  }

  /** What a refinement takes: any compare but a baseline, and without a needle only the
      four with the value before. */
  lemma AcceptsIff(ty: ScanValueType, compare: ScanCompareType, needle: Option<Needle>)
    ensures Refuse(ty, compare, needle).None? <==>
      match needle
      case None => compare in {Increased, Decreased, Changed, Unchanged} && ty !in {Bytes, StringUtf8, StringUtf16}
      case Some(n) => compare != Unknown && n.ty == ty && n.stride > 0
  {
  }

  lemma {:induction false} RefinedExact(p: Pass, hits: seq<SpiderHit>, h: SpiderHit)
    ensures h in Refined(p, hits) <==>
            exists g :: g in hits && Verdict(p, g).Some? && h == SpiderHit(g.path, Verdict(p, g).value, g.current)
  {
    if hits != [] {
      var n := |hits| - 1;
      RefinedExact(p, hits[..n], h);
      assert forall g :: g in hits <==> g in hits[..n] || g == hits[n];
    }
  }

  /** `h` is hit `g` with a fresh reading: the path resolves in memory to bytes as wide
      as the needle or the type, and they pass the compare with the reading before. */
  ghost predicate Renews(mem: Snapshot, cfg: Spider.SpiderConfig, ty: ScanValueType, compare: ScanCompareType,
                         needle: Option<Needle>, change: Scanner.ChangeTest, g: SpiderHit, h: SpiderHit)
  {
    var at := Spider.Resolve(g.path, PointerScan.ReadPtr(mem, cfg.Clamped().pointerSize));
    var width := match needle
                 case Some(n) => n.stride
                 case None => (match ty.FixedWidth() case Some(w) => w case None => 0);
    && at.Some? && Readable(mem, at.value, width)
    && h == SpiderHit(g.path, Slice(mem, at.value, width), g.current)
    && Keeps(ty, compare, needle, change, h.current, g.current)
  }

  /** The compare of a reading with the one before, by the needle or without one. */
  predicate Keeps(ty: ScanValueType, compare: ScanCompareType, needle: Option<Needle>, change: Scanner.ChangeTest,
                  now: seq<Byte>, before: seq<Byte>)
  {
    match needle
    case Some(n) => n.test(compare, now, Some(before))
    case None => change(ty, compare, now, before)
  }

  /** One pass over a target that returns whatever is mapped, in terms of its memory. */
  lemma PassMeans(t: Target, mem: Snapshot, cfg: Spider.SpiderConfig, ty: ScanValueType, compare: ScanCompareType,
                  needle: Option<Needle>, change: Scanner.ChangeTest, hits: seq<SpiderHit>, h: SpiderHit)
    requires Faithful(t, mem) && ReadsAll(t, mem) && Refuse(ty, compare, needle).None?
    ensures h in Refined(PassOver(t, cfg, ty, compare, needle, change), hits) <==>
            exists g :: g in hits && Renews(mem, cfg, ty, compare, needle, change, g, h)
  {
    var p := PassOver(t, cfg, ty, compare, needle, change);
    RefinedExact(p, hits, h);
    forall g ensures Verdict(p, g).Some? && h == SpiderHit(g.path, Verdict(p, g).value, g.current) <==>
                     Renews(mem, cfg, ty, compare, needle, change, g, h)
    {
      VerdictMeans(t, mem, cfg, ty, compare, needle, change, g, h);
    }
  }

  lemma VerdictMeans(t: Target, mem: Snapshot, cfg: Spider.SpiderConfig, ty: ScanValueType, compare: ScanCompareType,
                     needle: Option<Needle>, change: Scanner.ChangeTest, g: SpiderHit, h: SpiderHit)
    requires Faithful(t, mem) && ReadsAll(t, mem) && Refuse(ty, compare, needle).None?
    ensures var v := Verdict(PassOver(t, cfg, ty, compare, needle, change), g);
            v.Some? && h == SpiderHit(g.path, v.value, g.current) <==>
            Renews(mem, cfg, ty, compare, needle, change, g, h)
  {
    var psize, stride := cfg.Clamped().pointerSize, Scanner.StrideOf(ty, needle);
    VerdictOf(t, cfg, ty, compare, needle, change, g);
    ReadsIffResolves(t, mem, psize, stride, g.path);
    if ReadPath(t, psize, stride, g.path).Some? {
      ReadingIsMemory(t, mem, psize, stride, g.path);
    }
  }

  lemma VerdictOf(t: Target, cfg: Spider.SpiderConfig, ty: ScanValueType, compare: ScanCompareType,
                  needle: Option<Needle>, change: Scanner.ChangeTest, g: SpiderHit)
    ensures Verdict(PassOver(t, cfg, ty, compare, needle, change), g) ==
      match ReadPath(t, cfg.Clamped().pointerSize, Scanner.StrideOf(ty, needle), g.path)
      case None => None
      case Some(b) => if Keeps(ty, compare, needle, change, b, g.current) then Some(b) else None
  {
    var b := ReadPath(t, cfg.Clamped().pointerSize, Scanner.StrideOf(ty, needle), g.path);
    if b.Some? {
      KeepOfKeeps(ty, compare, needle, change, b.value, g.current);
    }
  }

  lemma KeepOfKeeps(ty: ScanValueType, compare: ScanCompareType, needle: Option<Needle>, change: Scanner.ChangeTest,
                    now: seq<Byte>, before: seq<Byte>)
    ensures Scanner.KeepOf(change, ty, compare, needle)(now, before) == Keeps(ty, compare, needle, change, now, before)
  {
  }

  /** Survivors stay in order: two lists are narrowed one after the other. */
  lemma {:induction false} RefinedConcat(p: Pass, a: seq<SpiderHit>, b: seq<SpiderHit>)
    ensures Refined(p, a + b) == Refined(p, a) + Refined(p, b)
  {
    if b == [] {
      assert a + b == a;
    } else {
      var n := |b| - 1;
      assert (a + b)[..|a + b| - 1] == a + b[..n];
      RefinedConcat(p, a, b[..n]);
    }
  }

  // ----- A run of passes ------------------------------------------------------------------

  ghost function RefinedBy(hits: seq<SpiderHit>, passes: seq<Pass>): seq<SpiderHit>
    decreases |passes|
  {
    if passes == [] then hits else Refined(passes[|passes| - 1], RefinedBy(hits, passes[..|passes| - 1]))
  }

  /** The reading of a path after `k` passes. */
  ghost function ReadingAt(h: SpiderHit, passes: seq<Pass>, k: nat): seq<Byte>
    requires k <= |passes|
  {
    if k == 0 then h.current else match passes[k - 1].read(h.path) case None => [] case Some(b) => b
  }

  /** Pass `k` could read the path and kept the reading against the one before. */
  ghost predicate Passed(h: SpiderHit, passes: seq<Pass>, k: nat)
    requires k < |passes|
  {
    var now := passes[k].read(h.path);
    now.Some? && passes[k].keep(now.value, ReadingAt(h, passes, k))
  }

  /** The path resolved in every pass, and every reading passed the compare against
      the reading before it. */
  ghost predicate Survives(h: SpiderHit, passes: seq<Pass>) {
    forall k: nat :: k < |passes| ==> Passed(h, passes, k)
  }

  ghost function Final(h: SpiderHit, passes: seq<Pass>): SpiderHit {
    var k := |passes|;
    if k == 0 then h else SpiderHit(h.path, ReadingAt(h, passes, k), ReadingAt(h, passes, k - 1))
  }

  lemma SurvivesSnoc(h: SpiderHit, passes: seq<Pass>)
    requires passes != []
    ensures var n := |passes| - 1;
            && Final(h, passes[..n]).path == h.path && Final(h, passes[..n]).current == ReadingAt(h, passes, n)
            && (Survives(h, passes) <==> Survives(h, passes[..n]) && Verdict(passes[n], Final(h, passes[..n])).Some?)
            && (Survives(h, passes) ==>
                  Final(h, passes) == SpiderHit(h.path, Verdict(passes[n], Final(h, passes[..n])).value,
                                                Final(h, passes[..n]).current))
  {
    var n := |passes| - 1;
    SameReadings(h, passes, n);
    SurvivesSplit(h, passes);
  }

  lemma SameReadings(h: SpiderHit, passes: seq<Pass>, n: nat)
    requires n <= |passes|
    ensures forall k: nat :: k <= n ==> ReadingAt(h, passes[..n], k) == ReadingAt(h, passes, k)
    ensures Final(h, passes[..n]).path == h.path && Final(h, passes[..n]).current == ReadingAt(h, passes, n)
  {
    forall k: nat | k <= n ensures ReadingAt(h, passes[..n], k) == ReadingAt(h, passes, k) {
      if k > 0 {
        assert passes[..n][k - 1] == passes[k - 1];
      }
    }
  }

  lemma SurvivesSplit(h: SpiderHit, passes: seq<Pass>)
    requires passes != []
    ensures var n := |passes| - 1;
            Survives(h, passes) <==> Survives(h, passes[..n]) && Passed(h, passes, n)
  {
    var n := |passes| - 1;
    SameReadings(h, passes, n);
    forall k: nat | k < n
      ensures Passed(h, passes[..n], k) <==> Passed(h, passes, k)
    {
    }
  }

  /** After any number of passes the list holds exactly the hits that survived
      all of them, with the last two readings. */
  lemma {:induction false} RefinedByExact(hits: seq<SpiderHit>, passes: seq<Pass>, h: SpiderHit)
    ensures h in RefinedBy(hits, passes) <==> exists g :: g in hits && Survives(g, passes) && h == Final(g, passes)
    decreases |passes|
  {
    if passes == [] {
      assert forall g :: Survives(g, passes) && Final(g, passes) == g;
    } else {
      var n := |passes| - 1;
      var earlier := passes[..n];
      RefinedExact(passes[n], RefinedBy(hits, earlier), h);
      if h in RefinedBy(hits, passes) {
        var m :| m in RefinedBy(hits, earlier) && Verdict(passes[n], m).Some?
              && h == SpiderHit(m.path, Verdict(passes[n], m).value, m.current);
        RefinedByExact(hits, earlier, m);
        var g :| g in hits && Survives(g, earlier) && m == Final(g, earlier);
        SurvivesSnoc(g, passes);
      }
      if g :| g in hits && Survives(g, passes) && h == Final(g, passes) {
        SurvivesSnoc(g, passes);
        RefinedByExact(hits, earlier, Final(g, earlier));
      }
    }
  }
}
