/** Whole scan runs over snapshots (crates/nemclass-scan/src/scanner.rs): what a
    `Scanner` holds after a first scan and any number of next scans, in terms of
    the memory each pass saw, and the same for integer values. */
module ScanRun {
  import opened Memory
  import opened ValueType
  import opened ResultColumns
  import opened ScanWalk
  import opened ScanSession
  import opened Scanner
  import RegionFilter

  // ----- Passes over snapshots -----------------------------------------------------

  /** A next scan of one snapshot. */
  datatype Pass = Pass(target: Target, mem: Snapshot, keep: (seq<Byte>, seq<Byte>) -> bool)

  function NextOf(p: Pass, stride: nat): Next {
    Next(stride, ReadOf(p.target, stride), p.keep)
  }

  function NextsOf(passes: seq<Pass>, stride: nat): (nexts: seq<Next>)
    ensures |nexts| == |passes|
  {
    seq(|passes|, i requires 0 <= i < |passes| => NextOf(passes[i], stride))
  }

  ghost predicate AllFaithful(passes: seq<Pass>) {
    forall p :: p in passes ==> Faithful(p.target, p.mem)
  }

  ghost function Bytes(mem: Snapshot, a: nat, n: nat): seq<Byte> {
    if Readable(mem, a, n) then Slice(mem, a, n) else []
  }

  /** The snapshot before pass `k`. */
  ghost function MemBefore(mem0: Snapshot, passes: seq<Pass>, k: nat): Snapshot
    requires k <= |passes|
  {
    if k == 0 then mem0 else passes[k - 1].mem
  }

  /** Pass `k` could read `a`, and kept its bytes against those of the snapshot before. */
  ghost predicate Held(mem0: Snapshot, passes: seq<Pass>, stride: nat, a: nat, k: nat)
    requires k < |passes|
  {
    && ReadAt(passes[k].target, stride, a).Some?
    && passes[k].keep(Bytes(passes[k].mem, a, stride), Bytes(MemBefore(mem0, passes, k), a, stride))
  }

  ghost predicate HeldThroughout(mem0: Snapshot, passes: seq<Pass>, stride: nat, a: nat) {
    forall k: nat :: k < |passes| ==> Held(mem0, passes, stride, a, k)
  }

  /** The bytes of the last snapshot, and of the one before it. */
  ghost function LastTwo(mem0: Snapshot, passes: seq<Pass>, stride: nat, a: nat): Row {
    var k := |passes|;
    Row(a, Bytes(MemBefore(mem0, passes, k), a, stride),
        Bytes(MemBefore(mem0, passes, if k == 0 then 0 else k - 1), a, stride))
  }

  lemma ValueIsSnapshot(mem0: Snapshot, passes: seq<Pass>, stride: nat, a: nat, k: nat)
    requires AllFaithful(passes) && Readable(mem0, a, stride) && k <= |passes|
    requires k > 0 ==> ReadAt(passes[k - 1].target, stride, a).Some?
    ensures ValueAt(Slice(mem0, a, stride), NextsOf(passes, stride), a, k) == Bytes(MemBefore(mem0, passes, k), a, stride)
  {
    if k > 0 {
      assert passes[k - 1] in passes;
      ReadIsSnapshot(passes[k - 1].target, passes[k - 1].mem, stride, a);
    }
  }

  lemma PassedIffHeld(mem0: Snapshot, passes: seq<Pass>, stride: nat, a: nat, k: nat)
    requires AllFaithful(passes) && Readable(mem0, a, stride) && k < |passes|
    requires k > 0 ==> ReadAt(passes[k - 1].target, stride, a).Some?
    ensures Passed(Slice(mem0, a, stride), NextsOf(passes, stride), a, k) <==> Held(mem0, passes, stride, a, k)
  {
    assert passes[k] in passes;
    ValueIsSnapshot(mem0, passes, stride, a, k);
    if ReadAt(passes[k].target, stride, a).Some? {
      ReadIsSnapshot(passes[k].target, passes[k].mem, stride, a);
    }
  }

  lemma SurvivesIffHeld(mem0: Snapshot, passes: seq<Pass>, stride: nat, a: nat)
    requires AllFaithful(passes) && Readable(mem0, a, stride)
    ensures Survives(Slice(mem0, a, stride), NextsOf(passes, stride), a) <==> HeldThroughout(mem0, passes, stride, a)
  {
    var v, nexts := Slice(mem0, a, stride), NextsOf(passes, stride);
    if Survives(v, nexts, a) {
      forall k: nat | k < |passes| ensures Held(mem0, passes, stride, a, k) {
        assert Passed(v, nexts, a, k) && (k > 0 ==> Passed(v, nexts, a, k - 1));
        PassedIffHeld(mem0, passes, stride, a, k);
      }
    }
    if HeldThroughout(mem0, passes, stride, a) {
      forall k: nat | k < |passes| ensures Passed(v, nexts, a, k) {
        assert Held(mem0, passes, stride, a, k) && (k > 0 ==> Held(mem0, passes, stride, a, k - 1));
        PassedIffHeld(mem0, passes, stride, a, k);
      }
    }
  }

  lemma FinalIsLastTwo(mem0: Snapshot, passes: seq<Pass>, stride: nat, a: nat)
    requires AllFaithful(passes) && Readable(mem0, a, stride) && HeldThroughout(mem0, passes, stride, a)
    ensures FinalRow(Slice(mem0, a, stride), NextsOf(passes, stride), a) == LastTwo(mem0, passes, stride, a)
  {
    var k := |passes|;
    if k > 0 {
      assert Held(mem0, passes, stride, a, k - 1) && (k > 1 ==> Held(mem0, passes, stride, a, k - 2));
      ValueIsSnapshot(mem0, passes, stride, a, k - 1);
    }
    ValueIsSnapshot(mem0, passes, stride, a, k);
  }

  /** What the whole run says of a row: its address matched in the first snapshot
      and was held by every pass; it carries the last two snapshots' bytes. */
  ghost predicate Found(mem0: Snapshot, regions: seq<Region>, stride: nat, align: nat, test: seq<Byte> -> bool,
                        passes: seq<Pass>, row: Row)
    requires align > 0
  {
    && (exists r :: r in regions && Matches(mem0, r, stride, align, test, row.address))
    && HeldThroughout(mem0, passes, stride, row.address)
    && row == LastTwo(mem0, passes, stride, row.address)
  }

  lemma RunMeaning(mem0: Snapshot, regions: seq<Region>, stride: nat, align: nat, test: seq<Byte> -> bool,
                   passes: seq<Pass>, row: Row)
    requires align > 0 && AllFaithful(passes)
    ensures row in Narrowed(First(ScanRows(mem0, regions, stride, align, test)), NextsOf(passes, stride)) <==>
            Found(mem0, regions, stride, align, test, passes, row)
  {
    var nexts, a := NextsOf(passes, stride), row.address;
    forall next | next in nexts ensures FixedPass(next, stride) {
      var i :| 0 <= i < |nexts| && nexts[i] == next;
      ReadsAreFixed(passes[i].target, stride, passes[i].keep);
    }
    SessionMeaning(mem0, regions, stride, align, test, nexts, row);
    if exists r :: r in regions && Matches(mem0, r, stride, align, test, a) {
      SurvivesIffHeld(mem0, passes, stride, a);
      if HeldThroughout(mem0, passes, stride, a) {
        FinalIsLastTwo(mem0, passes, stride, a);
      }
    }
  }

  // ----- Over snapshots alone ------------------------------------------------------

  ghost predicate AllRead(passes: seq<Pass>) {
    forall p :: p in passes ==> ReadsAll(p.target, p.mem)
  }

  /** `a` is readable in snapshot `k`, whose bytes compare against those before. */
  ghost predicate Kept(mem0: Snapshot, passes: seq<Pass>, stride: nat, a: nat, k: nat)
    requires k < |passes|
  {
    && Readable(passes[k].mem, a, stride)
    && passes[k].keep(Bytes(passes[k].mem, a, stride), Bytes(MemBefore(mem0, passes, k), a, stride))
  }

  lemma HeldIffKept(mem0: Snapshot, passes: seq<Pass>, stride: nat, a: nat, k: nat)
    requires k < |passes| && AllFaithful(passes) && AllRead(passes)
    ensures Held(mem0, passes, stride, a, k) <==> Kept(mem0, passes, stride, a, k)
  {
    assert passes[k] in passes;
    ReadableIffRead(passes[k].target, passes[k].mem, stride, a);
  }

  /** A run over snapshots alone, its targets returning whatever is mapped: a row is
      there exactly when its address matched in the first snapshot, is readable in
      every later one and passes each compare against the snapshot before. */
  lemma SnapshotRunMeaning(mem0: Snapshot, regions: seq<Region>, stride: nat, align: nat, test: seq<Byte> -> bool,
                           passes: seq<Pass>, row: Row)
    requires align > 0 && AllFaithful(passes) && AllRead(passes)
    ensures row in Narrowed(First(ScanRows(mem0, regions, stride, align, test)), NextsOf(passes, stride)) <==>
      && (exists r :: r in regions && Matches(mem0, r, stride, align, test, row.address))
      && (forall k: nat :: k < |passes| ==> Kept(mem0, passes, stride, row.address, k))
      && row == LastTwo(mem0, passes, stride, row.address)
  {
    RunMeaning(mem0, regions, stride, align, test, passes, row);
    forall k: nat | k < |passes|
      ensures Held(mem0, passes, stride, row.address, k) <==> Kept(mem0, passes, stride, row.address, k)
    {
      HeldIffKept(mem0, passes, stride, row.address, k);
    }
  }

  /** A pass over such a target is dead exactly when none of the rows is readable. */
  lemma DeadIffUnreadable(t: Target, mem: Snapshot, stride: nat, rows: seq<Row>)
    requires Faithful(t, mem) && ReadsAll(t, mem)
    ensures DeadTarget(rows, ReadOf(t, stride)) <==> rows != [] && forall row :: row in rows ==> !Readable(mem, row.address, stride)
  {
    DeadIffNoneRead(rows, ReadOf(t, stride));
    forall row | row in rows ensures ReadAt(t, stride, row.address).Some? <==> Readable(mem, row.address, stride) {
      ReadableIffRead(t, mem, stride, row.address);
    }
  }

  lemma {:induction false} DeadIffNoneRead(rows: seq<Row>, read: nat -> Option<seq<Byte>>)
    ensures Unreadable(rows, read) <= |rows|
    ensures Unreadable(rows, read) == |rows| <==> forall row :: row in rows ==> read(row.address).None?
  {
    if rows != [] {
      var n := |rows| - 1;
      DeadIffNoneRead(rows[..n], read);
      assert rows == rows[..n] + [rows[n]];
    }
  }

  // ----- A scanner's run ----------------------------------------------------------------

  /** One call of a caller: the target as it is then, the compare and the needle. */
  datatype Request = Request(target: Target, compare: ScanCompareType, needle: Option<Needle>)

  function PassOf(change: ChangeTest, ty: ScanValueType, q: Request, mem: Snapshot): Pass {
    Pass(q.target, mem, KeepOf(change, ty, q.compare, q.needle))
  }

  function PassesOf(change: ChangeTest, ty: ScanValueType, rest: seq<Request>, mems: seq<Snapshot>): (passes: seq<Pass>)
    requires |mems| == |rest|
    ensures |passes| == |rest|
  {
    seq(|rest|, i requires 0 <= i < |rest| => PassOf(change, ty, rest[i], mems[i]))
  }

  ghost predicate FaithfulTo(rest: seq<Request>, mems: seq<Snapshot>) {
    |mems| == |rest| && forall i :: 0 <= i < |rest| ==> Faithful(rest[i].target, mems[i])
  }

  /** A scan the type's width fixes: every needle that is not refused has it. */
  lemma SameStride(ty: ScanValueType, compare: ScanCompareType, needle: Option<Needle>)
    requires ty.FixedWidth().Some? && WellTyped(needle) && Validate(ty, compare, needle).None?
    ensures StrideOf(ty, needle) == ty.FixedWidth().value
  {
  }

  lemma NarrowedSnoc(first: First, nexts: seq<Next>, k: nat)
    requires k < |nexts|
    ensures Narrowed(first, nexts[..k + 1])
         == NextRows(Narrowed(first, nexts[..k]), nexts[k].stride, nexts[k].read, nexts[k].keep)
  {
    assert nexts[..k + 1][..k] == nexts[..k];
  }

  /** Why a first scan may fail. */
  ghost predicate FirstFails(ty: ScanValueType, regions: seq<Region>, q: Request, keepGoing: nat -> bool, error: ScanError) {
    var refusal := RefuseFirst(ty, q.compare, q.needle);
    if refusal.Some? then error == refusal.value
    else
      || (error == ScanCancelled && exists n :: !keepGoing(n))
      || (error == TargetError && !FullReads(q.target, regions))
  }

  /** Why a next scan of these rows may fail. */
  ghost predicate NextFails(ty: ScanValueType, rows: seq<Row>, q: Request, keepGoing: nat -> bool, error: ScanError) {
    var refusal := RefuseNext(true, ty, q.compare, q.needle);
    if refusal.Some? then error == refusal.value
    else
      || (error == ScanCancelled && exists n :: !keepGoing(n))
      || (error == TargetUnreadable && DeadTarget(rows, ReadOf(q.target, StrideOf(ty, q.needle))))
  }

  ghost predicate Unrefused(ty: ScanValueType, rest: seq<Request>, n: nat) {
    n <= |rest| && forall i :: 0 <= i < n ==> RefuseNext(true, ty, rest[i].compare, rest[i].needle).None?
  }

  /** `n` passes succeeded: none of them was refused, and the one after them, if there
      is one, failed for a reason. */
  ghost predicate Stopped(ty: ScanValueType, rest: seq<Request>, n: nat, rows: seq<Row>, keepGoing: nat -> bool,
                          error: Option<ScanError>)
  {
    && Unrefused(ty, rest, n) && (error.None? <==> n == |rest|)
    && (n < |rest| ==> NextFails(ty, rows, rest[n], keepGoing, error.value))
  }

  /** A first scan, then next scans while they succeed. A first scan that fails leaves
      the results alone. Otherwise, if it was not truncated and read its regions in
      full, the scanner holds exactly the addresses that matched in the first snapshot
      and that each of the `n` successful passes kept against the snapshot before, with
      the last two snapshots' bytes; and a pass that fails does so for a reason. */
  method RunPasses(sc: Scanner, first: Request, ghost mem0: Snapshot, rest: seq<Request>, ghost mems: seq<Snapshot>,
                   keepGoing: nat -> bool)
    returns (error: Option<ScanError>, begun: bool, n: nat)
    requires sc.Valid() && sc.valueType.FixedWidth().Some?
    requires Faithful(first.target, mem0) && FaithfulTo(rest, mems)
    requires WellTyped(first.needle) && forall q :: q in rest ==> WellTyped(q.needle)
    modifies sc`truncated, sc`scannedRegions, sc`history, sc`hasScanned, sc`lastStats
    ensures sc.Valid()
    ensures !begun ==>
      && error.Some? && sc.history == old(sc.history)
      && FirstFails(sc.valueType, RegionFilter.Filtered(sc.filter, first.target.regions), first, keepGoing, error.value)
    ensures begun ==>
      && RefuseFirst(sc.valueType, first.compare, first.needle).None?
      && Stopped(sc.valueType, rest, n, sc.State().Current(), keepGoing, error)
    ensures
      var regions := RegionFilter.Filtered(sc.filter, first.target.regions);
      begun && !sc.truncated && FullReads(first.target, regions) ==>
        forall row :: row in sc.State().Current() <==>
          Found(mem0, regions, sc.valueType.FixedWidth().value, old(sc.Align()), TestOf(first.compare, first.needle),
                PassesOf(sc.change, sc.valueType, rest[..n], mems[..n]), row)
  {
    ghost var regions := RegionFilter.Filtered(sc.filter, first.target.regions);
    ghost var stride, align := sc.valueType.FixedWidth().value, sc.Align();
    ghost var test := TestOf(first.compare, first.needle);
    ghost var rows;
    error, rows := RunFirstPass(sc, first, mem0, keepGoing);
    begun, n := error.None?, 0;
    if !begun {
      return;
    }
    error, n := RunRest(sc, rest, mems, First(rows), keepGoing);
    if !sc.truncated && FullReads(first.target, regions) {
      ghost var passes := PassesOf(sc.change, sc.valueType, rest[..n], mems[..n]);
      FaithfulPasses(sc.change, sc.valueType, rest[..n], mems[..n]);
      forall row ensures row in sc.State().Current() <==> Found(mem0, regions, stride, align, test, passes, row) {
        RunMeaning(mem0, regions, stride, align, test, passes, row);
      }
    }
  }

  method RunFirstPass(sc: Scanner, first: Request, ghost mem0: Snapshot, keepGoing: nat -> bool)
    returns (error: Option<ScanError>, ghost rows: seq<Row>)
    requires sc.Valid() && sc.valueType.FixedWidth().Some? && WellTyped(first.needle) && Faithful(first.target, mem0)
    modifies sc`truncated, sc`scannedRegions, sc`history, sc`hasScanned, sc`lastStats
    ensures sc.Valid() && (error.None? ==> sc.State().HasScanned() && sc.State().Current() == rows)
    ensures error.Some? ==>
      && sc.history == old(sc.history)
      && FirstFails(sc.valueType, RegionFilter.Filtered(sc.filter, first.target.regions), first, keepGoing, error.value)
    ensures error.None? ==> RefuseFirst(sc.valueType, first.compare, first.needle).None?
    ensures
      var regions := RegionFilter.Filtered(sc.filter, first.target.regions);
      error.None? && !sc.truncated && FullReads(first.target, regions) ==>
        rows == ScanRows(mem0, regions, sc.valueType.FixedWidth().value, old(sc.Align()),
                         TestOf(first.compare, first.needle))
  {
    ghost var all := sc.FirstRows(first.target, mem0, first.compare, first.needle);
    error, rows := sc.FirstScan(first.target, mem0, first.compare, first.needle, keepGoing);
    if error.None? {
      SameStride(sc.valueType, first.compare, first.needle);
    }
  }

  /** The rows after `n` passes. */
  ghost function RowsAfter(first: First, change: ChangeTest, ty: ScanValueType, rest: seq<Request>, mems: seq<Snapshot>,
                           n: nat): seq<Row>
    requires ty.FixedWidth().Some? && |mems| == |rest| && n <= |rest|
  {
    Narrowed(first, NextsOf(PassesOf(change, ty, rest[..n], mems[..n]), ty.FixedWidth().value))
  }

  /** `n` passes have succeeded and left `rows`. */
  ghost predicate Reached(first: First, change: ChangeTest, ty: ScanValueType, rest: seq<Request>, mems: seq<Snapshot>,
                          n: nat, rows: seq<Row>)
    requires ty.FixedWidth().Some? && |mems| == |rest|
  {
    Unrefused(ty, rest, n) && rows == RowsAfter(first, change, ty, rest, mems, n)
  }

  /** One pass over `rows` leaves `rows'`. */
  ghost predicate Follows(change: ChangeTest, ty: ScanValueType, q: Request, mem: Snapshot, rows: seq<Row>, rows': seq<Row>)
    requires ty.FixedWidth().Some?
  {
    var next := NextOf(PassOf(change, ty, q, mem), ty.FixedWidth().value);
    rows' == NextRows(rows, next.stride, next.read, next.keep)
  }

  lemma ReachedStart(first: First, change: ChangeTest, ty: ScanValueType, rest: seq<Request>, mems: seq<Snapshot>)
    requires ty.FixedWidth().Some? && |mems| == |rest|
    ensures Reached(first, change, ty, rest, mems, 0, first.rows)
  {
  }

  lemma ReachedStep(first: First, change: ChangeTest, ty: ScanValueType, rest: seq<Request>, mems: seq<Snapshot>, n: nat,
                    rows: seq<Row>, rows': seq<Row>)
    requires ty.FixedWidth().Some? && |mems| == |rest| && n < |rest| && Reached(first, change, ty, rest, mems, n, rows)
    requires RefuseNext(true, ty, rest[n].compare, rest[n].needle).None?
    requires Follows(change, ty, rest[n], mems[n], rows, rows')
    ensures Reached(first, change, ty, rest, mems, n + 1, rows')
  {
    var w := ty.FixedWidth().value;
    PassesSnoc(change, ty, rest, mems, n, w);
    NarrowedSnoc(first, NextsOf(PassesOf(change, ty, rest[..n + 1], mems[..n + 1]), w), n);
  }

  lemma PassesSnoc(change: ChangeTest, ty: ScanValueType, rest: seq<Request>, mems: seq<Snapshot>, k: nat, w: nat)
    requires |mems| == |rest| && k < |rest|
    ensures var nexts := NextsOf(PassesOf(change, ty, rest[..k + 1], mems[..k + 1]), w);
            && nexts[..k] == NextsOf(PassesOf(change, ty, rest[..k], mems[..k]), w)
            && nexts[k] == NextOf(PassOf(change, ty, rest[k], mems[k]), w)
            && nexts[..k + 1] == nexts
  {
  }

  /** The next scans of a run, while they succeed. */
  method RunRest(sc: Scanner, rest: seq<Request>, ghost mems: seq<Snapshot>, ghost first: First, keepGoing: nat -> bool)
    returns (error: Option<ScanError>, n: nat)
    requires sc.Valid() && sc.valueType.FixedWidth().Some? && |mems| == |rest|
    requires sc.State().HasScanned() && sc.State().Current() == first.rows
    requires forall q :: q in rest ==> WellTyped(q.needle)
    modifies sc`history, sc`hasScanned, sc`lastStats
    ensures sc.Valid() && Stopped(sc.valueType, rest, n, sc.State().Current(), keepGoing, error)
    ensures Reached(first, sc.change, sc.valueType, rest, mems, n, sc.State().Current())
  {
    n := 0;
    error := None;
    ReachedStart(first, sc.change, sc.valueType, rest, mems);
    while n < |rest|
      invariant 0 <= n <= |rest| && sc.Valid() && sc.State().HasScanned() && error.None?
      invariant Reached(first, sc.change, sc.valueType, rest, mems, n, sc.State().Current())
    {
      assert rest[n] in rest;
      ghost var rows := sc.State().Current();
      error := NextPass(sc, rest[n], mems[n], keepGoing);
      if error.Some? {
        return;
      }
      ReachedStep(first, sc.change, sc.valueType, rest, mems, n, rows, sc.State().Current());
      n := n + 1;
    }
  }

  /** One next scan, as a step on the current rows. */
  method NextPass(sc: Scanner, q: Request, ghost mem: Snapshot, keepGoing: nat -> bool) returns (error: Option<ScanError>)
    requires sc.Valid() && sc.State().HasScanned() && WellTyped(q.needle) && sc.valueType.FixedWidth().Some?
    modifies sc`history, sc`hasScanned, sc`lastStats
    ensures sc.Valid() && sc.State().HasScanned()
    ensures error.None? ==> RefuseNext(true, sc.valueType, q.compare, q.needle).None?
    ensures error.None? ==> Follows(sc.change, sc.valueType, q, mem, old(sc.State().Current()), sc.State().Current())
    ensures error.Some? ==>
      && sc.State().Current() == old(sc.State().Current())
      && NextFails(sc.valueType, sc.State().Current(), q, keepGoing, error.value)
  {
    ghost var before := sc.State();
    error := sc.NextScan(q.target, q.compare, q.needle, keepGoing);
    if error.None? {
      SameStride(sc.valueType, q.compare, q.needle);
      StepNarrows(before, NextOf(PassOf(sc.change, sc.valueType, q, mem), sc.valueType.FixedWidth().value));
    }
  }

  lemma StepNarrows(s: Session, next: Next)
    requires s.HasScanned() && !DeadTarget(s.Current(), next.read)
    ensures Step(s, ScanSession.NextScan(next)).HasScanned()
    ensures Step(s, ScanSession.NextScan(next)).Current() == NextRows(s.Current(), next.stride, next.read, next.keep)
  {
  }

  lemma FaithfulPasses(change: ChangeTest, ty: ScanValueType, rest: seq<Request>, mems: seq<Snapshot>)
    requires FaithfulTo(rest, mems)
    ensures AllFaithful(PassesOf(change, ty, rest, mems))
  {
    var passes := PassesOf(change, ty, rest, mems);
    forall p | p in passes ensures Faithful(p.target, p.mem) {
      var i :| 0 <= i < |passes| && passes[i] == p;
    }
  }

  // ----- Integer values -----------------------------------------------------------------

  /** The integer that memory holds at `a`, if it is readable there. */
  ghost function IntAt(ty: ScanValueType, mem: Snapshot, a: nat): Option<int>
    requires ty.IsInteger()
  {
    var w := ty.FixedWidth().value;
    if Readable(mem, a, w) then IntOf(Slice(mem, a, w), w, ty.IsSigned()) else None
  }

  lemma ReadableIffInt(ty: ScanValueType, mem: Snapshot, a: nat)
    requires ty.IsInteger()
    ensures IntAt(ty, mem, a).Some? <==> Readable(mem, a, ty.FixedWidth().value)
  {
  }

  /** Both snapshots hold an integer at `a`, and the later one compares. */
  ghost predicate IntCompares(ty: ScanValueType, now: Snapshot, before: Snapshot, q: IntPass, a: nat)
    requires ty.IsInteger()
  {
    var cur, prev := IntAt(ty, now, a), IntAt(ty, before, a);
    cur.Some? && prev.Some? && CompareInt(q.compare, cur.value, q.value, q.upper, prev)
  }

  lemma KeepsIffCompares(change: ChangeTest, ty: ScanValueType, q: IntPass, before: Snapshot, a: nat)
    requires ty.IsInteger() && Readable(q.mem, a, ty.FixedWidth().value) && Readable(before, a, ty.FixedWidth().value)
    ensures var w := ty.FixedWidth().value;
            OfInts(change, ty, q).keep(Bytes(q.mem, a, w), Bytes(before, a, w)) <==> IntCompares(ty, q.mem, before, q, a)
  {
    var w := ty.FixedWidth().value;
    NeedleTests(ty, q.value, q.upper, q.compare, Slice(q.mem, a, w), Some(Slice(before, a, w)));
  }

  /** A next scan for integers. */
  datatype IntPass = IntPass(target: Target, mem: Snapshot, compare: ScanCompareType, value: int, upper: Option<int>)

  /** The change test of integer types. */
  function IntChange(ty: ScanValueType, compare: ScanCompareType, cur: seq<Byte>, prev: seq<Byte>): bool {
    ty.IsInteger() && ChangeInt(ty, compare, cur, prev)
  }

  function OfInts(change: ChangeTest, ty: ScanValueType, q: IntPass): Pass
    requires ty.IsInteger()
  {
    Pass(q.target, q.mem, KeepOf(change, ty, q.compare, Some(IntNeedle(ty, q.value, q.upper))))
  }

  function AllOfInts(change: ChangeTest, ty: ScanValueType, qs: seq<IntPass>): (passes: seq<Pass>)
    requires ty.IsInteger()
    ensures |passes| == |qs|
  {
    seq(|qs|, i requires 0 <= i < |qs| => OfInts(change, ty, qs[i]))
  }

  /** An integer needle on bytes of the type's width. */
  lemma NeedleTests(ty: ScanValueType, value: int, upper: Option<int>, compare: ScanCompareType, cur: seq<Byte>,
                    prev: Option<seq<Byte>>)
    requires ty.IsInteger()
    ensures IntNeedle(ty, value, upper).test(compare, cur, prev) == TestInt(ty, value, upper, compare, cur, prev)
  {
  }

  /** Without a needle a change compare is the one against needle 0. */
  lemma NeedlelessIsZero(ty: ScanValueType, compare: ScanCompareType, cur: seq<Byte>, prev: seq<Byte>)
    requires ty.IsInteger() && |prev| >= ty.FixedWidth().value
    ensures KeepOf(IntChange, ty, compare, None)(cur, prev)
         == KeepOf(IntChange, ty, compare, Some(IntNeedle(ty, 0, None)))(cur, prev)
  {
    NeedleTests(ty, 0, None, compare, cur, Some(prev));
    assert KeepOf(IntChange, ty, compare, None)(cur, prev) == IntChange(ty, compare, cur, prev);
  }

  ghost function IntBefore(mem0: Snapshot, qs: seq<IntPass>, k: nat): Snapshot
    requires k <= |qs|
  {
    if k == 0 then mem0 else qs[k - 1].mem
  }

  /** Pass `k` could read `a`, and its integer compares against the snapshot before. */
  ghost predicate IntHeld(ty: ScanValueType, mem0: Snapshot, qs: seq<IntPass>, a: nat, k: nat)
    requires ty.IsInteger() && k < |qs|
  {
    ReadAt(qs[k].target, ty.FixedWidth().value, a).Some? && IntCompares(ty, qs[k].mem, IntBefore(mem0, qs, k), qs[k], a)
  }

  /** The address lies on the lattice of a region and its integer compares. */
  ghost predicate IntMatch(ty: ScanValueType, mem: Snapshot, r: Region, align: nat, compare: ScanCompareType, value: int,
                           upper: Option<int>, a: nat)
    requires ty.IsInteger() && align > 0
  {
    && OnLattice(r, ty.FixedWidth().value, align, a) && Readable(mem, a, ty.FixedWidth().value)
    && FirstCompares(ty, mem, compare, value, upper, a)
  }

  ghost predicate FirstCompares(ty: ScanValueType, mem: Snapshot, compare: ScanCompareType, value: int,
                                upper: Option<int>, a: nat)
    requires ty.IsInteger()
  {
    IntAt(ty, mem, a).Some? && CompareInt(compare, IntAt(ty, mem, a).value, value, upper, None)
  }

  ghost predicate IntFound(ty: ScanValueType, mem0: Snapshot, regions: seq<Region>, align: nat,
                           compare: ScanCompareType, value: int, upper: Option<int>, qs: seq<IntPass>, a: nat)
    requires ty.IsInteger() && align > 0
  {
    && (exists r :: r in regions && IntMatch(ty, mem0, r, align, compare, value, upper, a))
    && forall k: nat :: k < |qs| ==> IntHeld(ty, mem0, qs, a, k)
  }

  lemma IntHeldIff(change: ChangeTest, ty: ScanValueType, mem0: Snapshot, qs: seq<IntPass>, a: nat, k: nat)
    requires ty.IsInteger() && k < |qs| && (forall q :: q in qs ==> Faithful(q.target, q.mem))
    requires Readable(IntBefore(mem0, qs, k), a, ty.FixedWidth().value)
    ensures Held(mem0, AllOfInts(change, ty, qs), ty.FixedWidth().value, a, k) <==> IntHeld(ty, mem0, qs, a, k)
  {
    var w, q := ty.FixedWidth().value, qs[k];
    assert MemBefore(mem0, AllOfInts(change, ty, qs), k) == IntBefore(mem0, qs, k);
    if ReadAt(q.target, w, a).Some? {
      assert q in qs;
      ReadIsSnapshot(q.target, q.mem, w, a);
      KeepsIffCompares(change, ty, q, IntBefore(mem0, qs, k), a);
    }
  }

  lemma IntsHeldThroughout(change: ChangeTest, ty: ScanValueType, mem0: Snapshot, qs: seq<IntPass>, a: nat)
    requires ty.IsInteger() && Readable(mem0, a, ty.FixedWidth().value)
    requires forall q :: q in qs ==> Faithful(q.target, q.mem)
    ensures HeldThroughout(mem0, AllOfInts(change, ty, qs), ty.FixedWidth().value, a) <==>
            forall k: nat :: k < |qs| ==> IntHeld(ty, mem0, qs, a, k)
  {
    var w, passes := ty.FixedWidth().value, AllOfInts(change, ty, qs);
    if HeldThroughout(mem0, passes, w, a) {
      forall k: nat | k < |qs| ensures IntHeld(ty, mem0, qs, a, k) {
        if k > 0 {
          assert Held(mem0, passes, w, a, k - 1) && qs[k - 1] in qs;
          ReadIsSnapshot(qs[k - 1].target, qs[k - 1].mem, w, a);
        }
        assert Held(mem0, passes, w, a, k);
        IntHeldIff(change, ty, mem0, qs, a, k);
      }
    }
    if forall k: nat :: k < |qs| ==> IntHeld(ty, mem0, qs, a, k) {
      forall k: nat | k < |qs| ensures Held(mem0, passes, w, a, k) {
        assert IntHeld(ty, mem0, qs, a, k);
        ReadableIffInt(ty, IntBefore(mem0, qs, k), a);
        IntHeldIff(change, ty, mem0, qs, a, k);
      }
    }
  }

  lemma IntsFaithful(change: ChangeTest, ty: ScanValueType, qs: seq<IntPass>)
    requires ty.IsInteger() && forall q :: q in qs ==> Faithful(q.target, q.mem)
    ensures AllFaithful(AllOfInts(change, ty, qs))
  {
    var passes := AllOfInts(change, ty, qs);
    forall p | p in passes ensures Faithful(p.target, p.mem) {
      var i :| 0 <= i < |passes| && passes[i] == p;
      assert qs[i] in qs;
    }
  }

  lemma TestsIffCompares(ty: ScanValueType, mem: Snapshot, compare: ScanCompareType, value: int, upper: Option<int>, a: nat)
    requires ty.IsInteger() && Readable(mem, a, ty.FixedWidth().value)
    ensures TestOf(compare, Some(IntNeedle(ty, value, upper)))(Slice(mem, a, ty.FixedWidth().value)) <==>
            FirstCompares(ty, mem, compare, value, upper, a)
  {
    NeedleTests(ty, value, upper, compare, Slice(mem, a, ty.FixedWidth().value), None);
  }

  lemma MatchesIff(mem: Snapshot, r: Region, w: nat, align: nat, test: seq<Byte> -> bool, a: nat)
    requires align > 0
    ensures Matches(mem, r, w, align, test, a) <==>
            OnLattice(r, w, align, a) && (Readable(mem, a, w) && test(Slice(mem, a, w)))
  {
  }

  /** The first scan's match, in integers. */
  lemma IntMatches(ty: ScanValueType, mem: Snapshot, r: Region, align: nat, compare: ScanCompareType, value: int,
                   upper: Option<int>, a: nat)
    requires ty.IsInteger() && align > 0
    ensures var w, test := ty.FixedWidth().value, TestOf(compare, Some(IntNeedle(ty, value, upper)));
            Matches(mem, r, w, align, test, a) <==> IntMatch(ty, mem, r, align, compare, value, upper, a)
  {
    MatchesIff(mem, r, ty.FixedWidth().value, align, TestOf(compare, Some(IntNeedle(ty, value, upper))), a);
    if Readable(mem, a, ty.FixedWidth().value) {
      TestsIffCompares(ty, mem, compare, value, upper, a);
    }
  }

  lemma FoundInInts(change: ChangeTest, ty: ScanValueType, mem0: Snapshot, regions: seq<Region>, align: nat,
                    compare: ScanCompareType, value: int, upper: Option<int>, qs: seq<IntPass>, row: Row)
    requires ty.IsInteger() && align > 0 && forall q :: q in qs ==> Faithful(q.target, q.mem)
    ensures var w, test := ty.FixedWidth().value, TestOf(compare, Some(IntNeedle(ty, value, upper)));
            Found(mem0, regions, w, align, test, AllOfInts(change, ty, qs), row) <==>
            IntFound(ty, mem0, regions, align, compare, value, upper, qs, row.address)
            && row == LastTwo(mem0, AllOfInts(change, ty, qs), w, row.address)
  {
    var a, w, test := row.address, ty.FixedWidth().value, TestOf(compare, Some(IntNeedle(ty, value, upper)));
    forall r ensures Matches(mem0, r, w, align, test, a) <==> IntMatch(ty, mem0, r, align, compare, value, upper, a) {
      IntMatches(ty, mem0, r, align, compare, value, upper, a);
    }
    ReadableIffInt(ty, mem0, a);
    if Readable(mem0, a, w) {
      IntsHeldThroughout(change, ty, mem0, qs, a);
    }
  }

  /** A whole run on an integer type: an address is among the results exactly when
      it lies on the lattice of a region, its integer compared in the first snapshot,
      and in each later one compared against the integer of the snapshot before. */
  lemma IntegerRunMeaning(change: ChangeTest, ty: ScanValueType, mem0: Snapshot, regions: seq<Region>, align: nat,
                          compare: ScanCompareType, value: int, upper: Option<int>, qs: seq<IntPass>, row: Row)
    requires ty.IsInteger() && align > 0 && forall q :: q in qs ==> Faithful(q.target, q.mem)
    ensures var w := ty.FixedWidth().value;
            var rows := ScanRows(mem0, regions, w, align, TestOf(compare, Some(IntNeedle(ty, value, upper))));
            row in Narrowed(First(rows), NextsOf(AllOfInts(change, ty, qs), w)) <==>
            IntFound(ty, mem0, regions, align, compare, value, upper, qs, row.address)
            && row == LastTwo(mem0, AllOfInts(change, ty, qs), w, row.address)
  {
    IntsFaithful(change, ty, qs);
    RunMeaning(mem0, regions, ty.FixedWidth().value, align, TestOf(compare, Some(IntNeedle(ty, value, upper))),
               AllOfInts(change, ty, qs), row);
    FoundInInts(change, ty, mem0, regions, align, compare, value, upper, qs, row);
  }

  /** The integer at `a` compared in the first snapshot, and in every later one compares
      against the integer of the snapshot before. */
  ghost predicate IntInSnapshots(ty: ScanValueType, mem0: Snapshot, regions: seq<Region>, align: nat,
                                 compare: ScanCompareType, value: int, upper: Option<int>, qs: seq<IntPass>, a: nat)
    requires ty.IsInteger() && align > 0
  {
    && (exists r :: r in regions && IntMatch(ty, mem0, r, align, compare, value, upper, a))
    && forall k: nat :: k < |qs| ==> IntCompares(ty, qs[k].mem, IntBefore(mem0, qs, k), qs[k], a)
  }

  lemma IntHeldIffCompares(ty: ScanValueType, mem0: Snapshot, qs: seq<IntPass>, a: nat, k: nat)
    requires ty.IsInteger() && k < |qs| && Faithful(qs[k].target, qs[k].mem) && ReadsAll(qs[k].target, qs[k].mem)
    ensures IntHeld(ty, mem0, qs, a, k) <==> IntCompares(ty, qs[k].mem, IntBefore(mem0, qs, k), qs[k], a)
  {
    ReadableIffRead(qs[k].target, qs[k].mem, ty.FixedWidth().value, a);
    ReadableIffInt(ty, qs[k].mem, a);
  }

  lemma FoundIffInSnapshots(ty: ScanValueType, mem0: Snapshot, regions: seq<Region>, align: nat,
                            compare: ScanCompareType, value: int, upper: Option<int>, qs: seq<IntPass>, a: nat)
    requires ty.IsInteger() && align > 0
    requires forall q :: q in qs ==> Faithful(q.target, q.mem) && ReadsAll(q.target, q.mem)
    ensures IntFound(ty, mem0, regions, align, compare, value, upper, qs, a) <==>
            IntInSnapshots(ty, mem0, regions, align, compare, value, upper, qs, a)
  {
    forall k: nat | k < |qs|
      ensures IntHeld(ty, mem0, qs, a, k) <==> IntCompares(ty, qs[k].mem, IntBefore(mem0, qs, k), qs[k], a)
    {
      assert qs[k] in qs;
      IntHeldIffCompares(ty, mem0, qs, a, k);
    }
  }

  /** A whole run on an integer type over snapshots alone, its targets returning
      whatever is mapped. */
  lemma IntegerSnapshotMeaning(change: ChangeTest, ty: ScanValueType, mem0: Snapshot, regions: seq<Region>, align: nat,
                               compare: ScanCompareType, value: int, upper: Option<int>, qs: seq<IntPass>, row: Row)
    requires ty.IsInteger() && align > 0
    requires forall q :: q in qs ==> Faithful(q.target, q.mem) && ReadsAll(q.target, q.mem)
    ensures var w := ty.FixedWidth().value;
            var rows := ScanRows(mem0, regions, w, align, TestOf(compare, Some(IntNeedle(ty, value, upper))));
            row in Narrowed(First(rows), NextsOf(AllOfInts(change, ty, qs), w)) <==>
            IntInSnapshots(ty, mem0, regions, align, compare, value, upper, qs, row.address)
            && row == LastTwo(mem0, AllOfInts(change, ty, qs), w, row.address)
  {
    IntegerRunMeaning(change, ty, mem0, regions, align, compare, value, upper, qs, row);
    FoundIffInSnapshots(ty, mem0, regions, align, compare, value, upper, qs, row.address);
  }

  /** A scanner's run on an integer type, every pass with an integer needle: its
      results are those of the integers, as far as the run got. */
  method RunIntegers(sc: Scanner, t: Target, mem0: Snapshot, compare: ScanCompareType, value: int, upper: Option<int>,
                     qs: seq<IntPass>, keepGoing: nat -> bool)
    returns (error: Option<ScanError>, begun: bool, n: nat)
    requires sc.Valid() && sc.valueType.IsInteger()
    requires Faithful(t, mem0) && forall q :: q in qs ==> Faithful(q.target, q.mem)
    modifies sc`truncated, sc`scannedRegions, sc`history, sc`hasScanned, sc`lastStats
    ensures sc.Valid()
    ensures !begun ==>
      && error.Some? && sc.history == old(sc.history)
      && FirstFails(sc.valueType, RegionFilter.Filtered(sc.filter, t.regions),
                    IntRequest(sc.valueType, t, compare, value, upper), keepGoing, error.value)
    ensures begun ==>
      && !compare.NeedsPrevious()
      && Stopped(sc.valueType, RequestsOf(sc.valueType, qs), n, sc.State().Current(), keepGoing, error)
    ensures
      var regions := RegionFilter.Filtered(sc.filter, t.regions);
      begun && !sc.truncated && FullReads(t, regions) ==>
        forall row :: row in sc.State().Current() <==>
          IntFound(sc.valueType, mem0, regions, old(sc.Align()), compare, value, upper, qs[..n], row.address)
          && row == LastTwo(mem0, AllOfInts(sc.change, sc.valueType, qs[..n]), sc.valueType.FixedWidth().value, row.address)
  {
    ghost var ty, align, regions := sc.valueType, sc.Align(), RegionFilter.Filtered(sc.filter, t.regions);
    var first := IntRequest(sc.valueType, t, compare, value, upper);
    var rest := RequestsOf(sc.valueType, qs);
    ghost var mems := seq(|qs|, i requires 0 <= i < |qs| => qs[i].mem);
    assert FaithfulTo(rest, mems) by {
      assert forall i :: 0 <= i < |qs| ==> qs[i] in qs;
    }
    error, begun, n := RunPasses(sc, first, mem0, rest, mems, keepGoing);
    if begun && !sc.truncated && FullReads(t, regions) {
      assert PassesOf(sc.change, ty, rest[..n], mems[..n]) == AllOfInts(sc.change, ty, qs[..n]);
      forall row ensures row in sc.State().Current() <==>
          IntFound(ty, mem0, regions, align, compare, value, upper, qs[..n], row.address)
          && row == LastTwo(mem0, AllOfInts(sc.change, ty, qs[..n]), ty.FixedWidth().value, row.address)
      {
        FoundInInts(sc.change, ty, mem0, regions, align, compare, value, upper, qs[..n], row);
      }
    }
  }

  function IntRequest(ty: ScanValueType, t: Target, compare: ScanCompareType, value: int, upper: Option<int>): (q: Request)
    requires ty.IsInteger()
    ensures WellTyped(q.needle)
  {
    Request(t, compare, Some(IntNeedle(ty, value, upper)))
  }

  function RequestsOf(ty: ScanValueType, qs: seq<IntPass>): (rest: seq<Request>)
    requires ty.IsInteger()
    ensures |rest| == |qs| && forall q :: q in rest ==> WellTyped(q.needle)
  {
    seq(|qs|, i requires 0 <= i < |qs| => IntRequest(ty, qs[i].target, qs[i].compare, qs[i].value, qs[i].upper))
  }
}
