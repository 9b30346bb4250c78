/** The scan session object (crates/nemclass-scan/src/scanner.rs): validation,
    first and next scans and undo, each proved to be a step of `ScanSession`. */
module Scanner {
  import opened Memory
  import opened ValueType
  import opened ResultColumns
  import opened ScanWalk
  import opened ScanSession
  import RegionFilter

  datatype ScanStats = ScanStats(scanned: nat, matched: nat, unreadable: nat)

  /** A needle-less compare of fresh bytes against captured ones, per type. */
  type ChangeTest = (ScanValueType, ScanCompareType, seq<Byte>, seq<Byte>) -> bool

  function Validate(ty: ScanValueType, compare: ScanCompareType, needle: Option<Needle>): Option<ScanError> {
    match needle
    case Some(n) => if n.ty != ty then Some(NeedleTypeMismatch) else None
    case None => if compare.NeedsNeedle() then Some(MissingNeedle) else None
  }

  function StrideOf(ty: ScanValueType, needle: Option<Needle>): nat {
    match needle
    case Some(n) => n.stride
    case None => match ty.FixedWidth() case Some(w) => w case None => 0
  }

  /** Refusals of a first scan before it reads anything, in the source's order. */
  function RefuseFirst(ty: ScanValueType, compare: ScanCompareType, needle: Option<Needle>): Option<ScanError> {
    if compare.NeedsPrevious() then Some(CompareNeedsPrevious)
    else if Validate(ty, compare, needle).Some? then Validate(ty, compare, needle)
    else if StrideOf(ty, needle) == 0 then Some(NoStride)
    else None
  }

  function RefuseNext(hasScanned: bool, ty: ScanValueType, compare: ScanCompareType, needle: Option<Needle>)
    : Option<ScanError>
  {
    if !hasScanned then Some(NeedsFirstScan)
    else if compare.IsBaseline() then Some(CompareIsFirstScanOnly)
    else if Validate(ty, compare, needle).Some? then Validate(ty, compare, needle)
    else if StrideOf(ty, needle) == 0 then Some(NoStride)
    else None
  }

  /** What a first scan takes: a baseline of a type with a width, or any compare that
      looks at one value with a needle of the type and of some width. */
  lemma AcceptsFirstIff(ty: ScanValueType, compare: ScanCompareType, needle: Option<Needle>)
    ensures RefuseFirst(ty, compare, needle).None? <==>
      match needle
      case None => compare == Unknown && ty !in {Bytes, StringUtf8, StringUtf16}
      case Some(n) =>
        compare in {Exact, NotEqual, GreaterThan, LessThan, Between, Unknown} && n.ty == ty && n.stride > 0
  {
  }

  /** What a next scan takes once there has been a first: anything but a baseline, and
      without a needle only the four compares with the value before. */
  lemma AcceptsNextIff(hasScanned: bool, ty: ScanValueType, compare: ScanCompareType, needle: Option<Needle>)
    ensures RefuseNext(hasScanned, ty, compare, needle).None? <==>
      && hasScanned
      && match needle
         case None => compare in {Increased, Decreased, Changed, Unchanged} && ty !in {Bytes, StringUtf8, StringUtf16}
         case Some(n) => compare != Unknown && n.ty == ty && n.stride > 0
  {
  }

  /** A baseline without a needle keeps every candidate. */
  lemma BaselineKeepsAll(mem: Snapshot, r: Region, stride: nat, align: nat, a: nat)
    requires align > 0
    ensures Matches(mem, r, stride, align, TestOf(Unknown, None), a) <==> OnLattice(r, stride, align, a) && Readable(mem, a, stride)
  {
    assert Readable(mem, a, stride) ==> TestOf(Unknown, None)(Slice(mem, a, stride));
  }

  /** The first-scan test of a candidate's bytes. */
  function TestOf(compare: ScanCompareType, needle: Option<Needle>): seq<Byte> -> bool {
    match needle
    case Some(n) => bytes => n.test(compare, bytes, None)
    case None => bytes => compare == Unknown
  }

  /** The next-scan test of fresh bytes against captured ones. */
  function KeepOf(change: ChangeTest, ty: ScanValueType, compare: ScanCompareType, needle: Option<Needle>)
    : (seq<Byte>, seq<Byte>) -> bool
  {
    match needle
    case Some(n) => (cur, prev) => n.test(compare, cur, Some(prev))
    case None => (cur, prev) => change(ty, compare, cur, prev)
  }

  /** A re-read that returns fewer than `stride` bytes counts as unreadable. */
  function ReadOf(t: Target, stride: nat): nat -> Option<seq<Byte>> {
    a => ReadAt(t, stride, a)
  }

  function ReadAt(t: Target, stride: nat, a: nat): Option<seq<Byte>> {
    var got := t.read(a, stride);
    if got.Got? && |got.bytes| >= stride then Some(got.bytes[..stride]) else None
  }

  /** A re-read gives the snapshot's bytes or nothing. */
  lemma ReadIsSnapshot(t: Target, mem: Snapshot, stride: nat, a: nat)
    requires Faithful(t, mem) && ReadAt(t, stride, a).Some?
    ensures Readable(mem, a, stride) && ReadAt(t, stride, a).value == Slice(mem, a, stride)
  {
    var got := t.read(a, stride);
    assert got.Got? && |got.bytes| <= stride;
    assert got.bytes[..stride] == got.bytes;
  }

  lemma ReadableIffRead(t: Target, mem: Snapshot, stride: nat, a: nat)
    requires Faithful(t, mem) && ReadsAll(t, mem)
    ensures ReadAt(t, stride, a).Some? <==> Readable(mem, a, stride)
  {
    if ReadAt(t, stride, a).Some? {
      ReadIsSnapshot(t, mem, stride, a);
    }
    assert Readable(mem, a, stride) ==> t.read(a, stride).Got?;
  }

  ghost predicate OnStep(rows: seq<Row>, align: nat)
    requires align > 0
  {
    forall row :: row in rows ==> row.address % align == 0
  }

  lemma ScannedOnStep(mem: Snapshot, regions: seq<Region>, stride: nat, align: nat, test: seq<Byte> -> bool, rows: seq<Row>)
    requires align > 0 && forall row :: row in rows ==> row in ScanRows(mem, regions, stride, align, test)
    ensures OnStep(rows, align)
  {
    forall row | row in rows ensures row.address % align == 0 {
      ScanRowsExact(mem, regions, stride, align, test, row);
    }
  }

  class Scanner {
    const change: ChangeTest
    var valueType: ScanValueType
    var filter: RegionFilter.Filter
    var alignment: Option<nat>
    var resultLimit: nat
    var truncated: bool
    var scannedRegions: nat
    var history: seq<ScanResults>
    var hasScanned: bool
    var lastStats: ScanStats

    ghost predicate Valid()
      reads this, history
    {
      && |history| <= HISTORY_DEPTH && (hasScanned <==> history != [])
      && forall g :: g in history ==> g.Valid()
    }

    ghost function State(): Session
      requires Valid()
      reads this, history
    {
      Session(seq(|history|, i requires 0 <= i < |history| && Valid() reads this, history => history[i].Rows()))
    }

    constructor (valueType: ScanValueType, filter: RegionFilter.Filter, alignment: Option<nat>, resultLimit: nat,
                 change: ChangeTest)
      ensures Valid() && State() == Session([]) && !truncated && scannedRegions == 0
      ensures this.valueType == valueType && this.filter == filter && this.resultLimit == resultLimit
      ensures this.change == change
      ensures Align() == if alignment.Some? && alignment.value > 0 then alignment.value
                         else if valueType.FixedWidth().Some? then valueType.FixedWidth().value else 1
    {
      this.valueType, this.filter, this.resultLimit, this.change := valueType, filter, resultLimit, change;
      this.alignment := if alignment == Some(0) then None else alignment;
      truncated, scannedRegions, history, hasScanned := false, 0, [], false;
      lastStats := ScanStats(0, 0, 0);
    }

    /** The candidate step: explicit, or the type's width, or one byte. */
    function Align(): (a: nat)
      reads this
      ensures a > 0
    {
      var chosen := match alignment
                    case Some(n) => n
                    case None => (match valueType.FixedWidth() case Some(w) => w case None => 1);
      if chosen == 0 then 1 else chosen
    }

    /** Appends a generation, evicting the oldest past the depth. */
    method PushGeneration(results: ScanResults)
      requires Valid() && results.Valid()
      modifies this`history, this`hasScanned
      ensures Valid() && State() == old(State()).Push(results.Rows())
    {
      ghost var before := State();
      history := history + [results];
      if |history| > HISTORY_DEPTH {
        history := history[1..];
      }
      hasScanned := true;
      assert State().history == before.Push(results.Rows()).history;
    }

    /** Discards the current generation, unless it is the only one. */
    method Undo() returns (undone: bool)
      requires Valid()
      modifies this`history
      ensures Valid() && State() == Step(old(State()), UndoScan)
      ensures undone == old(State()).CanUndo()
    {
      undone := |history| > 1;
      ghost var before := State();
      if undone {
        history := history[..|history| - 1];
        assert State().history == before.history[..|before.history| - 1];
      } else {
        assert State().history == before.history;
      }
    }

    /** A first scan past validation and filtering. */
    method RunFirst(t: Target, ghost mem: Snapshot, regions: seq<Region>, stride: nat, align: nat,
                    test: seq<Byte> -> bool, keepGoing: nat -> bool)
      returns (outcome: WalkOutcome, ghost rows: seq<Row>)
      requires Valid() && Faithful(t, mem) && stride > 0 && align > 0
      modifies this`truncated, this`scannedRegions, this`history, this`hasScanned, this`lastStats
      ensures Valid() && outcome != LimitReached && scannedRegions == |regions|
      ensures Scanned(ScanRows(mem, regions, stride, align, test), rows, resultLimit, outcome, truncated,
                      FullReads(t, regions))
      ensures outcome == Completed ==> State() == old(State()).Push(rows)
      ensures outcome != Completed ==> history == old(history) && State() == old(State())
      ensures outcome != Completed ==> !truncated && lastStats == old(lastStats)
      ensures outcome == Cancelled ==> exists n :: !keepGoing(n)
    {
      ghost var before := State();
      scannedRegions := |regions|;
      var results := new ScanResults(stride);
      truncated := false;
      var cut, scanned;
      outcome, cut, scanned := ScanRegions(t, mem, regions, stride, align, test, resultLimit, results, keepGoing);
      rows := results.Rows();
      assert State().history == before.history;
      if outcome == Completed {
        Finish(results, cut, scanned);
      }
    }

    /** A completed first walk: publish its flag, its counts and its results. */
    method Finish(results: ScanResults, cut: bool, scanned: nat)
      requires Valid() && results.Valid()
      modifies this`truncated, this`lastStats, this`history, this`hasScanned
      ensures Valid() && State() == old(State()).Push(results.Rows()) && truncated == cut
      ensures lastStats == ScanStats(scanned, |results.addresses|, 0)
    {
      ghost var before := State();
      truncated := cut;
      lastStats := ScanStats(scanned, |results.addresses|, 0);
      assert State().history == before.history;
      PushGeneration(results);
    }

    /** A first scan. Failing, refused or cancelled, it leaves the results alone;
        but once past validation it has already reset the two walk counters. */
    method FirstScan(t: Target, ghost mem: Snapshot, compare: ScanCompareType, needle: Option<Needle>,
                     keepGoing: nat -> bool)
      returns (error: Option<ScanError>, ghost rows: seq<Row>)
      requires Valid() && Faithful(t, mem)
      modifies this`truncated, this`scannedRegions, this`history, this`hasScanned, this`lastStats
      ensures Valid()
      ensures State() == Step(old(State()), if error.None? then ScanSession.FirstScan(First(rows)) else FailedScan)
      ensures error.Some? ==> history == old(history) && lastStats == old(lastStats)
      ensures RefuseFirst(valueType, compare, needle).Some? ==>
        error == RefuseFirst(valueType, compare, needle) && truncated == old(truncated)
        && scannedRegions == old(scannedRegions)
      ensures RefuseFirst(valueType, compare, needle).None? ==>
        scannedRegions == |RegionFilter.Filtered(filter, t.regions)| && (error.Some? ==> !truncated)
      ensures RefuseFirst(valueType, compare, needle).None? && error.Some? ==>
        (error.value == ScanCancelled && exists n :: !keepGoing(n))
        || (error.value == TargetError && !FullReads(t, RegionFilter.Filtered(filter, t.regions)))
      ensures error.None? ==>
        Scanned(FirstRows(t, mem, compare, needle), rows, resultLimit, Completed, truncated,
                FullReads(t, RegionFilter.Filtered(filter, t.regions)))
      ensures error.None? ==> OnStep(rows, Align())
      ensures filter == RegionFilter.Filter(0, USIZE_MAX, []) ==>
        FirstRows(t, mem, compare, needle) ==
        ScanRows(mem, t.regions, StrideOf(valueType, needle), Align(), TestOf(compare, needle))
    {
      rows := [];
      RegionFilter.DefaultKeepsAll(t.regions);
      error := RefuseFirst(valueType, compare, needle);
      if error.Some? {
        return;
      }
      var regions := RegionFilter.Apply(filter, t.regions);
      var outcome;
      outcome, rows :=
        RunFirst(t, mem, regions, StrideOf(valueType, needle), Align(), TestOf(compare, needle), keepGoing);
      if outcome != Completed {
        error := Some(if outcome == Cancelled then ScanCancelled else TargetError);
      } else {
        ScannedOnStep(mem, regions, StrideOf(valueType, needle), Align(), TestOf(compare, needle), rows);
      }
    }

    /** What a plain scan of the filtered regions would list. */
    ghost function FirstRows(t: Target, mem: Snapshot, compare: ScanCompareType, needle: Option<Needle>): seq<Row>
      reads this
    {
      ScanRows(mem, RegionFilter.Filtered(filter, t.regions), StrideOf(valueType, needle), Align(),
               TestOf(compare, needle))
    }

    /** The current generation, or an empty one before any scan. */
    method Results() returns (r: ScanResults)
      requires Valid()
      ensures r.Valid() && r.Rows() == State().Current()
      ensures history == [] ==> fresh(r)
      ensures history != [] ==> r in history
    {
      if history == [] {
        r := new ScanResults(0);
      } else {
        r := history[|history| - 1];
      }
    }

    /** A next scan past validation. */
    method RunNext(stride: nat, read: nat -> Option<seq<Byte>>, keep: (seq<Byte>, seq<Byte>) -> bool,
                   keepGoing: nat -> bool)
      returns (error: Option<ScanError>)
      requires Valid() && hasScanned
      modifies this`history, this`hasScanned, this`lastStats
      ensures Valid()
      ensures error.Some? ==> State() == old(State()) && history == old(history) && lastStats == old(lastStats)
      ensures error.Some? ==>
        (error.value == ScanCancelled && exists n :: !keepGoing(n))
        || (error.value == TargetUnreadable && DeadTarget(old(State()).Current(), read))
      ensures error.None? ==> State() == Step(old(State()), ScanSession.NextScan(Next(stride, read, keep)))
      ensures error.None? ==> !DeadTarget(old(State()).Current(), read)
      ensures error.None? ==> lastStats.unreadable == Unreadable(old(State()).Current(), read)
    {
      ghost var before := State();
      var previous := Results();
      var results, unreadable, go := Refine(previous, stride, read, keep, keepGoing);
      assert State().history == before.history;
      if !go {
        return Some(ScanCancelled);
      }
      if unreadable == |previous.addresses| && previous.addresses != [] {
        return Some(TargetUnreadable);
      }
      lastStats := ScanStats(|previous.addresses|, |results.addresses|, unreadable);
      assert State().history == before.history;
      PushGeneration(results);
      error := None;
    }

    /** A next scan: re-read, re-compare, drop what is gone. Only a pass that
        read something becomes a generation. */
    method NextScan(t: Target, compare: ScanCompareType, needle: Option<Needle>, keepGoing: nat -> bool)
      returns (error: Option<ScanError>)
      requires Valid()
      modifies this`history, this`hasScanned, this`lastStats
      ensures Valid()
      ensures RefuseNext(old(hasScanned), valueType, compare, needle).Some? ==>
        error == RefuseNext(old(hasScanned), valueType, compare, needle)
      ensures RefuseNext(old(hasScanned), valueType, compare, needle).None? && error.Some? ==>
        (error.value == ScanCancelled && exists n :: !keepGoing(n))
        || (error.value == TargetUnreadable
            && DeadTarget(old(State()).Current(), ReadOf(t, StrideOf(valueType, needle))))
      ensures error.Some? ==> history == old(history) && lastStats == old(lastStats)
      ensures State() == Step(old(State()), if error.None? then NextEvent(t, compare, needle) else FailedScan)
      ensures error.None? ==> !DeadTarget(old(State()).Current(), ReadOf(t, StrideOf(valueType, needle)))
    {
      error := RefuseNext(hasScanned, valueType, compare, needle);
      if error.None? {
        var stride := StrideOf(valueType, needle);
        error := RunNext(stride, ReadOf(t, stride), KeepOf(change, valueType, compare, needle), keepGoing);
      }
    }

    ghost function NextEvent(t: Target, compare: ScanCompareType, needle: Option<Needle>): Event
      reads this
    {
      ScanSession.NextScan(Next(StrideOf(valueType, needle), ReadOf(t, StrideOf(valueType, needle)),
                                KeepOf(change, valueType, compare, needle)))
    }
  }

  /** One result of the previous generation. */
  method RefineRow(row: Row, results: ScanResults, read: nat -> Option<seq<Byte>>, keep: (seq<Byte>, seq<Byte>) -> bool)
    returns (gone: bool)
    requires results.Valid()
    modifies results
    ensures results.Valid() && gone == read(row.address).None?
    ensures results.Rows() == old(results.Rows()) + NextRow(row, results.stride, read, keep)
  {
    var b := read(row.address);
    gone := b.None?;
    if b.Some? && keep(b.value, row.current) {
      results.Push(row.address, b.value, row.current);
    }
  }

  /** The loop over the previous generation. */
  method Refine(previous: ScanResults, stride: nat, read: nat -> Option<seq<Byte>>,
                keep: (seq<Byte>, seq<Byte>) -> bool, keepGoing: nat -> bool)
    returns (results: ScanResults, unreadable: nat, go: bool)
    requires previous.Valid()
    ensures fresh(results) && results.Valid()
    ensures !go ==> exists n :: !keepGoing(n)
    ensures go ==> results.Rows() == NextRows(previous.Rows(), stride, read, keep)
    ensures go ==> unreadable == Unreadable(previous.Rows(), read)
  {
    results := new ScanResults(stride);
    unreadable, go := 0, true;
    ghost var rows := previous.Rows();
    var i := 0;
    while i < |previous.addresses|
      invariant 0 <= i <= |previous.addresses| == |rows| && results.Valid() && fresh(results)
      invariant results.stride == stride && previous.Valid() && previous.Rows() == rows
      invariant results.Rows() == NextRows(rows[..i], stride, read, keep)
      invariant unreadable == Unreadable(rows[..i], read)
    {
      if i % PROGRESS_INTERVAL == 0 && !keepGoing(i) {
        go := false;
        return;
      }
      var prev := previous.Get(i);
      var gone := RefineRow(prev.value, results, read, keep);
      if gone {
        unreadable := unreadable + 1;
      }
      NextRowsStep(rows, i, stride, read, keep);
      i := i + 1;
    }
    assert rows[..i] == rows;
  }

  lemma NextRowsStep(rows: seq<Row>, i: nat, stride: nat, read: nat -> Option<seq<Byte>>,
                     keep: (seq<Byte>, seq<Byte>) -> bool)
    requires i < |rows|
    ensures NextRows(rows[..i + 1], stride, read, keep)
         == NextRows(rows[..i], stride, read, keep) + NextRow(rows[i], stride, read, keep)
    ensures Unreadable(rows[..i + 1], read)
         == Unreadable(rows[..i], read) + if read(rows[i].address).None? then 1 else 0
  {
    assert rows[..i + 1][..i] == rows[..i];
  }

  // ----- The whole session -------------------------------------------------------------

  /** What every pass of a session with a fixed-width type captures is as wide as the type. */
  lemma PassesAreFixed(mem: Snapshot, regions: seq<Region>, stride: nat, align: nat, test: seq<Byte> -> bool,
                       nexts: seq<Next>)
    requires align > 0 && forall next :: next in nexts ==> FixedPass(next, stride)
    ensures FixedWidth(First(ScanRows(mem, regions, stride, align, test)), nexts, stride)
  {
    forall row | row in ScanRows(mem, regions, stride, align, test)
      ensures |row.current| == stride && row.previous == row.current
    {
      ScanRowsExact(mem, regions, stride, align, test, row);
    }
  }

  lemma ReadsAreFixed(t: Target, stride: nat, keep: (seq<Byte>, seq<Byte>) -> bool)
    ensures FixedPass(Next(stride, ReadOf(t, stride), keep), stride)
  {
  }

  /** A session over snapshots: an untruncated first scan of `mem`, then any
      number of next scans. The results are exactly the lattice addresses that
      matched first and then passed every compare against the pass before; each
      row carries the last two captured values. */
  lemma SessionMeaning(mem: Snapshot, regions: seq<Region>, stride: nat, align: nat, test: seq<Byte> -> bool,
                       nexts: seq<Next>, row: Row)
    requires align > 0 && forall next :: next in nexts ==> FixedPass(next, stride)
    ensures row in Narrowed(First(ScanRows(mem, regions, stride, align, test)), nexts) <==>
      && (exists r :: r in regions && Matches(mem, r, stride, align, test, row.address))
      && Survives(Slice(mem, row.address, stride), nexts, row.address)
      && row == FinalRow(Slice(mem, row.address, stride), nexts, row.address)
  {
    var first := First(ScanRows(mem, regions, stride, align, test));
    PassesAreFixed(mem, regions, stride, align, test, nexts);
    NarrowedExact(first, nexts, stride, row);
    if origin :| ComesFrom(first, nexts, origin, row) {
      ScanRowsExact(mem, regions, stride, align, test, origin);
    }
    if r :| r in regions && Matches(mem, r, stride, align, test, row.address) {
      var v := Slice(mem, row.address, stride);
      var origin := Row(row.address, v, v);
      ScanRowsExact(mem, regions, stride, align, test, origin);
      if Survives(v, nexts, row.address) && row == FinalRow(v, nexts, row.address) {
        assert ComesFrom(first, nexts, origin, row);
      }
    }
  }
}
