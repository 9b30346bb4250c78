/** The first scan's walk over regions in overlapping windows
    (crates/nemclass-scan/src/scanner.rs), proved to be a plain scan of the
    alignment lattice. */
module ScanWalk {
  import opened Memory
  import opened ResultColumns

  /** Read-buffer size of the region walk. */
  const CHUNK_SIZE: nat := 0x1_0000

  /** Candidates between observer ticks. */
  const PROGRESS_INTERVAL: nat := 4096

  // ----- The plain scan ---------------------------------------------------------

  /** Matches at the lattice addresses `a`, `a + align`, ... whose value ends by `end`. */
  ghost function LatticeRows(mem: Snapshot, a: nat, end: nat, stride: nat, align: nat, test: seq<Byte> -> bool)
    : seq<Row>
    requires align > 0
    decreases end - a
  {
    if a + stride > end then []
    else
      var rest := LatticeRows(mem, a + align, end, stride, align, test);
      if Readable(mem, a, stride) && test(Slice(mem, a, stride))
      then [Row(a, Slice(mem, a, stride), Slice(mem, a, stride))] + rest else rest
  }

  ghost function RegionRows(mem: Snapshot, r: Region, stride: nat, align: nat, test: seq<Byte> -> bool): seq<Row>
    requires align > 0
  {
    LatticeRows(mem, NextMultiple(r.base, align), r.End(), stride, align, test)
  }

  ghost function ScanRows(mem: Snapshot, rs: seq<Region>, stride: nat, align: nat, test: seq<Byte> -> bool): seq<Row>
    requires align > 0
  {
    if rs == [] then []
    else RegionRows(mem, rs[0], stride, align, test) + ScanRows(mem, rs[1..], stride, align, test)
  }

  // ----- What the plain scan finds ------------------------------------------------

  /** `a` is a lattice point of some region, its value lies wholly inside, and matches. */
  ghost predicate Matches(mem: Snapshot, r: Region, stride: nat, align: nat, test: seq<Byte> -> bool, a: nat)
    requires align > 0
  {
    OnLattice(r, stride, align, a) && Readable(mem, a, stride) && test(Slice(mem, a, stride))
  }

  /** An aligned address of the region with room for a whole value. */
  ghost predicate OnLattice(r: Region, stride: nat, align: nat, a: nat)
    requires align > 0
  {
    r.base <= a && a + stride <= r.End() && a % align == 0
  }

  ghost predicate IsFirstRow(mem: Snapshot, stride: nat, row: Row) {
    Readable(mem, row.address, stride) && row.current == row.previous == Slice(mem, row.address, stride)
  }

  ghost predicate AddressesAscend(rows: seq<Row>) {
    forall i, j :: 0 <= i < j < |rows| ==> rows[i].address < rows[j].address
  }

  lemma {:induction false} LatticeRowsExact(mem: Snapshot, a: nat, end: nat, stride: nat, align: nat,
                                            test: seq<Byte> -> bool, row: Row)
    requires align > 0 && a % align == 0
    ensures row in LatticeRows(mem, a, end, stride, align, test) <==>
      && a <= row.address && row.address + stride <= end && row.address % align == 0
      && IsFirstRow(mem, stride, row) && test(row.current)
    decreases end - a
  {
    if a + stride <= end {
      NextAligned(a, align);
      LatticeRowsExact(mem, a + align, end, stride, align, test, row);
      if a <= row.address < a + align && row.address % align == 0 {
        AlignedGap(a, row.address, align);
      }
    }
  }

  lemma {:induction false} LatticeRowsAscend(mem: Snapshot, a: nat, end: nat, stride: nat, align: nat,
                                             test: seq<Byte> -> bool)
    requires align > 0
    ensures AddressesAscend(LatticeRows(mem, a, end, stride, align, test))
    ensures forall row :: row in LatticeRows(mem, a, end, stride, align, test) ==>
      a <= row.address && row.address + stride <= end
    decreases end - a
  {
    if a + stride <= end {
      LatticeRowsAscend(mem, a + align, end, stride, align, test);
    }
  }

  lemma RegionRowsExact(mem: Snapshot, r: Region, stride: nat, align: nat, test: seq<Byte> -> bool, row: Row)
    requires align > 0
    ensures row in RegionRows(mem, r, stride, align, test)
       <==> IsFirstRow(mem, stride, row) && Matches(mem, r, stride, align, test, row.address)
  {
    NextMultipleIsNext(r.base, align);
    LatticeRowsExact(mem, NextMultiple(r.base, align), r.End(), stride, align, test, row);
  }

  /** The plain scan lists exactly the matching lattice addresses of the regions. */
  lemma {:induction false} ScanRowsExact(mem: Snapshot, rs: seq<Region>, stride: nat, align: nat,
                                         test: seq<Byte> -> bool, row: Row)
    requires align > 0
    ensures row in ScanRows(mem, rs, stride, align, test) <==>
      IsFirstRow(mem, stride, row) && exists r :: r in rs && Matches(mem, r, stride, align, test, row.address)
  {
    if rs != [] {
      RegionRowsExact(mem, rs[0], stride, align, test, row);
      ScanRowsExact(mem, rs[1..], stride, align, test, row);
      assert forall r :: r in rs <==> r == rs[0] || r in rs[1..];
    }
  }

  /** ... each once, in strictly ascending order. */
  lemma {:induction false} ScanRowsAscend(mem: Snapshot, rs: seq<Region>, stride: nat, align: nat,
                                          test: seq<Byte> -> bool)
    requires align > 0 && stride > 0 && Ascending(rs)
    ensures AddressesAscend(ScanRows(mem, rs, stride, align, test))
    ensures rs != [] ==> forall row :: row in ScanRows(mem, rs, stride, align, test) ==> rs[0].base <= row.address
  {
    if rs != [] {
      var head := RegionRows(mem, rs[0], stride, align, test);
      var tail := ScanRows(mem, rs[1..], stride, align, test);
      LatticeRowsAscend(mem, NextMultiple(rs[0].base, align), rs[0].End(), stride, align, test);
      ScanRowsAscend(mem, rs[1..], stride, align, test);
      forall row | row in tail ensures rs[0].End() <= row.address {
        assert rs[1..] != [] && rs[1..][0] == rs[1];
      }
      AscendConcat(head, tail, rs[0].End());
    }
  }

  lemma AscendConcat(a: seq<Row>, b: seq<Row>, bound: nat)
    requires AddressesAscend(a) && AddressesAscend(b)
    requires forall row :: row in a ==> row.address < bound
    requires forall row :: row in b ==> bound <= row.address
    ensures AddressesAscend(a + b)
  {
    var s := a + b;
    forall i, j | 0 <= i < j < |s| ensures s[i].address < s[j].address {
      if i < |a| <= j {
        assert a[i] in a && b[j - |a|] in b;
      }
    }
  }

  // ----- One window ---------------------------------------------------------------

  /** Matches at the offsets `off`, `off + align`, ... of a window read at `addr`. */
  function WindowRows(bytes: seq<Byte>, addr: nat, off: nat, stride: nat, align: nat, test: seq<Byte> -> bool): seq<Row>
    requires align > 0
    decreases |bytes| - off
  {
    if off + stride > |bytes| then []
    else
      var value := bytes[off..off + stride];
      var rest := WindowRows(bytes, addr, off + align, stride, align, test);
      if test(value) then [Row(addr + off, value, value)] + rest else rest
  }

  /** Where the walk goes after reading `read` bytes at `addr`. */
  function NextAddr(addr: nat, read: nat, stride: nat, align: nat): (next: nat)
    requires align > 0 && stride > 0
    ensures next >= addr + align
  {
    var step := if read >= stride then read - (stride - 1) else 1;
    var next := NextMultiple(addr + step, align);
    if next >= addr + align then next else addr + align
  }

  /** `next` is the first lattice point whose value a window of `read` bytes
      at `addr` does not hold in full. */
  ghost predicate FirstBeyond(addr: nat, read: nat, stride: nat, align: nat, next: nat)
    requires align > 0
  {
    next % align == 0 && addr + read < next + stride <= addr + read + align
  }

  lemma NextIsFirstBeyond(addr: nat, read: nat, stride: nat, align: nat)
    requires align > 0 && stride > 0 && addr % align == 0 && stride <= read
    ensures FirstBeyond(addr, read, stride, align, NextAddr(addr, read, stride, align))
  {
    var next := NextMultiple(addr + (read - stride + 1), align);
    NextMultipleIsNext(addr + (read - stride + 1), align);
    if next < addr + align {
      AlignedGap(addr, next, align);
    }
  }

  /** The windows overlap in bytes, never in candidates. */
  lemma {:induction false} WindowThenRest(mem: Snapshot, bytes: seq<Byte>, addr: nat, off: nat, end: nat, stride: nat,
                                          align: nat, test: seq<Byte> -> bool, next: nat)
    requires align > 0 && (addr + off) % align == 0 && addr + |bytes| <= end
    requires FirstBeyond(addr, |bytes|, stride, align, next) && addr + off <= next
    requires Readable(mem, addr, |bytes|) && bytes == Slice(mem, addr, |bytes|)
    ensures LatticeRows(mem, addr + off, end, stride, align, test)
         == WindowRows(bytes, addr, off, stride, align, test) + LatticeRows(mem, next, end, stride, align, test)
    decreases |bytes| - off
  {
    var tail := LatticeRows(mem, next, end, stride, align, test);
    if off + stride > |bytes| {
      AlignedGap(addr + off, next, align);
      assert [] + tail == tail;
    } else {
      NextAligned(addr + off, align);
      assert addr + (off + align) == addr + off + align;
      if next < addr + off + align {
        AlignedGap(addr + off, next, align);
      }
      WindowThenRest(mem, bytes, addr, off + align, end, stride, align, test, next);
      SliceOfSlice(mem, addr, |bytes|, off, stride);
      ConsConcat(Row(addr + off, bytes[off..off + stride], bytes[off..off + stride]),
                 WindowRows(bytes, addr, off + align, stride, align, test), tail);
    }
  }

  lemma ConsConcat(row: Row, rest: seq<Row>, tail: seq<Row>)
    ensures [row] + (rest + tail) == [row] + rest + tail
  {
  }

  // ----- The walk ------------------------------------------------------------------

  datatype WalkOutcome = Completed | LimitReached | Cancelled | ReadError

  /** Ticks of the observer: how many candidates so far, and since the last tick or
      the start of the region. */
  datatype Ticks = Ticks(scanned: nat, sinceTick: nat)

  method Tick(ticks: Ticks, keepGoing: nat -> bool) returns (next: Ticks, go: bool)
    ensures next.scanned == ticks.scanned + 1
    ensures !go ==> exists n :: !keepGoing(n)
  {
    next, go := Ticks(ticks.scanned + 1, ticks.sinceTick + 1), true;
    if next.sinceTick >= PROGRESS_INTERVAL {
      next := next.(sinceTick := 0);
      go := keepGoing(next.scanned);
    }
  }

  /** What appending part of `found` to `before` may leave in the results. */
  ghost predicate Appended(before: seq<Row>, found: seq<Row>, rows: seq<Row>, limit: nat, outcome: WalkOutcome) {
    && before <= rows <= before + found
    && (outcome == Completed ==> rows == before + found && (rows == before || |rows| < limit))
    && (outcome == LimitReached ==> |rows| == (if |before| < limit then limit else |before| + 1))
  }

  /** Tests every lattice offset of one window. */
  method ScanWindow(bytes: seq<Byte>, addr: nat, stride: nat, align: nat, test: seq<Byte> -> bool, limit: nat,
                    out: ScanResults, ticks: Ticks, keepGoing: nat -> bool)
    returns (outcome: WalkOutcome, ticks': Ticks)
    requires align > 0 && out.Valid() && out.stride == stride
    modifies out
    ensures out.Valid() && outcome != ReadError
    ensures Appended(old(out.Rows()), WindowRows(bytes, addr, 0, stride, align, test), out.Rows(), limit, outcome)
    ensures outcome == Cancelled ==> exists n :: !keepGoing(n)
  {
    ghost var before := out.Rows();
    ghost var all := before + WindowRows(bytes, addr, 0, stride, align, test);
    ticks' := ticks;
    var off := 0;
    while off + stride <= |bytes|
      invariant out.Valid() && 0 <= off
      invariant before <= out.Rows()
      invariant out.Rows() + WindowRows(bytes, addr, off, stride, align, test) == all
      invariant out.Rows() == before || |out.Rows()| < limit
      decreases |bytes| - off
    {
      var go;
      ticks', go := Tick(ticks', keepGoing);
      if !go {
        return Cancelled, ticks';
      }
      var value := bytes[off..off + stride];
      if test(value) {
        ConsSnoc(out.Rows(), Row(addr + off, value, value), WindowRows(bytes, addr, off + align, stride, align, test));
        out.Push(addr + off, value, value);
        if |out.addresses| >= limit {
          return LimitReached, ticks';
        }
      }
      off := off + align;
    }
    outcome := Completed;
  }

  lemma ConsSnoc(a: seq<Row>, row: Row, b: seq<Row>)
    ensures a + ([row] + b) == (a + [row]) + b
  {
  }

  /** What one walk over a region, or over all of them, may leave behind. Short
      reads can end it early; complete reads cannot. */
  ghost predicate Walked(before: seq<Row>, found: seq<Row>, rows: seq<Row>, limit: nat, outcome: WalkOutcome, full: bool) {
    && before <= rows <= before + found
    && (full ==> outcome != ReadError)
    && (outcome == Completed ==> (full ==> rows == before + found) && (rows == before || |rows| < limit))
    && (outcome == LimitReached ==> |rows| == (if |before| < limit then limit else |before| + 1))
  }

  /** The walk stands at lattice point `addr`: what it has, plus the plain scan
      from here on, is what the region holds. */
  ghost predicate AtLattice(mem: Snapshot, addr: nat, end: nat, stride: nat, align: nat, test: seq<Byte> -> bool,
                            before: seq<Row>, found: seq<Row>, rows: seq<Row>, limit: nat)
    requires align > 0
  {
    && addr % align == 0 && before <= rows && (rows == before || |rows| < limit)
    && rows + LatticeRows(mem, addr, end, stride, align, test) == before + found
  }

  lemma WindowStep(mem: Snapshot, bytes: seq<Byte>, addr: nat, end: nat, stride: nat, align: nat, test: seq<Byte> -> bool,
                   before: seq<Row>, found: seq<Row>, rows: seq<Row>, rows': seq<Row>, limit: nat, outcome: WalkOutcome)
    requires align > 0 && stride > 0 && stride <= |bytes| && addr + |bytes| <= end
    requires Readable(mem, addr, |bytes|) && bytes == Slice(mem, addr, |bytes|)
    requires AtLattice(mem, addr, end, stride, align, test, before, found, rows, limit)
    requires Appended(rows, WindowRows(bytes, addr, 0, stride, align, test), rows', limit, outcome)
    requires outcome != ReadError
    ensures outcome == Completed ==>
      AtLattice(mem, NextAddr(addr, |bytes|, stride, align), end, stride, align, test, before, found, rows', limit)
    ensures outcome != Completed ==> Walked(before, found, rows', limit, outcome, true)
  {
    var next := NextAddr(addr, |bytes|, stride, align);
    var window := WindowRows(bytes, addr, 0, stride, align, test);
    var tail := LatticeRows(mem, next, end, stride, align, test);
    NextIsFirstBeyond(addr, |bytes|, stride, align);
    WindowThenRest(mem, bytes, addr, 0, end, stride, align, test, next);
    AppendStep(before, found, rows, window, tail, rows', limit, outcome);
  }

  lemma AppendStep(before: seq<Row>, found: seq<Row>, rows: seq<Row>, window: seq<Row>, tail: seq<Row>,
                   rows': seq<Row>, limit: nat, outcome: WalkOutcome)
    requires before <= rows && (rows == before || |rows| < limit) && rows + (window + tail) == before + found
    requires Appended(rows, window, rows', limit, outcome) && outcome != ReadError
    ensures outcome == Completed ==> rows' + tail == before + found
    ensures before <= rows' && (outcome == Completed ==> rows' == before || |rows'| < limit)
    ensures outcome != Completed ==> Walked(before, found, rows', limit, outcome, true)
  {
    assert rows + (window + tail) == rows + window + tail;
  }

  /** One region, in windows that never read past its end. */
  method ScanRegion(t: Target, ghost mem: Snapshot, region: Region, stride: nat, align: nat, test: seq<Byte> -> bool,
                    limit: nat, out: ScanResults, ticks: Ticks, keepGoing: nat -> bool)
    returns (outcome: WalkOutcome, ticks': Ticks)
    requires Faithful(t, mem) && align > 0 && stride > 0 && out.Valid() && out.stride == stride
    modifies out
    ensures out.Valid()
    ensures Walked(old(out.Rows()), RegionRows(mem, region, stride, align, test), out.Rows(), limit, outcome,
                   FullReads(t, [region]))
    ensures outcome == Cancelled ==> exists n :: !keepGoing(n)
  {
    ghost var before, found := out.Rows(), RegionRows(mem, region, stride, align, test);
    var addr: nat, end: nat := NextMultiple(region.base, align), region.End();
    NextMultipleIsNext(region.base, align);
    ticks' := ticks.(sinceTick := 0);
    var room := if CHUNK_SIZE >= stride then CHUNK_SIZE else stride;
    while addr < end
      invariant out.Valid() && region.base <= addr
      invariant AtLattice(mem, addr, end, stride, align, test, before, found, out.Rows(), limit)
      decreases end as int - addr
    {
      var want := if room <= end - addr then room else end - addr;
      var got := t.read(addr, want);
      assert region in [region];
      if got.Failed? {
        return ReadError, ticks';
      }
      if |got.bytes| < stride {
        break;
      }
      ghost var rows := out.Rows();
      outcome, ticks' := ScanWindow(got.bytes, addr, stride, align, test, limit, out, ticks', keepGoing);
      WindowStep(mem, got.bytes, addr, end, stride, align, test, before, found, rows, out.Rows(), limit, outcome);
      if outcome != Completed {
        return;
      }
      addr := NextAddr(addr, |got.bytes|, stride, align);
    }
    outcome := Completed;
  }

  // ----- All regions ------------------------------------------------------------------

  /** What the scan of all regions may report. A positive limit cuts the plain
      scan's list off after `limit` rows, and `truncated` says whether it did. */
  ghost predicate Scanned(all: seq<Row>, rows: seq<Row>, limit: nat, outcome: WalkOutcome, truncated: bool, full: bool) {
    && (forall row :: row in rows ==> row in all)
    && (full ==> rows <= all && outcome != ReadError)
    && (outcome == Completed && !truncated && full ==> rows == all)
    && (outcome == Completed && limit > 0 ==> if truncated then |rows| == limit else |rows| < limit)
  }

  ghost predicate AtRegion(all: seq<Row>, rows: seq<Row>, rest: seq<Row>, limit: nat, full: bool) {
    && (forall row :: row in rows ==> row in all) && (forall row :: row in rest ==> row in all)
    && (full ==> rows + rest == all)
    && (limit > 0 ==> |rows| < limit)
  }

  lemma RegionStep(all: seq<Row>, rows: seq<Row>, found: seq<Row>, rest: seq<Row>, rows': seq<Row>, limit: nat,
                   outcome: WalkOutcome, full: bool, fullHere: bool)
    requires AtRegion(all, rows, found + rest, limit, full) && (full ==> fullHere)
    requires Walked(rows, found, rows', limit, outcome, fullHere)
    ensures full ==> rows' <= all && outcome != ReadError
    ensures forall row :: row in rows' ==> row in all
    ensures outcome == LimitReached && limit > 0 ==> |rows'| == limit
    ensures outcome == Completed ==> AtRegion(all, rows', rest, limit, full)
  {
    assert rows + (found + rest) == rows + found + rest;
    forall row | row in rows' ensures row in all {
      var i :| 0 <= i < |rows'| && rows'[i] == row;
      assert (rows + found)[i] == row;
      assert row in rows || row in found + rest;
    }
  }

  /** Every region in turn, until the result limit is hit. `truncated` is set
      when a region leaves the limit reached. */
  method ScanRegions(t: Target, ghost mem: Snapshot, regions: seq<Region>, stride: nat, align: nat,
                     test: seq<Byte> -> bool, limit: nat, out: ScanResults, keepGoing: nat -> bool)
    returns (outcome: WalkOutcome, truncated: bool, scanned: nat)
    requires Faithful(t, mem) && align > 0 && stride > 0 && out.Valid() && out.stride == stride && out.Rows() == []
    modifies out
    ensures out.Valid() && outcome != LimitReached
    ensures Scanned(ScanRows(mem, regions, stride, align, test), out.Rows(), limit, outcome, truncated,
                    FullReads(t, regions))
    ensures outcome == Cancelled ==> exists n :: !keepGoing(n)
  {
    ghost var all, full := ScanRows(mem, regions, stride, align, test), FullReads(t, regions);
    var ticks := Ticks(0, 0);
    truncated := false;
    var k := 0;
    assert regions[0..] == regions && [] + all == all;
    while k < |regions|
      invariant 0 <= k <= |regions| && out.Valid()
      invariant AtRegion(all, out.Rows(), ScanRows(mem, regions[k..], stride, align, test), limit, full)
    {
      ghost var rows := out.Rows();
      assert regions[k..][1..] == regions[k + 1..];
      assert full ==> FullReads(t, [regions[k]]) by {
        assert regions[k] in regions;
      }
      outcome, ticks := ScanRegion(t, mem, regions[k], stride, align, test, limit, out, ticks, keepGoing);
      scanned := ticks.scanned;
      RegionStep(all, rows, RegionRows(mem, regions[k], stride, align, test),
                 ScanRows(mem, regions[k + 1..], stride, align, test), out.Rows(), limit, outcome,
                 full, FullReads(t, [regions[k]]));
      if outcome == Cancelled || outcome == ReadError {
        return;
      }
      if |out.addresses| >= limit {
        return Completed, true, scanned;
      }
      k := k + 1;
    }
    outcome, scanned := Completed, ticks.scanned;
    assert out.Rows() + [] == out.Rows();
  }
}
