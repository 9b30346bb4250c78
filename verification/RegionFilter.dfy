/** Which parts of the address space a first scan walks: a window intersected
    with an optional allowlist (crates/nemclass-scan/src/target.rs). */
module RegionFilter {
  import opened Memory

  datatype Filter = Filter(start: Usize, stop: Usize, allow: seq<Region>) {
    predicate IsUnrestricted() {
      start == 0 && stop == USIZE_MAX && allow == []
    }

    /** Zero-sized spans are dropped before the allowlist is consulted. */
    function Spans(): seq<Region> {
      NonZero(allow)
    }

    /** The set a restricted filter stands for. */
    ghost predicate Accepts(a: nat) {
      start <= a < stop && (Spans() == [] || Covers(Spans(), a))
    }

    /** What it is documented to stand for: the window, and the allowlist if there is one. */
    ghost predicate Documented(a: nat) {
      start <= a < stop && (allow == [] || Covers(allow, a))
    }
  }

  ghost predicate Covers(regions: seq<Region>, a: nat) {
    exists r :: r in regions && r.Contains(a)
  }

  ghost predicate NoneEmpty(regions: seq<Region>) {
    forall r :: r in regions ==> r.base < r.End()
  }

  function NonZero(rs: seq<Region>): (out: seq<Region>)
    ensures forall r :: r in out <==> r in rs && r.size > 0
  {
    if rs == [] then []
    else if rs[0].size > 0 then [rs[0]] + NonZero(rs[1..]) else NonZero(rs[1..])
  }

  // ----- Stable sort by base ---------------------------------------------------

  ghost predicate SortedByBase(rs: seq<Region>) {
    forall i, j :: 0 <= i < j < |rs| ==> rs[i].base <= rs[j].base
  }

  function InsertByBase(r: Region, rs: seq<Region>): (out: seq<Region>)
    ensures forall x :: x in out <==> x == r || x in rs
  {
    if rs == [] || r.base <= rs[0].base then [r] + rs else [rs[0]] + InsertByBase(r, rs[1..])
  }

  function SortByBase(rs: seq<Region>): (out: seq<Region>)
    ensures forall x :: x in out <==> x in rs
  {
    if rs == [] then [] else InsertByBase(rs[0], SortByBase(rs[1..]))
  }

  lemma {:induction false} InsertKeepsOrder(r: Region, rs: seq<Region>)
    requires SortedByBase(rs)
    ensures SortedByBase(InsertByBase(r, rs))
  {
    if rs != [] && r.base > rs[0].base {
      InsertKeepsOrder(r, rs[1..]);
      var out := InsertByBase(r, rs[1..]);
      forall j | 0 <= j < |out| ensures rs[0].base <= out[j].base {
        assert out[j] in out;
      }
    }
  }

  lemma {:induction false} SortSorts(rs: seq<Region>)
    ensures SortedByBase(SortByBase(rs))
  {
    if rs != [] {
      SortSorts(rs[1..]);
      InsertKeepsOrder(rs[0], SortByBase(rs[1..]));
    }
  }

  lemma {:induction false} SortOfSorted(rs: seq<Region>)
    requires SortedByBase(rs)
    ensures SortByBase(rs) == rs
  {
    if rs != [] {
      SortOfSorted(rs[1..]);
    }
  }

  // ----- The merged allowlist ----------------------------------------------------

  /** Coalesces spans sorted by base. */
  function Merge(spans: seq<Region>): seq<Region> {
    if spans == [] then [] else AddSpan(Merge(spans[..|spans| - 1]), spans[|spans| - 1])
  }

  lemma {:induction false} MergeAscends(spans: seq<Region>)
    requires SortedByBase(spans)
    ensures Ascending(Merge(spans)) && (Merge(spans) == [] <==> spans == [])
    ensures spans != [] ==> Merge(spans)[|Merge(spans)| - 1].base <= spans[|spans| - 1].base
  {
    if spans != [] {
      var n := |spans| - 1;
      MergeAscends(spans[..n]);
      AddSpanAscends(Merge(spans[..n]), spans[n]);
    }
  }

  lemma {:induction false} MergeCovers(spans: seq<Region>, a: nat)
    requires SortedByBase(spans)
    ensures Covers(Merge(spans), a) <==> Covers(spans, a)
  {
    if spans != [] {
      var n := |spans| - 1;
      MergeCovers(spans[..n], a);
      MergeAscends(spans[..n]);
      AddSpanCovers(Merge(spans[..n]), spans[n], a);
      CoversSnoc(spans[..n], spans[n], a);
      assert spans == spans[..n] + [spans[n]];
    }
  }

  /** The allowlist sorted and coalesced. */
  function Allowlist(f: Filter): seq<Region> {
    Merge(SortByBase(f.Spans()))
  }

  /** It names the same addresses, and is ascending and disjoint. */
  lemma AllowlistExact(f: Filter, a: nat)
    ensures Ascending(Allowlist(f)) && (Allowlist(f) == [] <==> f.Spans() == [])
    ensures Covers(Allowlist(f), a) <==> Covers(f.Spans(), a)
  {
    var spans := SortByBase(f.Spans());
    SortSorts(f.Spans());
    MergeAscends(spans);
    MergeCovers(spans, a);
    assert |f.Spans()| > 0 ==> f.Spans()[0] in spans;
    assert |spans| > 0 ==> spans[0] in f.Spans();
  }

  /** The source's loop over the sorted spans, extending the last one in place. */
  method MergedAllow(f: Filter) returns (merged: seq<Region>)
    ensures merged == Allowlist(f)
  {
    var spans := SortByBase(f.Spans());
    merged := [];
    for k := 0 to |spans|
      invariant merged == Merge(spans[..k])
    {
      assert spans[..k + 1][..k] == spans[..k];
      merged := AddSpan(merged, spans[k]);
    }
    assert spans[..|spans|] == spans;
  }

  /** Extends the last span when `r` overlaps or abuts it. */
  function AddSpan(merged: seq<Region>, r: Region): seq<Region> {
    if merged == [] then [r]
    else
      var n := |merged| - 1;
      var last := merged[n];
      if last.base <= r.base <= last.End() then
        var end := if last.End() >= r.End() then last.End() else r.End();
        merged[..n] + [Region(last.base, end - last.base)]
      else merged + [r]
  }

  lemma AddSpanAscends(merged: seq<Region>, r: Region)
    requires Ascending(merged)
    requires merged != [] ==> merged[|merged| - 1].base <= r.base
    ensures Ascending(AddSpan(merged, r)) && AddSpan(merged, r) != []
    ensures AddSpan(merged, r)[|AddSpan(merged, r)| - 1].base <= r.base
  {
  }

  lemma AddSpanCovers(merged: seq<Region>, r: Region, a: nat)
    requires merged != [] ==> merged[|merged| - 1].base <= r.base
    ensures Covers(AddSpan(merged, r), a) <==> Covers(merged, a) || r.Contains(a)
  {
    if merged == [] {
      CoversSnoc([], r, a);
      assert [] + [r] == [r];
    } else {
      var n := |merged| - 1;
      var last := merged[n];
      assert merged == merged[..n] + [last];
      CoversSnoc(merged[..n], last, a);
      if r.base <= last.End() {
        var end := if last.End() >= r.End() then last.End() else r.End();
        CoversSnoc(merged[..n], Region(last.base, end - last.base), a);
      } else {
        CoversSnoc(merged, r, a);
      }
    }
  }

  lemma CoversSnoc(rs: seq<Region>, r: Region, a: nat)
    ensures Covers(rs + [r], a) <==> Covers(rs, a) || r.Contains(a)
  {
    if Covers(rs, a) {
      var x :| x in rs && x.Contains(a);
      assert x in rs + [r];
    }
    if r.Contains(a) {
      assert r in rs + [r];
    }
  }

  // ----- Applying the filter ----------------------------------------------------

  /** Non-empty regions in ascending order, none past `bound`. */
  ghost predicate Tidy(rs: seq<Region>, bound: nat) {
    Ascending(rs) && NoneEmpty(rs) && forall r :: r in rs ==> r.End() <= bound
  }

  /** `[lo, hi)` as a region, or nothing. */
  function Piece(lo: Usize, hi: Usize): seq<Region> {
    if lo < hi then [Region(lo, hi - lo)] else []
  }

  /** The pieces of `[lo, hi)` inside the allowlist. */
  function Pieces(lo: Usize, hi: Usize, allow: seq<Region>): seq<Region> {
    if allow == [] then []
    else
      var n := |allow| - 1;
      Pieces(lo, hi, allow[..n]) + Piece(Max(lo, allow[n].base), Min(hi, allow[n].End()))
  }

  /** One source region, clamped to the window and cut by the allowlist. */
  function Clip(f: Filter, allow: seq<Region>, r: Region): seq<Region> {
    var lo, hi := Max(r.base, f.start), Min(r.End(), f.stop);
    if lo >= hi then [] else if allow == [] then Piece(lo, hi) else Pieces(lo, hi, allow)
  }

  function ClipAll(f: Filter, allow: seq<Region>, regions: seq<Region>): seq<Region> {
    if regions == [] then []
    else ClipAll(f, allow, regions[..|regions| - 1]) + Clip(f, allow, regions[|regions| - 1])
  }

  /** `RegionFilter::apply` */
  function Filtered(f: Filter, regions: seq<Region>): seq<Region> {
    if f.IsUnrestricted() then regions
    else if f.start >= f.stop then []
    else SortByBase(ClipAll(f, Allowlist(f), regions))
  }

  lemma CoversConcat(a: seq<Region>, b: seq<Region>, x: nat)
    ensures Covers(a + b, x) <==> Covers(a, x) || Covers(b, x)
  {
    if Covers(a, x) {
      var r :| r in a && r.Contains(x);
      assert r in a + b;
    }
    if Covers(b, x) {
      var r :| r in b && r.Contains(x);
      assert r in a + b;
    }
  }

  lemma PieceCovers(lo: Usize, hi: Usize, a: nat)
    ensures Covers(Piece(lo, hi), a) <==> lo <= a < hi
  {
    if lo < hi {
      CoversSnoc([], Region(lo, hi - lo), a);
      assert [] + [Region(lo, hi - lo)] == [Region(lo, hi - lo)];
    }
  }

  /** Ascending, non-empty, and all of it in `[lo, hi]`. */
  ghost predicate TidyIn(rs: seq<Region>, lo: nat, hi: nat) {
    Tidy(rs, hi) && forall r :: r in rs ==> lo <= r.base
  }

  lemma TidyConcat(a: seq<Region>, b: seq<Region>, lo: nat, mid: nat, hi: nat)
    requires TidyIn(a, lo, mid) && TidyIn(b, mid, hi) && lo <= mid <= hi
    ensures TidyIn(a + b, lo, hi)
  {
    var s := a + b;
    forall i, j | 0 <= i < j < |s| ensures s[i].End() <= s[j].base {
      if i < |a| <= j {
        assert a[i] in a && b[j - |a|] in b;
      }
    }
  }

  lemma {:induction false} PiecesExact(lo: Usize, hi: Usize, allow: seq<Region>, a: nat)
    requires lo < hi && Ascending(allow)
    ensures Covers(Pieces(lo, hi, allow), a) <==> lo <= a < hi && Covers(allow, a)
  {
    if allow != [] {
      var n := |allow| - 1;
      PiecesExact(lo, hi, allow[..n], a);
      PieceCovers(Max(lo, allow[n].base), Min(hi, allow[n].End()), a);
      CoversConcat(Pieces(lo, hi, allow[..n]), Piece(Max(lo, allow[n].base), Min(hi, allow[n].End())), a);
      CoversSnoc(allow[..n], allow[n], a);
      assert allow == allow[..n] + [allow[n]];
    }
  }

  lemma {:induction false} PiecesTidy(lo: Usize, hi: Usize, allow: seq<Region>)
    requires lo < hi && Ascending(allow)
    ensures TidyIn(Pieces(lo, hi, allow), lo, hi)
    ensures allow != [] ==> TidyIn(Pieces(lo, hi, allow), lo, Max(lo, Min(hi, allow[|allow| - 1].End())))
  {
    if allow != [] {
      var n := |allow| - 1;
      var p, q := Pieces(lo, hi, allow[..n]), Piece(Max(lo, allow[n].base), Min(hi, allow[n].End()));
      PiecesTidy(lo, hi, allow[..n]);
      var mid := if n == 0 then lo else Max(lo, Min(hi, allow[n - 1].End()));
      assert n > 0 ==> allow[..n][n - 1] == allow[n - 1] && allow[n - 1].End() <= allow[n].base;
      TidyConcat(p, q, lo, mid, Max(lo, Min(hi, allow[n].End())));
    }
  }

  lemma ClipExact(f: Filter, r: Region, a: nat)
    ensures Covers(Clip(f, Allowlist(f), r), a) <==> r.Contains(a) && f.Accepts(a)
    ensures TidyIn(Clip(f, Allowlist(f), r), r.base, r.End())
  {
    var lo, hi := Max(r.base, f.start), Min(r.End(), f.stop);
    AllowlistExact(f, a);
    if lo < hi {
      PieceCovers(lo, hi, a);
      PiecesExact(lo, hi, Allowlist(f), a);
      PiecesTidy(lo, hi, Allowlist(f));
    }
  }

  lemma {:induction false} ClipAllExact(f: Filter, regions: seq<Region>, a: nat)
    requires Ascending(regions)
    ensures Covers(ClipAll(f, Allowlist(f), regions), a) <==> Covers(regions, a) && f.Accepts(a)
    ensures TidyIn(ClipAll(f, Allowlist(f), regions), 0, if regions == [] then 0 else regions[|regions| - 1].End())
    ensures Within(ClipAll(f, Allowlist(f), regions), regions)
  {
    if regions != [] {
      var n := |regions| - 1;
      var head, tail := ClipAll(f, Allowlist(f), regions[..n]), Clip(f, Allowlist(f), regions[n]);
      ClipAllExact(f, regions[..n], a);
      ClipExact(f, regions[n], a);
      CoversConcat(head, tail, a);
      CoversSnoc(regions[..n], regions[n], a);
      assert regions == regions[..n] + [regions[n]];
      assert n > 0 ==> regions[..n][n - 1] == regions[n - 1];
      var mid := if n == 0 then 0 else regions[n - 1].End();
      TidyWiden(tail, regions[n].base, mid, regions[n].End());
      TidyConcat(head, tail, 0, mid, regions[n].End());
      assert regions[n] in regions;
    }
  }

  lemma TidyWiden(rs: seq<Region>, lo: nat, lower: nat, hi: nat)
    requires TidyIn(rs, lo, hi) && lower <= lo
    ensures TidyIn(rs, lower, hi)
  {
  }

  /** Each region of `out` lies in one region of `regions`. */
  ghost predicate Within(out: seq<Region>, regions: seq<Region>) {
    forall r :: r in out ==> exists q :: q in regions && q.base <= r.base && r.End() <= q.End()
  }

  /** Filtering is set intersection, for every filter, into ascending, disjoint regions,
      each inside one of the originals; cut regions are never empty. */
  lemma FilteredIsIntersection(f: Filter, regions: seq<Region>, a: nat)
    requires Ascending(regions)
    ensures Within(Filtered(f, regions), regions) && Ascending(Filtered(f, regions))
    ensures !f.IsUnrestricted() ==> NoneEmpty(Filtered(f, regions))
    ensures Covers(Filtered(f, regions), a) <==> Covers(regions, a) && f.Accepts(a)
  {
    if f.IsUnrestricted() {
      DefaultAccepts(f, regions, a);
    } else if f.start < f.stop {
      ClipAllExact(f, regions, a);
      var out := ClipAll(f, Allowlist(f), regions);
      assert forall i :: 0 <= i < |out| ==> out[i] in out;
      SortOfSorted(out);
    }
  }

  /** The default filter accepts every address a region can hold. */
  lemma DefaultAccepts(f: Filter, regions: seq<Region>, a: nat)
    requires f == Filter(0, USIZE_MAX, [])
    ensures Covers(regions, a) ==> f.Accepts(a)
  {
  }

  /** A filter that was never set changes nothing, empty regions included. */
  lemma DefaultKeepsAll(regions: seq<Region>)
    ensures Filtered(Filter(0, USIZE_MAX, []), regions) == regions
  {
  }

  method AddPieces(lo: Usize, hi: Usize, allow: seq<Region>, out: seq<Region>) returns (r: seq<Region>)
    ensures r == out + Pieces(lo, hi, allow)
  {
    r := out;
    for i := 0 to |allow|
      invariant r == out + Pieces(lo, hi, allow[..i])
    {
      assert allow[..i + 1][..i] == allow[..i];
      var a, b := Max(lo, allow[i].base), Min(hi, allow[i].End());
      if a < b {
        r := r + [Region(a, b - a)];
      }
    }
    assert allow[..|allow|] == allow;
  }

  /** `RegionFilter::apply`, loop by loop. */
  method Apply(f: Filter, regions: seq<Region>) returns (out: seq<Region>)
    ensures out == Filtered(f, regions)
  {
    if f.IsUnrestricted() {
      return regions;
    }
    if f.start >= f.stop {
      return [];
    }
    var allow := MergedAllow(f);
    out := [];
    for k := 0 to |regions|
      invariant out == ClipAll(f, allow, regions[..k])
    {
      assert regions[..k + 1][..k] == regions[..k];
      var lo, hi := Max(regions[k].base, f.start), Min(regions[k].End(), f.stop);
      if lo < hi {
        if allow == [] {
          out := out + [Region(lo, hi - lo)];
        } else {
          out := AddPieces(lo, hi, allow, out);
        }
      }
    }
    assert regions[..|regions|] == regions;
    out := SortByBase(out);
  }

  /** An allowlist of zero-sized spans only acts as no allowlist at all. */
  lemma ZeroSpansAllowEverything(f: Filter, a: nat)
    requires forall r :: r in f.allow ==> r.size == 0
    ensures f.Accepts(a) <==> f.start <= a < f.stop
  {
    NonZeroOfZeros(f.allow);
  }

  /** A filter with a window accepts what it is documented to exactly when its
      allowlist is empty or has a span that is not zero-sized. */
  lemma DocumentedIff(f: Filter)
    requires f.start < f.stop
    ensures (forall a: nat :: f.Accepts(a) <==> f.Documented(a)) <==> f.allow == [] || exists r :: r in f.allow && r.size > 0
  {
    if r :| r in f.allow && r.size > 0 {
      assert r in f.Spans();
      forall a: nat ensures Covers(f.Spans(), a) <==> Covers(f.allow, a) {
        if x :| x in f.allow && x.Contains(a) {
          assert x in f.Spans();
        }
      }
    } else if f.allow != [] {
      ZeroSpansAllowEverything(f, f.start);
      assert f.Accepts(f.start) && !f.Documented(f.start);
    }
  }

  lemma {:induction false} NonZeroOfZeros(rs: seq<Region>)
    requires forall r :: r in rs ==> r.size == 0
    ensures NonZero(rs) == []
  {
    if rs != [] {
      NonZeroOfZeros(rs[1..]);
    }
  }
}
