/** The spider's struct-window read (crates/nemclass-scan/src/spider.rs): one
    read in the common case, a page-by-page retry when that yields nothing, and
    a record of which offsets came back. */
module SpiderWindow {
  import opened Memory

  /** Page granularity of the fallback path. */
  const PAGE: nat := 4096

  datatype Span = Span(lo: nat, hi: nat)

  /** Which offsets of a window hold bytes that were really read. */
  datatype Cover = Full(n: nat) | Sparse(spans: seq<Span>) {
    /** Whether `[off, off + need)` was read. */
    predicate Has(off: nat, need: nat) {
      match this
      case Full(n) => off + need <= n
      case Sparse(spans) => exists s :: s in spans && s.lo <= off && off + need <= s.hi
    }

    function Limit(): nat {
      match this
      case Full(n) => n
      case Sparse(spans) => if spans == [] then 0 else spans[|spans| - 1].hi
    }
  }

  /** End of the piece read next: the next page boundary, but at least one byte. */
  function PieceEnd(addr: nat, off: nat, len: nat): (end: nat)
    requires off < len
    ensures off < end <= len
  {
    var boundary := NextMultiple(addr + off, PAGE) - addr;
    if boundary < off + 1 then off + 1 else if boundary > len then len else boundary
  }

  /** Records `[off, off + n)`, extending the last span when it abuts. */
  function AddSpan(spans: seq<Span>, off: nat, n: nat): seq<Span> {
    if spans != [] && spans[|spans| - 1].hi == off
    then spans[..|spans| - 1] + [Span(spans[|spans| - 1].lo, off + n)]
    else spans + [Span(off, off + n)]
  }

  function AfterPiece(t: Target, addr: nat, off: nat, end: nat, spans: seq<Span>): seq<Span>
    requires off < end
  {
    var got := t.read(addr + off, end - off);
    if got.Got? && |got.bytes| > 0 then AddSpan(spans, off, |got.bytes|) else spans
  }

  /** The spans recorded by the page walk from `off` on. */
  function PageSpans(t: Target, addr: nat, len: nat, off: nat, spans: seq<Span>): seq<Span>
    decreases len - off
  {
    if off >= len then spans
    else
      var end := PieceEnd(addr, off, len);
      PageSpans(t, addr, len, end, AfterPiece(t, addr, off, end, spans))
  }

  /** What a window read at `addr` covers. */
  function CoverOf(t: Target, addr: nat, len: nat): Cover {
    var got := t.read(addr, len);
    if got.Got? && |got.bytes| > 0 then Full(|got.bytes|)
    else Sparse(PageSpans(t, addr, len, 0, []))
  }

  // ----- Invariants of the page walk ------------------------------------------

  /** Non-empty spans in ascending order with a gap after each. */
  ghost predicate Spaced(spans: seq<Span>, upTo: nat) {
    && (forall i :: 0 <= i < |spans| ==> spans[i].lo < spans[i].hi <= upTo)
    && (forall i, j :: 0 <= i < j < |spans| ==> spans[i].hi < spans[j].lo)
  }

  ghost predicate InSpan(spans: seq<Span>, k: int) {
    exists i :: 0 <= i < |spans| && spans[i].lo <= k < spans[i].hi
  }

  ghost predicate InCover(c: Cover, k: nat) {
    match c
    case Full(n) => k < n
    case Sparse(spans) => InSpan(spans, k)
  }

  lemma AddSpanSpaced(spans: seq<Span>, off: nat, n: nat, upTo: nat)
    requires Spaced(spans, off) && n > 0 && off + n <= upTo
    ensures Spaced(AddSpan(spans, off, n), upTo)
  {
  }

  lemma AddSpanAdds(spans: seq<Span>, off: nat, n: nat, k: int)
    requires Spaced(spans, off) && n > 0
    ensures InSpan(AddSpan(spans, off, n), k) <==> InSpan(spans, k) || off <= k < off + n
  {
    var out := AddSpan(spans, off, n);
    var last := |out| - 1;
    if InSpan(spans, k) {
      var i :| 0 <= i < |spans| && spans[i].lo <= k < spans[i].hi;
      assert out[i].lo <= k < out[i].hi;
    } else if off <= k < off + n {
      assert out[last].lo <= k < out[last].hi;
    }
  }

  /** The byte just after a span is in no span. */
  lemma GapAfter(spans: seq<Span>, upTo: nat, i: nat)
    requires Spaced(spans, upTo) && i < |spans|
    ensures !InSpan(spans, spans[i].hi)
  {
    forall j | 0 <= j < |spans| ensures !(spans[j].lo <= spans[i].hi < spans[j].hi) {
      assert j < i ==> spans[j].hi < spans[i].lo;
      assert i < j ==> spans[i].hi < spans[j].lo;
    }
  }

  /** The walk only ever records bytes that are there. */
  lemma {:induction false} PageSpansFaithful(t: Target, mem: Snapshot, addr: nat, len: nat, off: nat, spans: seq<Span>)
    requires Faithful(t, mem) && off <= len && Spaced(spans, off)
    requires forall k :: InSpan(spans, k) ==> addr + k in mem
    ensures Spaced(PageSpans(t, addr, len, off, spans), len)
    ensures forall k :: InSpan(PageSpans(t, addr, len, off, spans), k) ==> addr + k in mem
    decreases len - off
  {
    if off < len {
      var end := PieceEnd(addr, off, len);
      var got := t.read(addr + off, end - off);
      var next := AfterPiece(t, addr, off, end, spans);
      if got.Got? && |got.bytes| > 0 {
        AddSpanSpaced(spans, off, |got.bytes|, end);
        forall k | InSpan(next, k) ensures addr + k in mem {
          AddSpanAdds(spans, off, |got.bytes|, k);
        }
      }
      PageSpansFaithful(t, mem, addr, len, end, next);
    }
  }

  lemma CoverFaithful(t: Target, mem: Snapshot, addr: nat, len: nat, k: nat)
    requires Faithful(t, mem) && InCover(CoverOf(t, addr, len), k)
    ensures k < len && addr + k in mem
  {
    var got := t.read(addr, len);
    if !(got.Got? && |got.bytes| > 0) {
      PageSpansFaithful(t, mem, addr, len, 0, []);
    }
  }

  lemma HasCovers(c: Cover, off: nat, need: nat, k: nat)
    requires c.Has(off, need) && off <= k < off + need
    ensures InCover(c, k)
  {
    if c.Sparse? {
      var s :| s in c.spans && s.lo <= off && off + need <= s.hi;
      var i :| 0 <= i < |c.spans| && c.spans[i] == s;
      assert c.spans[i].lo <= k < c.spans[i].hi;
    }
  }

  lemma HasBelowLimit(c: Cover, len: nat, off: nat, need: nat)
    requires c.Has(off, need) && (c.Sparse? ==> Spaced(c.spans, len))
    ensures off + need <= c.Limit()
  {
    if c.Sparse? {
      var s :| s in c.spans && s.lo <= off && off + need <= s.hi;
      var i :| 0 <= i < |c.spans| && c.spans[i] == s;
      assert i < |c.spans| - 1 ==> c.spans[i].hi < c.spans[|c.spans| - 1].lo;
    }
  }

  /** A covered slot is readable, and lies below the limit that bounds the walk. */
  lemma HasImpliesReadable(t: Target, mem: Snapshot, addr: nat, len: nat, off: nat, need: nat)
    requires Faithful(t, mem) && CoverOf(t, addr, len).Has(off, need) && need > 0
    ensures Readable(mem, addr + off, need)
    ensures off + need <= len && off + need <= CoverOf(t, addr, len).Limit()
  {
    var c := CoverOf(t, addr, len);
    PageSpansFaithful(t, mem, addr, len, 0, []);
    HasBelowLimit(c, len, off, need);
    forall x | addr + off <= x < addr + off + need ensures x in mem {
      HasCovers(c, off, need, x - addr);
      CoverFaithful(t, mem, addr, len, x - addr);
    }
    HasCovers(c, off, need, off + need - 1);
    CoverFaithful(t, mem, addr, len, off + need - 1);
  }

  // ----- The window read --------------------------------------------------------

  /** Every covered offset of the window holds the target's byte. */
  ghost predicate Filled(window: seq<Byte>, mem: Snapshot, addr: nat, spans: seq<Span>) {
    forall k :: 0 <= k < |window| && InSpan(spans, k) ==> addr + k in mem && window[k] == mem[addr + k]
  }

  /** One piece of the page walk. */
  method ReadPiece(t: Target, ghost mem: Snapshot, addr: nat, buf: array<Byte>, off: nat, end: nat, spans: seq<Span>)
    returns (next: seq<Span>)
    requires Faithful(t, mem) && off < end <= buf.Length && Spaced(spans, off)
    requires Filled(buf[..], mem, addr, spans)
    modifies buf
    ensures next == AfterPiece(t, addr, off, end, spans)
    ensures Spaced(next, end) && Filled(buf[..], mem, addr, next)
  {
    var piece := t.read(addr + off, end - off);
    next := AfterPiece(t, addr, off, end, spans);
    if piece.Got? && |piece.bytes| > 0 {
      Store(buf, off, piece.bytes);
      AddSpanSpaced(spans, off, |piece.bytes|, end);
      forall k | 0 <= k < buf.Length && InSpan(next, k) ensures addr + k in mem && buf[k] == mem[addr + k] {
        AddSpanAdds(spans, off, |piece.bytes|, k);
        assert InSpan(spans, k) ==> old(buf[..])[k] == mem[addr + k];
      }
    }
  }

  /** Fills `buf` from `addr`. Nothing is promised of the offsets outside the
      returned cover: they may hold bytes of an earlier frame. */
  method ReadWindow(t: Target, ghost mem: Snapshot, addr: nat, buf: array<Byte>) returns (c: Cover)
    requires Faithful(t, mem)
    modifies buf
    ensures c == CoverOf(t, addr, buf.Length)
    ensures forall k :: 0 <= k < buf.Length && InCover(c, k) ==> addr + k in mem && buf[k] == mem[addr + k]
  {
    var got := t.read(addr, buf.Length);
    if got.Got? && |got.bytes| > 0 {
      Store(buf, 0, got.bytes);
      return Full(|got.bytes|);
    }
    var spans: seq<Span> := [];
    var off := 0;
    while off < buf.Length
      invariant 0 <= off <= buf.Length && Spaced(spans, off)
      invariant PageSpans(t, addr, buf.Length, off, spans) == PageSpans(t, addr, buf.Length, 0, [])
      invariant Filled(buf[..], mem, addr, spans)
    {
      var end := PieceEnd(addr, off, buf.Length);
      spans := ReadPiece(t, mem, addr, buf, off, end, spans);
      off := end;
    }
    c := Sparse(spans);
    assert forall k :: 0 <= k < buf.Length ==> buf[..][k] == buf[k];
  }

  method Store(buf: array<Byte>, off: nat, bytes: seq<Byte>)
    requires off + |bytes| <= buf.Length
    modifies buf
    ensures forall k :: 0 <= k < buf.Length ==>
      buf[k] == if off <= k < off + |bytes| then bytes[k - off] else old(buf[k])
  {
    for i := 0 to |bytes|
      invariant forall k :: 0 <= k < buf.Length ==>
        buf[k] == if off <= k < off + i then bytes[k - off] else old(buf[k])
    {
      buf[off + i] := bytes[i];
    }
  }

  // ----- Exact coverage when pages are all or nothing -----------------------------

  /** Pages are mapped whole, and a read inside one page gets all of it or none. */
  ghost predicate AllOrNothing(t: Target, mem: Snapshot) {
    && (forall x: nat, y: nat {:trigger x / PAGE, y / PAGE} :: x / PAGE == y / PAGE ==> (x in mem <==> y in mem))
    && (forall a: nat, n: nat {:trigger t.read(a, n)} :: n > 0 && a / PAGE == (a + n - 1) / PAGE ==>
          if a in mem then t.read(a, n).Got? && |t.read(a, n).bytes| == n
          else !t.read(a, n).Got? || t.read(a, n).bytes == [])
  }

  /** Each piece lies in one page. */
  lemma PieceInOnePage(addr: nat, off: nat, len: nat, k: nat)
    requires off < len && off <= k < PieceEnd(addr, off, len)
    ensures (addr + k) / PAGE == (addr + off) / PAGE
  {
    var a := addr + off;
    var end := PieceEnd(addr, off, len);
    if a % PAGE != 0 {
      assert NextMultiple(a, PAGE) == (a / PAGE + 1) * PAGE;
      assert addr + k < (a / PAGE + 1) * PAGE;
    }
  }

  lemma {:induction false} PageSpansExact(t: Target, mem: Snapshot, addr: nat, len: nat, off: nat, spans: seq<Span>)
    requires Faithful(t, mem) && AllOrNothing(t, mem) && off <= len && Spaced(spans, off)
    requires forall k :: 0 <= k < off ==> (InSpan(spans, k) <==> addr + k in mem)
    ensures var out := PageSpans(t, addr, len, off, spans);
            Spaced(out, len) && forall k :: 0 <= k < len ==> (InSpan(out, k) <==> addr + k in mem)
    decreases len - off
  {
    if off < len {
      var end := PieceEnd(addr, off, len);
      var got := t.read(addr + off, end - off);
      var next := AfterPiece(t, addr, off, end, spans);
      PieceInOnePage(addr, off, len, end - 1);
      if got.Got? && |got.bytes| > 0 {
        AddSpanSpaced(spans, off, |got.bytes|, end);
      }
      forall k | 0 <= k < end ensures InSpan(next, k) <==> addr + k in mem {
        if got.Got? && |got.bytes| > 0 {
          AddSpanAdds(spans, off, |got.bytes|, k);
        }
        if k >= off {
          PieceInOnePage(addr, off, len, k);
        }
      }
      PageSpansExact(t, mem, addr, len, end, next);
    }
  }

  /** The retry recovers per-slot granularity: a slot counts as read exactly
      when all its bytes are mapped, also when it straddles two pages; and the
      recorded spans are ordered, disjoint and fully coalesced. */
  lemma FallbackIsExact(t: Target, mem: Snapshot, addr: nat, len: nat, off: nat, need: nat)
    requires Faithful(t, mem) && AllOrNothing(t, mem)
    requires var got := t.read(addr, len); got.Failed? || got.bytes == []
    requires need > 0 && off + need <= len
    ensures CoverOf(t, addr, len).Sparse? && Spaced(CoverOf(t, addr, len).spans, len)
    ensures CoverOf(t, addr, len).Has(off, need) <==> Readable(mem, addr + off, need)
  {
    PageSpansExact(t, mem, addr, len, 0, []);
    var c := CoverOf(t, addr, len);
    if c.Has(off, need) {
      HasImpliesReadable(t, mem, addr, len, off, need);
    }
    if Readable(mem, addr + off, need) {
      assert addr + off in mem && InSpan(c.spans, off);
      var i :| 0 <= i < |c.spans| && c.spans[i].lo <= off < c.spans[i].hi;
      GapAfter(c.spans, len, i);
      assert off + need <= c.spans[i].hi;
      assert c.spans[i] in c.spans;
    }
  }
}
