/** The scan-target seam: regions, bytes and reads, shared by every scanner.

    A snapshot of the target is a partial map from address to byte. A `Target`
    is what the scanners see of it: its regions, and a `read` that may fail or
    come back short. Addresses are natural numbers; where the source computes
    on machine words the width is written out.
 */
module Memory {
  type Byte = b: int | 0 <= b < 256

  /** `usize::MAX` on the 64-bit targets the engine supports. */
  const USIZE_MAX: nat := 0xFFFF_FFFF_FFFF_FFFF

  type Usize = n: nat | n <= USIZE_MAX

  datatype Option<+T> = None | Some(value: T)

  function Max(a: nat, b: nat): nat {
    if a < b then b else a
  }

  function Min(a: nat, b: nat): nat {
    if a < b then a else b
  }

  type Snapshot = map<nat, Byte>

  datatype Region = Region(base: Usize, size: Usize) {
    /** Exclusive end address, saturating as the source does. */
    function End(): Usize {
      if base + size <= USIZE_MAX then base + size else USIZE_MAX
    }

    predicate Contains(a: nat) {
      base <= a < End()
    }
  }

  /** A region holds its bytes, but never the last address of all. */
  lemma RegionHolds(r: Region, a: nat)
    ensures r.Contains(a) <==> r.base <= a < r.base + r.size && a < USIZE_MAX
  {
  }

  datatype ReadOutcome = Failed | Got(bytes: seq<Byte>)

  datatype Target = Target(regions: seq<Region>, read: (nat, nat) -> ReadOutcome)

  /** Every byte of `[a, a + n)` is mapped. */
  ghost predicate Readable(mem: Snapshot, a: nat, n: nat) {
    forall x :: a <= x < a + n ==> x in mem
  }

  ghost function Slice(mem: Snapshot, a: nat, n: nat): (s: seq<Byte>)
    requires Readable(mem, a, n)
    ensures |s| == n
    ensures forall i {:trigger s[i]} :: 0 <= i < n ==> s[i] == mem[a + i]
  {
    seq(n, i requires 0 <= i < n => mem[a + i])
  }

  /** A read never invents bytes: what it returns is a prefix of what is there. */
  ghost predicate Faithful(t: Target, mem: Snapshot) {
    forall a: nat, n: nat {:trigger t.read(a, n)} :: t.read(a, n).Got? ==>
      && |t.read(a, n).bytes| <= n
      && Readable(mem, a, |t.read(a, n).bytes|)
      && t.read(a, n).bytes == Slice(mem, a, |t.read(a, n).bytes|)
  }

  /** A read wholly inside a region returns everything asked for. */
  ghost predicate FullReads(t: Target, regions: seq<Region>) {
    forall a: nat, n: nat, r {:trigger t.read(a, n), r in regions} ::
      r in regions && r.base <= a && a + n <= r.End() ==>
        t.read(a, n).Got? && |t.read(a, n).bytes| == n
  }

  /** A target that returns whatever is mapped. */
  ghost predicate ReadsAll(t: Target, mem: Snapshot) {
    forall a: nat, n: nat {:trigger t.read(a, n)} :: Readable(mem, a, n) ==> t.read(a, n).Got? && |t.read(a, n).bytes| == n
  }

  /** Regions in ascending order that do not overlap. */
  ghost predicate Ascending(regions: seq<Region>) {
    forall i, j :: 0 <= i < j < |regions| ==> regions[i].End() <= regions[j].base
  }

  /** A sub-slice of a slice is the slice at the shifted address. */
  lemma SliceOfSlice(mem: Snapshot, a: nat, n: nat, off: nat, len: nat)
    requires Readable(mem, a, n) && off + len <= n
    ensures Readable(mem, a + off, len)
    ensures Slice(mem, a, n)[off..off + len] == Slice(mem, a + off, len)
  {
    var s := Slice(mem, a, n);
    var d := Slice(mem, a + off, len);
    forall i | 0 <= i < len ensures s[off..off + len][i] == d[i] {
      assert s[off + i] == mem[a + (off + i)];
    }
  }

  // ----- Words ---------------------------------------------------------

  function Pow256(n: nat): (p: nat)
    ensures p > 0
  {
    if n == 0 then 1 else 256 * Pow256(n - 1)
  }

  /** Little-endian value of a byte string. */
  function LittleEndian(bytes: seq<Byte>): nat {
    if bytes == [] then 0 else bytes[0] + 256 * LittleEndian(bytes[1..])
  }

  /** A pointer-sized word: at most the first eight bytes count. */
  function Word(bytes: seq<Byte>): nat {
    LittleEndian(if |bytes| <= 8 then bytes else bytes[..8])
  }

  ghost function WordAt(mem: Snapshot, a: nat, psize: nat): nat
    requires Readable(mem, a, psize)
  {
    Word(Slice(mem, a, psize))
  }

  lemma {:induction false} LittleEndianBound(bytes: seq<Byte>)
    ensures LittleEndian(bytes) < Pow256(|bytes|)
  {
    if bytes != [] {
      LittleEndianBound(bytes[1..]);
    }
  }

  lemma {:induction false} LittleEndianAppend(bytes: seq<Byte>, b: Byte)
    ensures LittleEndian(bytes + [b]) == LittleEndian(bytes) + Pow256(|bytes|) * b
  {
    if bytes == [] {
      assert [b][1..] == [];
      assert bytes + [b] == [b];
    } else {
      assert (bytes + [b])[1..] == bytes[1..] + [b];
      LittleEndianAppend(bytes[1..], b);
    }
  }

  lemma WordBound(bytes: seq<Byte>)
    ensures Word(bytes) <= USIZE_MAX
  {
    var s := if |bytes| <= 8 then bytes else bytes[..8];
    LittleEndianBound(s);
    Pow256Mono(|s|, 8);
    assert Pow256(8) == 0x1_0000_0000_0000_0000 by {
      assert Pow256(1) == 0x100 && Pow256(2) == 0x1_0000 && Pow256(3) == 0x100_0000;
      assert Pow256(4) == 0x1_0000_0000 && Pow256(5) == 0x100_0000_0000;
      assert Pow256(6) == 0x1_0000_0000_0000 && Pow256(7) == 0x100_0000_0000_0000;
    }
  }

  lemma {:induction false} Pow256Mono(m: nat, n: nat)
    requires m <= n
    ensures Pow256(m) <= Pow256(n)
    decreases n - m
  {
    if m < n {
      Pow256Mono(m, n - 1);
    }
  }

  /** The source's accumulation loop. Byte `i` is shifted by `8 * i` bits and
      or-ed in; the bits are disjoint, so the or is the sum below. */
  method ReadWord(bytes: seq<Byte>) returns (v: nat)
    ensures v == Word(bytes)
    ensures v <= USIZE_MAX
  {
    v := 0;
    var i, shift: nat := 0, 1;
    while i < |bytes| && i < 8
      invariant 0 <= i <= |bytes| && i <= 8
      invariant shift == Pow256(i)
      invariant v == LittleEndian(bytes[..i])
    {
      LittleEndianAppend(bytes[..i], bytes[i]);
      assert bytes[..i + 1] == bytes[..i] + [bytes[i]];
      v := v + shift * bytes[i];
      shift := 256 * shift;
      i := i + 1;
    }
    assert bytes[..i] == if |bytes| <= 8 then bytes else bytes[..8];
    WordBound(bytes);
  }

  // ----- What a word says of its bytes -----------------------------------

  /** The `width` bytes of `v`, lowest first. */
  function Encode(v: nat, width: nat): (s: seq<Byte>)
    ensures |s| == width
  {
    if width == 0 then [] else [v % 256] + Encode(v / 256, width - 1)
  }

  lemma {:induction false} EncodeReadsBack(v: nat, width: nat)
    requires v < Pow256(width)
    ensures LittleEndian(Encode(v, width)) == v
  {
    if width > 0 {
      EncodeReadsBack(v / 256, width - 1);
      assert Encode(v, width)[1..] == Encode(v / 256, width - 1);
    }
  }

  lemma {:induction false} LittleEndianInjective(a: seq<Byte>, b: seq<Byte>)
    requires |a| == |b| && LittleEndian(a) == LittleEndian(b)
    ensures a == b
  {
    if a != [] {
      assert a[0] == b[0] && LittleEndian(a[1..]) == LittleEndian(b[1..]);
      LittleEndianInjective(a[1..], b[1..]);
      assert a == [a[0]] + a[1..] && b == [b[0]] + b[1..];
    }
  }
  /** Byte `i` of a number, the lowest being byte 0. */
  function ByteOfNumber(v: nat, i: nat): Byte {
    if i == 0 then v % 256 else ByteOfNumber(v / 256, i - 1)
  }

  lemma {:induction false} BytesOfLittleEndian(bytes: seq<Byte>, i: nat)
    requires i < |bytes|
    ensures ByteOfNumber(LittleEndian(bytes), i) == bytes[i]
  {
    if i > 0 {
      BytesOfLittleEndian(bytes[1..], i - 1);
    }
  }

  /** Every byte of up to eight counts at its own place, and nothing past the eighth. */
  lemma WordHoldsItsBytes(bytes: seq<Byte>, i: nat)
    requires i < |bytes|
    ensures ByteOfNumber(Word(bytes), i) == if i < 8 then bytes[i] else 0
    ensures |bytes| >= 8 ==> Word(bytes) == Word(bytes[..8])
  {
    assert |bytes| == 8 ==> bytes[..8] == bytes;
    if |bytes| <= 8 {
      BytesOfLittleEndian(bytes, i);
    } else if i < 8 {
      BytesOfLittleEndian(bytes[..8], i);
    } else {
      LittleEndianBound(bytes[..8]);
      NoByteBeyond(Word(bytes), 8, i);
    }
  }

  lemma {:induction false} NoByteBeyond(v: nat, n: nat, i: nat)
    requires v < Pow256(n) && n <= i
    ensures ByteOfNumber(v, i) == 0
    decreases i
  {
    if i > 0 {
      if n > 0 {
        NoByteBeyond(v / 256, n - 1, i - 1);
      } else {
        NoByteBeyond(v / 256, 0, i - 1);
      }
    }
  }

  /** A pointer of any width up to eight bytes is read back whole. */
  lemma WordReadsBack(v: nat, n: nat)
    requires n <= 8 && v < Pow256(n)
    ensures Word(Encode(v, n)) == v
  {
    EncodeReadsBack(v, n);
  }

  /** Words of up to eight bytes are equal exactly when their bytes are. */
  lemma WordInjective(a: seq<Byte>, b: seq<Byte>)
    requires |a| == |b| <= 8
    ensures Word(a) == Word(b) <==> a == b
  {
    if Word(a) == Word(b) {
      LittleEndianInjective(a, b);
    }
  }

  // ----- Alignment -----------------------------------------------------

  /** `usize::next_multiple_of`. */
  function NextMultiple(a: nat, m: nat): (r: nat)
    requires m > 0
    ensures a <= r < a + m
  {
    if a % m == 0 then a else a + (m - a % m)
  }

  /** `m` divides the rounded address, and no other multiple was skipped. */
  lemma NextMultipleIsNext(a: nat, m: nat)
    requires m > 0
    ensures NextMultiple(a, m) % m == 0
    ensures forall x: nat {:trigger x % m} :: a <= x && x % m == 0 ==> NextMultiple(a, m) <= x
  {
    var r := NextMultiple(a, m);
    if a % m != 0 {
      assert r == m * (a / m + 1);
      MultipleMod(a / m + 1, m);
    }
    forall x: nat | a <= x && x % m == 0 ensures r <= x {
      if x < r {
        AlignedGap(x, r, m);
      }
    }
  }

  lemma MultipleMod(q: nat, m: nat)
    requires m > 0
    ensures (m * q) % m == 0
  {
    var x := m * q;
    assert m * (q - x / m) == x % m;
    MulGrows(m, q - x / m);
  }

  lemma MulGrows(m: nat, d: int)
    ensures d >= 1 ==> m * d >= m
    ensures d <= -1 ==> m * d <= -1 * m
  {
  }

  /** Two multiples of `m` less than `m` apart are equal. */
  lemma AlignedGap(x: nat, y: nat, m: nat)
    requires m > 0 && x % m == 0 && y % m == 0
    requires x <= y < x + m
    ensures x == y
  {
    var p, q := x / m, y / m;
    assert x == m * p && y == m * q;
    assert m * (q - p) == y - x;
    MulGrows(m, q - p);
  }

  lemma NextAligned(x: nat, m: nat)
    requires m > 0 && x % m == 0
    ensures (x + m) % m == 0
  {
    assert x + m == m * (x / m + 1);
    MultipleMod(x / m + 1, m);
  }
}
