/** Scan value types, compare kinds and typed needles
    (crates/nemclass-scan/src/value_type.rs, crates/nemclass-scan/src/compare.rs).

    A needle's comparison is a function of the candidate's bytes and, on a next
    scan, of the bytes captured before. The integer types are spelled out;
    float, pattern and string needles enter as any such function. */
module ValueType {
  import opened Memory

  /** Why a scan of either kind is refused or fails. */
  datatype ScanError =
    | NeedsFirstScan | CompareNeedsPrevious | CompareIsFirstScanOnly | MissingNeedle | NeedleTypeMismatch
    | NoStride | TargetUnreadable | TargetError | ScanCancelled

  datatype ScanCompareType =
    | Exact | NotEqual | GreaterThan | LessThan | Between | Unknown
    | Increased | IncreasedBy | Decreased | DecreasedBy | Changed | Unchanged
  {
    predicate NeedsPrevious() {
      Increased? || IncreasedBy? || Decreased? || DecreasedBy? || Changed? || Unchanged?
    }

    predicate IsBaseline() {
      Unknown?
    }

    predicate NeedsNeedle() {
      !(Unknown? || Increased? || Decreased? || Changed? || Unchanged?)
    }
  }

  datatype ScanValueType =
    | I8 | I16 | I32 | I64 | U8 | U16 | U32 | U64 | F32 | F64 | Bytes | StringUtf8 | StringUtf16
  {
    function FixedWidth(): (w: Option<nat>)
      ensures w.Some? ==> w.value > 0
    {
      match this
      case I8 | U8 => Some(1)
      case I16 | U16 => Some(2)
      case I32 | U32 | F32 => Some(4)
      case I64 | U64 | F64 => Some(8)
      case Bytes | StringUtf8 | StringUtf16 => None
    }

    predicate IsSigned() {
      I8? || I16? || I32? || I64?
    }

    predicate IsInteger() {
      IsSigned() || U8? || U16? || U32? || U64?
    }
  }

  /** A parsed needle. `test(compare, current, previous)` sees exactly `stride`
      current bytes; `previous` is `None` on a first scan. A numeric needle is
      as wide as its type. */
  datatype Needle = Needle(ty: ScanValueType, stride: nat,
                           test: (ScanCompareType, seq<Byte>, Option<seq<Byte>>) -> bool)

  predicate WellTyped(needle: Option<Needle>) {
    needle.Some? && needle.value.ty.FixedWidth().Some? ==>
      needle.value.stride == needle.value.ty.FixedWidth().value
  }

  // ----- Integers ------------------------------------------------------------

  /** The two's-complement little-endian integer in the first `width` bytes. */
  function IntOf(bytes: seq<Byte>, width: nat, signed: bool): Option<int> {
    if |bytes| < width then None
    else
      var v := LittleEndian(bytes[..width]);
      Some(if signed && 2 * v >= Pow256(width) then v - Pow256(width) else v)
  }

  /** The source's loop and sign extension; setting the bits above the value is
      subtracting `256^width` from it in two's complement. */
  method ReadInt(data: seq<Byte>, offset: nat, width: nat, signed: bool) returns (r: Option<int>)
    ensures r == if offset + width <= |data| then IntOf(data[offset..], width, signed) else None
  {
    if offset + width > |data| {
      return None;
    }
    var bytes := data[offset..offset + width];
    var acc: int, shift: int, i := 0, 1, 0;
    while i < width
      invariant 0 <= i <= width
      invariant shift == Pow256(i)
      invariant acc == LittleEndian(bytes[..i])
    {
      LittleEndianAppend(bytes[..i], bytes[i]);
      assert bytes[..i + 1] == bytes[..i] + [bytes[i]];
      acc := acc + shift * bytes[i];
      shift := 256 * shift;
      i := i + 1;
    }
    assert bytes[..i] == data[offset..][..width];
    if signed && 2 * acc >= shift {
      acc := acc - shift;
    }
    r := Some(acc);
  }

  /** Reading is the inverse of two's-complement encoding over the whole range
      of the type, and signed readings stay in that range. */
  lemma IntRoundTrip(v: int, width: nat, signed: bool)
    requires width > 0
    requires if signed then -1 * Pow256(width) <= 2 * v < Pow256(width) else 0 <= v < Pow256(width)
    ensures IntOf(Encode(if v < 0 then v + Pow256(width) else v, width), width, signed) == Some(v)
  {
    var u := if v < 0 then v + Pow256(width) else v;
    var e := Encode(u, width);
    assert u < Pow256(width);
    EncodeReadsBack(u, width);
    assert e[..width] == e && LittleEndian(e) == u;
  }

  // ----- The types' ranges ------------------------------------------------------------

  /** The least and the greatest value of an integer type. */
  function Range(ty: ScanValueType): (r: (int, int))
    requires ty.IsInteger()
  {
    match ty
    case I8 => (-0x80, 0x7F)
    case I16 => (-0x8000, 0x7FFF)
    case I32 => (-0x8000_0000, 0x7FFF_FFFF)
    case I64 => (-0x8000_0000_0000_0000, 0x7FFF_FFFF_FFFF_FFFF)
    case U8 => (0, 0xFF)
    case U16 => (0, 0xFFFF)
    case U32 => (0, 0xFFFF_FFFF)
    case _ => (0, 0xFFFF_FFFF_FFFF_FFFF)
  }

  predicate InRange(ty: ScanValueType, v: int)
    requires ty.IsInteger()
  {
    Range(ty).0 <= v <= Range(ty).1
  }

  /** Width and signedness of a type are those its range needs. */
  lemma RangeIsWhole(ty: ScanValueType)
    requires ty.IsInteger()
    ensures Range(ty).1 - Range(ty).0 + 1 == Pow256(ty.FixedWidth().value)
    ensures Range(ty).0 == if ty.IsSigned() then -1 * (Range(ty).1 + 1) else 0
  {
    assert Pow256(1) == 0x100 && Pow256(2) == 0x1_0000 && Pow256(3) == 0x100_0000;
    assert Pow256(4) == 0x1_0000_0000 && Pow256(5) == 0x100_0000_0000;
    assert Pow256(6) == 0x1_0000_0000_0000 && Pow256(7) == 0x100_0000_0000_0000;
    assert Pow256(8) == 0x1_0000_0000_0000_0000;
  }

  /** A value of the type as memory holds it. */
  function Stored(ty: ScanValueType, v: int): (s: seq<Byte>)
    requires ty.IsInteger() && InRange(ty, v)
  {
    RangeIsWhole(ty);
    Encode(if v < 0 then v + Pow256(ty.FixedWidth().value) else v, ty.FixedWidth().value)
  }

  /** Reading bytes as a type gives a value in its range, every value of the range is
      read back from the bytes it is stored as, and no other bytes give it. */
  lemma ReadingIsStored(ty: ScanValueType, bytes: seq<Byte>, v: int)
    requires ty.IsInteger() && |bytes| == ty.FixedWidth().value
    ensures var r := IntOf(bytes, ty.FixedWidth().value, ty.IsSigned());
            && r.Some? && InRange(ty, r.value)
            && (InRange(ty, v) ==> (r.value == v <==> bytes == Stored(ty, v)))
  {
    var w := ty.FixedWidth().value;
    RangeIsWhole(ty);
    LittleEndianBound(bytes[..w]);
    if InRange(ty, v) {
      IntRoundTrip(v, w, ty.IsSigned());
      IntOfInjective(bytes, Stored(ty, v), w, ty.IsSigned());
      assert bytes[..w] == bytes && Stored(ty, v)[..w] == Stored(ty, v);
    }
  }

  function CompareInt(compare: ScanCompareType, cur: int, needle: int, upper: Option<int>, prev: Option<int>): bool {
    match compare
    case Exact => cur == needle
    case NotEqual => cur != needle
    case GreaterThan => cur > needle
    case LessThan => cur < needle
    case Between => cur > needle && (upper.Some? ==> cur < upper.value)
    case Unknown => true
    case Increased => prev.Some? && cur > prev.value
    case Decreased => prev.Some? && cur < prev.value
    case Changed => prev.Some? && cur != prev.value
    case Unchanged => prev.Some? && cur == prev.value
    case IncreasedBy => prev.Some? && cur == prev.value + needle
    case DecreasedBy => prev.Some? && cur == prev.value - needle
  }

  /** `Needle::compare` on an integer needle. */
  function TestInt(ty: ScanValueType, value: int, upper: Option<int>, compare: ScanCompareType,
                   current: seq<Byte>, previous: Option<seq<Byte>>): bool
    requires ty.IsInteger()
  {
    var width := ty.FixedWidth().value;
    match IntOf(current, width, ty.IsSigned())
    case None => false
    case Some(cur) =>
      var prev := match previous case None => None case Some(p) => IntOf(p, width, ty.IsSigned());
      CompareInt(compare, cur, value, upper, prev)
  }

  function IntNeedle(ty: ScanValueType, value: int, upper: Option<int>): (n: Needle)
    requires ty.IsInteger()
    ensures WellTyped(Some(n)) && n.ty == ty
  {
    Needle(ty, ty.FixedWidth().value, (c, cur, prev) => TestInt(ty, value, upper, c, cur, prev))
  }

  /** `compare_change` for integers: a needle-less compare against the previous bytes. */
  function ChangeInt(ty: ScanValueType, compare: ScanCompareType, cur: seq<Byte>, prev: seq<Byte>): bool
    requires ty.IsInteger()
  {
    TestInt(ty, 0, None, compare, cur, Some(prev))
    && IntOf(prev, ty.FixedWidth().value, ty.IsSigned()).Some?
  }

  /** First-scan compares of a stored value: the needle itself, what is above it and what
      is below it; `Between` ends below its upper bound, if it has one. */
  lemma FirstCompareMeans(ty: ScanValueType, v: int, value: int, upper: Option<int>)
    requires ty.IsInteger() && InRange(ty, v)
    ensures var holds := (c: ScanCompareType) => TestInt(ty, value, upper, c, Stored(ty, v), None);
            && (holds(Exact) <==> v == value) && (holds(NotEqual) <==> !holds(Exact))
            && (holds(GreaterThan) <==> v > value) && (holds(LessThan) <==> v < value)
            && (holds(Between) <==> holds(GreaterThan) && (upper.Some? ==> v < upper.value))
            && holds(Unknown)
  {
    ReadingIsStored(ty, Stored(ty, v), v);
  }

  /** Next-scan compares of a stored value with the one stored before; without one they
      never match. */
  lemma NextCompareMeans(ty: ScanValueType, v: int, before: int, value: int, upper: Option<int>)
    requires ty.IsInteger() && InRange(ty, v) && InRange(ty, before)
    ensures var holds := (c: ScanCompareType) => TestInt(ty, value, upper, c, Stored(ty, v), Some(Stored(ty, before)));
            && (holds(Increased) <==> v > before) && (holds(Decreased) <==> v < before)
            && (holds(Changed) <==> holds(Increased) || holds(Decreased)) && (holds(Unchanged) <==> !holds(Changed))
            && (holds(IncreasedBy) <==> v - before == value) && (holds(DecreasedBy) <==> before - v == value)
    ensures forall c: ScanCompareType :: c.NeedsPrevious() ==> !TestInt(ty, value, upper, c, Stored(ty, v), None)
  {
    ReadingIsStored(ty, Stored(ty, v), v);
    ReadingIsStored(ty, Stored(ty, before), before);
  }

  /** Change compares order values as the type does: at every reading exactly one
      of increased, decreased and unchanged holds, and changed is not unchanged. */
  lemma ChangesAreOrdered(ty: ScanValueType, cur: seq<Byte>, prev: seq<Byte>)
    requires ty.IsInteger()
    requires |cur| >= ty.FixedWidth().value && |prev| >= ty.FixedWidth().value
    ensures var up := ChangeInt(ty, Increased, cur, prev);
            var down := ChangeInt(ty, Decreased, cur, prev);
            var same := ChangeInt(ty, Unchanged, cur, prev);
            && (up || down || same) && !(up && down) && !(up && same) && !(down && same)
            && up == ChangeInt(ty, Decreased, prev, cur)
            && ChangeInt(ty, Changed, cur, prev) == !same
            && (same <==> cur[..ty.FixedWidth().value] == prev[..ty.FixedWidth().value])
  {
    var w := ty.FixedWidth().value;
    IntOfInjective(cur, prev, w, ty.IsSigned());
    ChangeMeans(ty, cur, prev);
    ChangeMeans(ty, prev, cur);
  }

  lemma ChangeMeans(ty: ScanValueType, cur: seq<Byte>, prev: seq<Byte>)
    requires ty.IsInteger()
    requires |cur| >= ty.FixedWidth().value && |prev| >= ty.FixedWidth().value
    ensures var c := IntOf(cur, ty.FixedWidth().value, ty.IsSigned()).value;
            var p := IntOf(prev, ty.FixedWidth().value, ty.IsSigned()).value;
            && ChangeInt(ty, Increased, cur, prev) == (c > p) && ChangeInt(ty, Decreased, cur, prev) == (c < p)
            && ChangeInt(ty, Unchanged, cur, prev) == (c == p) && ChangeInt(ty, Changed, cur, prev) == (c != p)
  {
  }

  /** A reading determines its bytes. */
  lemma IntOfInjective(a: seq<Byte>, b: seq<Byte>, width: nat, signed: bool)
    requires |a| >= width && |b| >= width
    ensures IntOf(a, width, signed) == IntOf(b, width, signed) <==> a[..width] == b[..width]
  {
    LittleEndianBound(a[..width]);
    LittleEndianBound(b[..width]);
    if LittleEndian(a[..width]) == LittleEndian(b[..width]) {
      LittleEndianInjective(a[..width], b[..width]);
    }
  }
}
