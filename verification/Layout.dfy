/** Byte layout of classes that may embed each other
    (crates/nemclass-model/src/codegen/mod.rs, crates/nemclass-model/src/project.rs).
    Sizes saturate at `usize::MAX`; an embedded class already being expanded
    contributes nothing. */
module Layout {
  import opened Memory
  import opened NodeTree

  datatype ClassDef = ClassDef(uuid: Uuid, name: string, nodes: seq<Node>)

  type Classes = map<Uuid, ClassDef>

  function SatAdd(a: Usize, b: Usize): Usize {
    if a + b <= USIZE_MAX then a + b else USIZE_MAX
  }

  function SatMul(a: Usize, b: Usize): Usize {
    if a * b <= USIZE_MAX then a * b else USIZE_MAX
  }

  // ----- A node's own size ------------------------------------------------------

  function WidthOf(w: FloatWidth): Usize {
    if w.F32? then 4 else 8
  }

  function LeafSize(k: LeafKind): Usize {
    match k
    case Int8 => 1 case Int16 => 2 case Int32 => 4 case Int64 => 8
    case UInt8 => 1 case UInt16 => 2 case UInt32 => 4 case UInt64 => 8
    case Float => 4 case Double => 8 case Bool => 1
    case Hex8 => 1 case Hex16 => 2 case Hex32 => 4 case Hex64 => 8
    case StrPtr => 8 case VMethod => 8 case FunctionPtr => 8
    case Vector2(w) => 2 * WidthOf(w)
    case Vector3(w) => 3 * WidthOf(w)
    case Vector4(w) => 4 * WidthOf(w)
    case Matrix3x3(w) => 9 * WidthOf(w)
    case Matrix3x4(w) => 12 * WidthOf(w)
    case Matrix4x4(w) => 16 * WidthOf(w)
  }

  /** How many numbers a leaf is made of. */
  function Elements(k: LeafKind): nat {
    match k
    case Vector2(_) => 2
    case Vector3(_) => 3
    case Vector4(_) => 4
    case Matrix3x3(_) => 3 * 3
    case Matrix3x4(_) => 3 * 4
    case Matrix4x4(_) => 4 * 4
    case _ => 1
  }

  /** How many bits each of them has: the name says it, or the width of its floats;
      addresses have 64. */
  function BitsEach(k: LeafKind): nat {
    if k in {Int8, UInt8, Hex8, Bool} then 8
    else if k in {Int16, UInt16, Hex16} then 16
    else if k in {Int32, UInt32, Hex32, Float} then 32
    else if Elements(k) == 1 || k.width.F64? then 64
    else 32
  }

  /** A leaf has eight bits to the byte. */
  lemma LeafSizes(k: LeafKind)
    ensures 8 * LeafSize(k) == Elements(k) * BitsEach(k)
  {
  }

  function SatSum(sizes: seq<Usize>): Usize {
    if sizes == [] then 0 else SatAdd(SatSum(sizes[..|sizes| - 1]), sizes[|sizes| - 1])
  }

  /** `memory_size`: an embedded class is a placeholder of size 0 here. */
  function MemorySize(n: Node): Usize
    decreases n
  {
    match n
    case Leaf(kind, _, _) => LeafSize(kind)
    case Pointer(_, _, _) => 8
    case ClassInstance(_, _, _) => 0
    case Array(_, _, count, size) => SatMul(count, size)
    case Utf8Text(_, _, length) => length
    case Utf16Text(_, _, length) => length
    case Function(_, _, _) => 8
    case VTable(_, _, _) => 8
    case Class(_, _, _, _, nodes) => SatSum(seq(|nodes|, i requires 0 <= i < |nodes| => MemorySize(nodes[i])))
  }

  /** What the other nodes take: an address of eight bytes, their declared bytes, the
      elements of an array together up to the largest machine word, or the children of
      a class together; an embedded class is measured elsewhere. */
  lemma NodeSizes(n: Node)
    ensures n.Pointer? || n.Function? || n.VTable? ==> MemorySize(n) == 8
    ensures n.Utf8Text? || n.Utf16Text? ==> MemorySize(n) == n.length
    ensures n.Array? ==> MemorySize(n) == Min(n.count * n.elementSize, USIZE_MAX)
    ensures n.ClassInstance? ==> MemorySize(n) == 0
    ensures n.Class? ==> MemorySize(n) == Min(TrueSum(ChildSizes(n.nodes)), USIZE_MAX)
  {
    if n.Class? {
      SumIsClipped(ChildSizes(n.nodes));
      assert ChildSizes(n.nodes) == seq(|n.nodes|, i requires 0 <= i < |n.nodes| => MemorySize(n.nodes[i]));
    }
  }

  function ChildSizes(nodes: seq<Node>): (sizes: seq<Usize>)
    ensures |sizes| == |nodes| && forall i :: 0 <= i < |sizes| ==> sizes[i] == MemorySize(nodes[i])
  {
    seq(|nodes|, i requires 0 <= i < |nodes| => MemorySize(nodes[i]))
  }

  // ----- Sizes with embedded classes expanded --------------------------------------

  /** Size of one node while the classes in `visited` are being expanded. */
  function NodeSize(p: Classes, n: Node, visited: set<Uuid>): Usize
    decreases |p.Keys - visited|, 0
  {
    if !n.ClassInstance? then MemorySize(n)
    else if n.classUuid in visited || n.classUuid !in p then 0
    else
      assert p.Keys - (visited + {n.classUuid}) < p.Keys - visited;
      Shrinks(p.Keys - (visited + {n.classUuid}), p.Keys - visited);
      ClassSize(p, p[n.classUuid].nodes, visited + {n.classUuid})
  }

  lemma Shrinks(a: set<Uuid>, b: set<Uuid>)
    requires a < b
    ensures |a| < |b|
  {
    var x :| x in b && x !in a;
    assert |b - a| > 0 && b == a + (b - a);
  }

  /** Saturating total over a class's nodes. */
  function ClassSize(p: Classes, nodes: seq<Node>, visited: set<Uuid>): Usize
    decreases |p.Keys - visited|, 1 + |nodes|
  {
    if nodes == [] then 0
    else SatAdd(ClassSize(p, nodes[..|nodes| - 1], visited), NodeSize(p, nodes[|nodes| - 1], visited))
  }

  /** The sum of the nodes' sizes, whatever it comes to. */
  ghost function Total(p: Classes, nodes: seq<Node>, visited: set<Uuid>): nat {
    if nodes == [] then 0
    else Total(p, nodes[..|nodes| - 1], visited) + NodeSize(p, nodes[|nodes| - 1], visited)
  }

  /** A class is as large as its nodes together, up to the largest machine word. */
  lemma {:induction false} SizeIsTotal(p: Classes, nodes: seq<Node>, visited: set<Uuid>)
    ensures ClassSize(p, nodes, visited) == Min(Total(p, nodes, visited), USIZE_MAX)
    decreases |nodes|
  {
    if nodes != [] {
      SizeIsTotal(p, nodes[..|nodes| - 1], visited);
    }
  }

  /** The same for a class node's own children, none of them expanded. */
  lemma {:induction false} SumIsClipped(sizes: seq<Usize>)
    ensures SatSum(sizes) == Min(TrueSum(sizes), USIZE_MAX)
  {
    if sizes != [] {
      SumIsClipped(sizes[..|sizes| - 1]);
    }
  }

  ghost function TrueSum(sizes: seq<Usize>): nat {
    if sizes == [] then 0 else TrueSum(sizes[..|sizes| - 1]) + sizes[|sizes| - 1]
  }

  /** `resolved_node_size`, with the visited set handed back. */
  method ResolvedNodeSize(p: Classes, n: Node, visited: set<Uuid>) returns (size: Usize, after: set<Uuid>)
    ensures size == NodeSize(p, n, visited) && after == visited
    decreases |p.Keys - visited|, 0
  {
    after := visited;
    if n.ClassInstance? {
      var id := n.classUuid;
      if id in visited || id !in p {
        return 0, after;
      }
      Shrinks(p.Keys - (visited + {id}), p.Keys - visited);
      after := after + {id};
      size, after := ResolvedClassSize(p, p[id].nodes, after);
      after := after - {id};
      return size, after;
    }
    size := MemorySize(n);
  }

  /** `resolved_class_size`: terminates on every class graph and leaves the
      visited set as it found it. */
  method ResolvedClassSize(p: Classes, nodes: seq<Node>, visited: set<Uuid>) returns (size: Usize, after: set<Uuid>)
    ensures size == ClassSize(p, nodes, visited) && after == visited
    decreases |p.Keys - visited|, 1
  {
    size, after := 0, visited;
    for i := 0 to |nodes|
      invariant after == visited && size == ClassSize(p, nodes[..i], visited)
    {
      assert nodes[..i + 1][..i] == nodes[..i];
      var one: Usize;
      one, after := ResolvedNodeSize(p, nodes[i], after);
      size := SatAdd(size, one);
    }
    assert nodes[..|nodes|] == nodes;
  }

  // ----- Fields ------------------------------------------------------------------------

  /** What the generators emit for a field, as far as its width goes. */
  datatype FieldKind = Bytes(width: Usize) | Embedded(id: Uuid)

  datatype Field = Field(offset: Usize, kind: FieldKind)

  /** The width the emitted field is written with: fixed by its tag and attributes,
      or for anything else by the size the walk resolved. */
  function KindOf(p: Classes, n: Node, contributed: Usize): FieldKind {
    match n
    case Leaf(kind, _, _) =>
      if kind.VMethod? || kind.FunctionPtr? then Bytes(contributed) else Bytes(LeafSize(kind))
    case Pointer(_, _, _) => Bytes(8)
    case ClassInstance(_, _, id) => if id in p then Embedded(id) else Bytes(0)
    case Array(_, _, count, size) => Bytes(SatMul(count, size))
    case Utf8Text(_, _, length) => Bytes(length)
    case Utf16Text(_, _, length) => Bytes(length)
    case _ => Bytes(contributed)
  }

  /** A field is written with exactly the width its node was given; an embedded
      class gets its own size, with itself marked as being expanded. */
  predicate KindFits(p: Classes, n: Node, kind: FieldKind) {
    match kind
    case Bytes(width) => width == NodeSize(p, n, {})
    case Embedded(id) =>
      n.ClassInstance? && n.classUuid == id && id in p && NodeSize(p, n, {}) == ClassSize(p, p[id].nodes, {id})
  }

  lemma KindOfFits(p: Classes, n: Node)
    ensures KindFits(p, n, KindOf(p, n, NodeSize(p, n, {})))
  {
    if n.ClassInstance? {
      assert {} + {n.classUuid} == {n.classUuid};
    }
  }

  /** A field for one node of a class: where it starts and how wide it is. */
  ghost predicate FieldFits(p: Classes, nodes: seq<Node>, i: nat, field: Field)
    requires i < |nodes|
  {
    field.offset == ClassSize(p, nodes[..i], {}) && KindFits(p, nodes[i], field.kind)
  }

  /** `resolve_fields`: each field starts where the ones before it end, the last
      one ends at the class size, and every field is as wide as its node. */
  method ResolveFields(p: Classes, nodes: seq<Node>) returns (fields: seq<Field>, end: Usize)
    ensures |fields| == |nodes| && end == ClassSize(p, nodes, {})
    ensures forall i :: 0 <= i < |fields| ==> FieldFits(p, nodes, i, fields[i])
  {
    fields := [];
    end := 0;
    var visited: set<Uuid> := {};
    for i := 0 to |nodes|
      invariant visited == {} && |fields| == i && end == ClassSize(p, nodes[..i], {})
      invariant forall j :: 0 <= j < i ==> FieldFits(p, nodes, j, fields[j])
    {
      var field: Field;
      field, end, visited := ResolveField(p, nodes, i, end, visited);
      fields := fields + [field];
    }
    assert nodes[..|nodes|] == nodes;
  }

  /** One turn of the walk. */
  method ResolveField(p: Classes, nodes: seq<Node>, i: nat, offset: Usize, visited: set<Uuid>)
    returns (field: Field, end: Usize, after: set<Uuid>)
    requires i < |nodes| && visited == {} && offset == ClassSize(p, nodes[..i], {})
    ensures FieldFits(p, nodes, i, field) && end == ClassSize(p, nodes[..i + 1], {}) && after == visited
  {
    assert nodes[..i + 1][..i] == nodes[..i];
    var contributed: Usize;
    contributed, after := ResolvedNodeSize(p, nodes[i], visited);
    KindOfFits(p, nodes[i]);
    field := Field(offset, KindOf(p, nodes[i], contributed));
    end := SatAdd(offset, contributed);
  }

  // ----- Project-level size and generator size --------------------------------------------

  /** `Project::resolved_class_size`: the class itself counts as being expanded. */
  function ProjectSize(p: Classes, id: Uuid): Usize {
    if id in p then ClassSize(p, p[id].nodes, {id}) else 0
  }

  /** What the generators emit as a class's total. */
  function GeneratorSize(p: Classes, id: Uuid): Usize
    requires id in p
  {
    ClassSize(p, p[id].nodes, {})
  }

  /** Marking more classes as visited never makes anything larger. */
  lemma {:induction false} MoreVisited(p: Classes, nodes: seq<Node>, small: set<Uuid>, large: set<Uuid>)
    requires small <= large
    ensures ClassSize(p, nodes, large) <= ClassSize(p, nodes, small)
    decreases |p.Keys - small|, |nodes|
  {
    if nodes != [] {
      var n := nodes[|nodes| - 1];
      MoreVisited(p, nodes[..|nodes| - 1], small, large);
      if n.ClassInstance? && n.classUuid in p && n.classUuid !in large {
        Shrinks(p.Keys - (small + {n.classUuid}), p.Keys - small);
        MoreVisited(p, p[n.classUuid].nodes, small + {n.classUuid}, large + {n.classUuid});
      }
    }
  }

  /** For a class embedded in itself the generator may count it again, never less. */
  lemma GeneratorIsLarger(p: Classes, id: Uuid)
    requires id in p
    ensures ProjectSize(p, id) <= GeneratorSize(p, id)
  {
    MoreVisited(p, p[id].nodes, {}, {id});
  }
}
