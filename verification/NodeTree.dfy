/** Node trees and their serialized form
    (crates/nemclass-model/src/node/registry.rs and the `to_node_def` of every
    built-in node). The text form of a UUID and the minting of new ones are
    parameters; TOML itself is not modelled. */
module NodeTree {
  import opened Memory
  import opened Formula

  type Uuid = nat

  datatype FloatWidth = F32 | F64

  /** Leaf types with no attributes; the tag alone says which. */
  datatype LeafKind =
    | Int8 | Int16 | Int32 | Int64 | UInt8 | UInt16 | UInt32 | UInt64 | Float | Double | Bool
    | Hex8 | Hex16 | Hex32 | Hex64 | StrPtr | VMethod | FunctionPtr
    | Vector2(width: FloatWidth) | Vector3(width: FloatWidth) | Vector4(width: FloatWidth)
    | Matrix3x3(width: FloatWidth) | Matrix3x4(width: FloatWidth) | Matrix4x4(width: FloatWidth)

  datatype Node =
    | Leaf(kind: LeafKind, name: string, comment: string)
    | Pointer(name: string, comment: string, target: Option<Uuid>)
    | ClassInstance(name: string, comment: string, classUuid: Uuid)
    | Array(name: string, comment: string, count: Usize, elementSize: Usize)
    | Utf8Text(name: string, comment: string, length: Usize)
    | Utf16Text(name: string, comment: string, length: Usize)
    | Function(name: string, comment: string, signature: string)
    | VTable(name: string, comment: string, nodes: seq<Node>)
    | Class(name: string, comment: string, uuid: Uuid, addressFormula: string, nodes: seq<Node>)
  {
    function Children(): seq<Node> {
      if VTable? || Class? then nodes else []
    }
  }

  /** The registered type tags, and any other text. */
  datatype Tag =
    | LeafTag(kind: LeafKind) | PointerTag | ClassInstanceTag | ArrayTag | Utf8Tag | Utf16Tag
    | FunctionTag | VTableTag | ClassTag | Unregistered(text: string)

  datatype AttrName =
    | TargetClassUuid | ClassUuid | Count | ElementSize | Length | SignatureAttr | UuidAttr | AddressFormula
    | OtherAttr(text: string)

  type I64 = i: int | -(I64_MAX as int) - 1 <= i <= I64_MAX

  /** An attribute value; `i64` integers, and whatever else TOML allows. */
  datatype Value = Text(text: string) | Integer(i: I64) | OtherValue

  datatype NodeDef = NodeDef(tag: Tag, name: string, comment: string, attrs: map<AttrName, Value>, nodes: seq<NodeDef>)

  datatype ModelError = MaxDepthExceeded | UnknownNodeType(tag: Tag) | BadClassUuid(text: string)

  /** Printing, parsing and minting of UUIDs. */
  datatype Uuids = Uuids(show: Uuid -> string, parse: string -> Option<Uuid>, mint: NodeDef -> Uuid) {
    ghost predicate Sound() {
      forall u: Uuid :: parse(show(u)) == Some(u) && show(u) != ""
    }
  }

  const MAX_NODE_DEPTH: nat := 128

  /** `usize as i64` and back. */
  function ToI64(n: Usize): I64 {
    if n <= I64_MAX then n else n - USIZE_MAX - 1
  }

  function ToUsize(i: I64): Usize {
    if i >= 0 then i else i + USIZE_MAX + 1
  }

  // ----- Serialization -----------------------------------------------------------

  function TagOf(n: Node): Tag {
    match n
    case Leaf(kind, _, _) => LeafTag(kind)
    case Pointer(_, _, _) => PointerTag
    case ClassInstance(_, _, _) => ClassInstanceTag
    case Array(_, _, _, _) => ArrayTag
    case Utf8Text(_, _, _) => Utf8Tag
    case Utf16Text(_, _, _) => Utf16Tag
    case Function(_, _, _) => FunctionTag
    case VTable(_, _, _) => VTableTag
    case Class(_, _, _, _, _) => ClassTag
  }

  function AttrsOf(u: Uuids, n: Node): map<AttrName, Value> {
    match n
    case Pointer(_, _, Some(target)) => map[TargetClassUuid := Text(u.show(target))]
    case ClassInstance(_, _, id) => map[ClassUuid := Text(u.show(id))]
    case Array(_, _, count, size) => map[Count := Integer(ToI64(count)), ElementSize := Integer(ToI64(size))]
    case Utf8Text(_, _, length) => map[Length := Integer(ToI64(length))]
    case Utf16Text(_, _, length) => map[Length := Integer(ToI64(length))]
    case Function(_, _, signature) => map[SignatureAttr := Text(signature)]
    case Class(_, _, id, formula, _) => map[UuidAttr := Text(u.show(id)), AddressFormula := Text(formula)]
    case _ => map[]
  }

  /** `to_node_def`: the node's own fields, no children. */
  function ToNodeDef(u: Uuids, n: Node): NodeDef {
    NodeDef(TagOf(n), n.name, n.comment, AttrsOf(u, n), [])
  }

  function Serialized(u: Uuids, n: Node): NodeDef
    decreases n
  {
    var children := n.Children();
    ToNodeDef(u, n).(nodes := seq(|children|, i requires 0 <= i < |children| => Serialized(u, children[i])))
  }

  method SerializeNodeRecursive(u: Uuids, n: Node) returns (def: NodeDef)
    ensures def == Serialized(u, n)
    decreases n
  {
    def := ToNodeDef(u, n);
    var children := n.Children();
    for i := 0 to |children|
      invariant def == ToNodeDef(u, n).(nodes := def.nodes)
      invariant |def.nodes| == i && forall j :: 0 <= j < i ==> def.nodes[j] == Serialized(u, children[j])
    {
      var child := SerializeNodeRecursive(u, children[i]);
      def := def.(nodes := def.nodes + [child]);
    }
    assert def.nodes == Serialized(u, n).nodes;
  }

  // ----- Depth --------------------------------------------------------------------

  function MaxOf(s: seq<nat>): (m: nat)
    ensures forall i :: 0 <= i < |s| ==> s[i] <= m
    ensures m == 0 || m in s
  {
    if s == [] then 0 else var rest := MaxOf(s[1..]); if s[0] >= rest then s[0] else rest
  }

  function SumOf(s: seq<nat>): nat {
    if s == [] then 0 else s[0] + SumOf(s[1..])
  }

  function Height(d: NodeDef): (h: nat)
    ensures h >= 1
    decreases d
  {
    1 + MaxOf(seq(|d.nodes|, i requires 0 <= i < |d.nodes| => Height(d.nodes[i])))
  }

  function NodeHeight(n: Node): (h: nat)
    ensures h >= 1
    decreases n
  {
    var children := n.Children();
    1 + MaxOf(seq(|children|, i requires 0 <= i < |children| => NodeHeight(children[i])))
  }

  /** Nodes of a definition, for termination. */
  ghost function Size(d: NodeDef): nat
    decreases d
  {
    1 + SumOf(seq(|d.nodes|, i requires 0 <= i < |d.nodes| => Size(d.nodes[i])))
  }

  lemma HeightWithin(d: NodeDef, bound: nat)
    ensures Height(d) <= bound <==> 1 <= bound && forall i :: 0 <= i < |d.nodes| ==> Height(d.nodes[i]) <= bound - 1
  {
    var hs := seq(|d.nodes|, i requires 0 <= i < |d.nodes| => Height(d.nodes[i]));
    assert forall i :: 0 <= i < |d.nodes| ==> hs[i] == Height(d.nodes[i]) <= MaxOf(hs);
    if MaxOf(hs) > 0 {
      var i :| 0 <= i < |hs| && hs[i] == MaxOf(hs);
      assert Height(d.nodes[i]) == MaxOf(hs);
    }
  }

  /** A node waiting on the explicit stack, with its depth. */
  datatype Entry = Entry(def: NodeDef, depth: nat)

  ghost predicate Shallow(e: Entry) {
    e.depth + Height(e.def) <= MAX_NODE_DEPTH + 1
  }

  ghost predicate AllShallow(stack: seq<Entry>) {
    forall i :: 0 <= i < |stack| ==> Shallow(stack[i])
  }

  ghost function StackSize(stack: seq<Entry>): nat {
    if stack == [] then 0 else StackSize(stack[..|stack| - 1]) + Size(stack[|stack| - 1].def)
  }

  lemma {:induction false} SumPush(s: seq<nat>, x: nat)
    ensures SumOf(s + [x]) == SumOf(s) + x
  {
    if s == [] {
      assert s + [x] == [x];
    } else {
      assert (s + [x])[1..] == s[1..] + [x];
      SumPush(s[1..], x);
    }
  }

  /** `check_node_depth`: the explicit-stack walk agrees with the height. */
  method CheckNodeDepth(d: NodeDef) returns (ok: bool)
    ensures ok <==> Height(d) <= MAX_NODE_DEPTH
  {
    var stack := [Entry(d, 1)];
    while stack != []
      invariant AllShallow(stack) <==> Height(d) <= MAX_NODE_DEPTH
      decreases StackSize(stack)
    {
      var e := stack[|stack| - 1];
      ghost var before := stack;
      stack := stack[..|stack| - 1];
      assert before == stack + [e];
      ShallowPush(stack, e);
      if e.depth > MAX_NODE_DEPTH {
        return false;
      }
      stack := PushChildren(stack, e);
    }
    return true;
  }

  lemma ShallowPush(stack: seq<Entry>, e: Entry)
    ensures AllShallow(stack + [e]) <==> AllShallow(stack) && Shallow(e)
    ensures StackSize(stack + [e]) == StackSize(stack) + Size(e.def)
  {
    assert (stack + [e])[..|stack|] == stack && (stack + [e])[|stack|] == e;
    assert forall j :: 0 <= j < |stack| ==> (stack + [e])[j] == stack[j];
  }

  ghost predicate AllBelow(nodes: seq<NodeDef>, depth: nat) {
    forall j :: 0 <= j < |nodes| ==> Shallow(Entry(nodes[j], depth))
  }

  ghost function TotalSize(nodes: seq<NodeDef>): nat {
    SumOf(seq(|nodes|, i requires 0 <= i < |nodes| => Size(nodes[i])))
  }

  lemma BelowPush(nodes: seq<NodeDef>, i: nat, depth: nat)
    requires i < |nodes|
    ensures AllBelow(nodes[..i + 1], depth) <==> AllBelow(nodes[..i], depth) && Shallow(Entry(nodes[i], depth))
    ensures TotalSize(nodes[..i + 1]) == TotalSize(nodes[..i]) + Size(nodes[i])
  {
    assert nodes[..i + 1] == nodes[..i] + [nodes[i]];
    assert nodes[..i + 1][i] == nodes[i];
    var sizes := seq(i, j requires 0 <= j < i => Size(nodes[j]));
    SumPush(sizes, Size(nodes[i]));
    assert sizes == seq(|nodes[..i]|, j requires 0 <= j < |nodes[..i]| => Size(nodes[..i][j]));
    assert sizes + [Size(nodes[i])] == seq(|nodes[..i + 1]|, j requires 0 <= j < |nodes[..i + 1]| => Size(nodes[..i + 1][j]));
  }

  lemma ShallowIff(e: Entry)
    requires e.depth <= MAX_NODE_DEPTH
    ensures Shallow(e) <==> AllBelow(e.def.nodes, e.depth + 1)
    ensures Size(e.def) == 1 + TotalSize(e.def.nodes)
  {
    var nodes := e.def.nodes;
    HeightWithin(e.def, MAX_NODE_DEPTH + 1 - e.depth);
    assert seq(|nodes|, i requires 0 <= i < |nodes| => Size(nodes[i]))
        == seq(|e.def.nodes|, i requires 0 <= i < |e.def.nodes| => Size(e.def.nodes[i]));
  }

  /** Pushes the children one level deeper; the stack holds one node less. */
  method PushChildren(rest: seq<Entry>, e: Entry) returns (stack: seq<Entry>)
    requires e.depth <= MAX_NODE_DEPTH
    ensures AllShallow(stack) <==> AllShallow(rest) && Shallow(e)
    ensures StackSize(stack) == StackSize(rest) + Size(e.def) - 1
  {
    stack := rest;
    var nodes := e.def.nodes;
    for i := 0 to |nodes|
      invariant AllShallow(stack) <==> AllShallow(rest) && AllBelow(nodes[..i], e.depth + 1)
      invariant StackSize(stack) == StackSize(rest) + TotalSize(nodes[..i])
    {
      ShallowPush(stack, Entry(nodes[i], e.depth + 1));
      BelowPush(nodes, i, e.depth + 1);
      stack := stack + [Entry(nodes[i], e.depth + 1)];
    }
    assert nodes[..|nodes|] == nodes;
    ShallowIff(e);
  }

  // ----- Deserialization -------------------------------------------------------------

  function TextAttr(d: NodeDef, name: AttrName): Option<string> {
    if name in d.attrs && d.attrs[name].Text? then Some(d.attrs[name].text) else None
  }

  function SizeAttr(d: NodeDef, name: AttrName, missing: Usize): Usize {
    if name in d.attrs && d.attrs[name].Integer? then ToUsize(d.attrs[name].i) else missing
  }

  /** All values, or the first error. */
  function Collect(rs: seq<Result<Node, ModelError>>): Result<seq<Node>, ModelError> {
    if rs == [] then Ok([])
    else if rs[0].Err? then Err(rs[0].error)
    else
      var rest := Collect(rs[1..]);
      if rest.Err? then rest else Ok([rs[0].value] + rest.value)
  }

  /** The identity of a deserialized class: its own, or a new one if none is given. */
  function ClassIdentity(u: Uuids, d: NodeDef): Result<Uuid, ModelError> {
    var text := match TextAttr(d, UuidAttr) case Some(s) => s case None => "";
    if text == "" then Ok(u.mint(d))
    else match u.parse(text) case Some(id) => Ok(id) case None => Err(BadClassUuid(text))
  }

  /** `deserialize_node_inner` with the built-in registry. */
  function Deserialized(u: Uuids, d: NodeDef): Result<Node, ModelError>
    decreases d
  {
    match d.tag
    case LeafTag(kind) => Ok(Leaf(kind, d.name, d.comment))
    case PointerTag =>
      Ok(Pointer(d.name, d.comment, match TextAttr(d, TargetClassUuid) case Some(s) => u.parse(s) case None => None))
    case ClassInstanceTag =>
      var text := match TextAttr(d, ClassUuid) case Some(s) => s case None => "";
      Ok(ClassInstance(d.name, d.comment, match u.parse(text) case Some(id) => id case None => 0))
    case ArrayTag => Ok(Array(d.name, d.comment, SizeAttr(d, Count, 0), SizeAttr(d, ElementSize, 1)))
    case Utf8Tag => Ok(Utf8Text(d.name, d.comment, SizeAttr(d, Length, 64)))
    case Utf16Tag => Ok(Utf16Text(d.name, d.comment, SizeAttr(d, Length, 64)))
    case FunctionTag =>
      Ok(Function(d.name, d.comment, match TextAttr(d, SignatureAttr) case Some(s) => s case None => "void Func()"))
    case VTableTag =>
      var r := Collect(seq(|d.nodes|, i requires 0 <= i < |d.nodes| => Deserialized(u, d.nodes[i])));
      if r.Err? then Err(r.error) else Ok(VTable(d.name, d.comment, r.value))
    case ClassTag =>
      var id := ClassIdentity(u, d);
      if id.Err? then Err(id.error)
      else
        var formula := match TextAttr(d, AddressFormula) case Some(s) => s case None => "";
        var r := Collect(seq(|d.nodes|, i requires 0 <= i < |d.nodes| => Deserialized(u, d.nodes[i])));
        if r.Err? then Err(r.error) else Ok(Class(d.name, d.comment, id.value, formula, r.value))
    case Unregistered(_) => Err(UnknownNodeType(d.tag))
  }

  /** `deserialize_node`: one depth check, then the recursion. */
  method DeserializeNode(u: Uuids, d: NodeDef) returns (r: Result<Node, ModelError>)
    ensures r == if Height(d) > MAX_NODE_DEPTH then Err(MaxDepthExceeded) else Deserialized(u, d)
  {
    var ok := CheckNodeDepth(d);
    if !ok {
      return Err(MaxDepthExceeded);
    }
    r := Deserialized(u, d);
  }

  // ----- Round trip ---------------------------------------------------------------------

  lemma {:induction false} SerializedHeight(u: Uuids, n: Node)
    ensures Height(Serialized(u, n)) == NodeHeight(n)
    decreases n
  {
    var children, d := n.Children(), Serialized(u, n);
    var hs := seq(|d.nodes|, i requires 0 <= i < |d.nodes| => Height(d.nodes[i]));
    var ns := seq(|children|, i requires 0 <= i < |children| => NodeHeight(children[i]));
    forall i | 0 <= i < |children| ensures hs[i] == ns[i] {
      SerializedHeight(u, children[i]);
    }
    assert hs == ns;
  }

  lemma {:induction false} CollectOks(rs: seq<Result<Node, ModelError>>, nodes: seq<Node>)
    requires |rs| == |nodes| && forall i :: 0 <= i < |rs| ==> rs[i] == Ok(nodes[i])
    ensures Collect(rs) == Ok(nodes)
  {
    if rs != [] {
      CollectOks(rs[1..], nodes[1..]);
      assert nodes == [nodes[0]] + nodes[1..];
    }
  }

  lemma ChildrenComeBack(u: Uuids, n: Node)
    requires forall i :: 0 <= i < |n.Children()| ==> Deserialized(u, Serialized(u, n.Children()[i])) == Ok(n.Children()[i])
    ensures var d := Serialized(u, n);
            Collect(seq(|d.nodes|, i requires 0 <= i < |d.nodes| => Deserialized(u, d.nodes[i]))) == Ok(n.Children())
  {
    var d := Serialized(u, n);
    CollectOks(seq(|d.nodes|, i requires 0 <= i < |d.nodes| => Deserialized(u, d.nodes[i])), n.Children());
  }

  /** Rebuilding from the serialized form gives the same tree. */
  lemma {:induction false} ComesBack(u: Uuids, n: Node)
    requires u.Sound()
    ensures Deserialized(u, Serialized(u, n)) == Ok(n)
    decreases n
  {
    forall i | 0 <= i < |n.Children()| ensures Deserialized(u, Serialized(u, n.Children()[i])) == Ok(n.Children()[i]) {
      ComesBack(u, n.Children()[i]);
    }
    ChildrenComeBack(u, n);
  }

  /** The whole trip: serialize, check the depth, deserialize. A tree of height at
      most 128 comes back unchanged and every taller one is rejected. */
  method RoundTrip(u: Uuids, n: Node) returns (r: Result<Node, ModelError>)
    requires u.Sound()
    ensures r == if NodeHeight(n) <= MAX_NODE_DEPTH then Ok(n) else Err(MaxDepthExceeded)
  {
    var def := SerializeNodeRecursive(u, n);
    r := DeserializeNode(u, def);
    SerializedHeight(u, n);
    ComesBack(u, n);
  }
}
