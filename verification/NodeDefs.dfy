/** Rebuilding nodes from arbitrary definitions
    (crates/nemclass-model/src/node/registry.rs): exactly when it fails, what a
    missing attribute stands for, and what the depth limit counts. */
module NodeDefs {
  import opened Memory
  import opened Formula
  import opened NodeTree

  // ----- Failure ------------------------------------------------------------------

  /** The definition an index path leads to, where the rebuilding descends: below
      vtables and classes only. */
  function DefAt(d: NodeDef, path: seq<nat>): Option<NodeDef>
    decreases |path|
  {
    if path == [] then Some(d)
    else if (d.tag.VTableTag? || d.tag.ClassTag?) && path[0] < |d.nodes| then DefAt(d.nodes[path[0]], path[1..])
    else None
  }

  /** What is wrong with a definition itself: a tag nobody registered, or a class with
      an identity that cannot be read. */
  ghost predicate Faulty(u: Uuids, d: NodeDef, e: ModelError) {
    match d.tag
    case Unregistered(_) => e == UnknownNodeType(d.tag)
    case ClassTag =>
      && UuidAttr in d.attrs && d.attrs[UuidAttr].Text? && d.attrs[UuidAttr].text != ""
      && u.parse(d.attrs[UuidAttr].text).None? && e == BadClassUuid(d.attrs[UuidAttr].text)
    case _ => false
  }

  ghost predicate FaultyAt(u: Uuids, d: NodeDef, path: seq<nat>, e: ModelError) {
    DefAt(d, path).Some? && Faulty(u, DefAt(d, path).value, e)
  }

  function Rebuilt(u: Uuids, d: NodeDef): (rs: seq<Result<Node, ModelError>>)
    ensures |rs| == |d.nodes|
  {
    seq(|d.nodes|, i requires 0 <= i < |d.nodes| => Deserialized(u, d.nodes[i]))
  }

  /** Collecting fails with the first failure. */
  lemma {:induction false} CollectFails(rs: seq<Result<Node, ModelError>>)
    ensures Collect(rs).Err? <==> exists i :: 0 <= i < |rs| && rs[i].Err?
    ensures Collect(rs).Err? ==> exists i :: 0 <= i < |rs| && rs[i] == Err(Collect(rs).error)
  {
    if rs != [] {
      CollectFails(rs[1..]);
      assert forall i :: 1 <= i < |rs| ==> rs[i] == rs[1..][i - 1];
      if Collect(rs).Err? && rs[0].Ok? {
        var i :| 0 <= i < |rs[1..]| && rs[1..][i] == Err(Collect(rs[1..]).error);
        assert rs[i + 1] == Err(Collect(rs).error);
      }
    }
  }

  /** A failure comes from a faulty definition that the rebuilding reaches. */
  lemma {:induction false} FailureHasFault(u: Uuids, d: NodeDef) returns (path: seq<nat>)
    requires Deserialized(u, d).Err?
    ensures FaultyAt(u, d, path, Deserialized(u, d).error)
    decreases d
  {
    if (d.tag.VTableTag? || d.tag.ClassTag?) && !(d.tag.ClassTag? && ClassIdentity(u, d).Err?) {
      var rs := Rebuilt(u, d);
      assert rs == seq(|d.nodes|, i requires 0 <= i < |d.nodes| => Deserialized(u, d.nodes[i]));
      CollectFails(rs);
      var i :| 0 <= i < |rs| && rs[i] == Err(Collect(rs).error);
      var below := FailureHasFault(u, d.nodes[i]);
      path := [i] + below;
      assert path[1..] == below;
    } else {
      path := [];
    }
  }

  /** Every faulty definition it reaches makes it fail. */
  lemma {:induction false} FaultFails(u: Uuids, d: NodeDef, path: seq<nat>, e: ModelError)
    requires FaultyAt(u, d, path, e)
    ensures Deserialized(u, d).Err?
    decreases |path|
  {
    if path != [] {
      FaultFails(u, d.nodes[path[0]], path[1..], e);
      var rs := Rebuilt(u, d);
      assert rs == seq(|d.nodes|, i requires 0 <= i < |d.nodes| => Deserialized(u, d.nodes[i]));
      assert rs[path[0]].Err?;
      CollectFails(rs);
    }
  }

  /** Rebuilding fails exactly when it reaches a definition with an unregistered tag or a
      class with an unreadable identity, and then with such a definition's error. */
  lemma RebuildFailsIff(u: Uuids, d: NodeDef)
    ensures Deserialized(u, d).Err? <==> exists path, e :: FaultyAt(u, d, path, e)
    ensures Deserialized(u, d).Err? ==> exists path :: FaultyAt(u, d, path, Deserialized(u, d).error)
  {
    if Deserialized(u, d).Err? {
      var path := FailureHasFault(u, d);
    }
    if path, e :| FaultyAt(u, d, path, e) {
      FaultFails(u, d, path, e);
    }
  }

  // ----- Missing attributes -----------------------------------------------------------

  /** No attribute of this name, or one of another type. */
  ghost predicate NoText(d: NodeDef, name: AttrName) {
    name in d.attrs ==> !d.attrs[name].Text?
  }

  ghost predicate NoInteger(d: NodeDef, name: AttrName) {
    name in d.attrs ==> !d.attrs[name].Integer?
  }

  /** No identity under this name, or one that cannot be read. */
  ghost predicate NoUuid(u: Uuids, d: NodeDef, name: AttrName) {
    NoText(d, name) || u.parse(d.attrs[name].text).None?
  }

  /** What each attribute stands for when it is missing, or is of no use. */
  lemma MissingAttributes(u: Uuids, d: NodeDef)
    requires u.parse("").None? && Deserialized(u, d).Ok?
    ensures var n := Deserialized(u, d).value;
            && n.name == d.name && n.comment == d.comment
            && (d.tag.PointerTag? && NoUuid(u, d, TargetClassUuid) ==> n.Pointer? && n.target == None)
            && (d.tag.ClassInstanceTag? && NoUuid(u, d, ClassUuid) ==> n.ClassInstance? && n.classUuid == 0)
            && (d.tag.ArrayTag? && NoInteger(d, Count) ==> n.Array? && n.count == 0)
            && (d.tag.ArrayTag? && NoInteger(d, ElementSize) ==> n.Array? && n.elementSize == 1)
            && (d.tag.Utf8Tag? && NoInteger(d, Length) ==> n.Utf8Text? && n.length == 64)
            && (d.tag.Utf16Tag? && NoInteger(d, Length) ==> n.Utf16Text? && n.length == 64)
            && (d.tag.FunctionTag? && NoText(d, SignatureAttr) ==> n.Function? && n.signature == "void Func()")
            && (d.tag.ClassTag? && NoText(d, UuidAttr) ==> n.Class? && n.uuid == u.mint(d))
            && (d.tag.ClassTag? && NoText(d, AddressFormula) ==> n.Class? && n.addressFormula == "")
  {
  }

  // ----- Depth --------------------------------------------------------------------------

  /** An index path through the definitions, whatever their tags. */
  predicate HasPath(d: NodeDef, path: seq<nat>)
    decreases |path|
  {
    path == [] || (path[0] < |d.nodes| && HasPath(d.nodes[path[0]], path[1..]))
  }

  function Heights(d: NodeDef): (hs: seq<nat>)
    ensures |hs| == |d.nodes| && Height(d) == 1 + MaxOf(hs)
    ensures forall i :: 0 <= i < |hs| ==> hs[i] == Height(d.nodes[i])
  {
    seq(|d.nodes|, i requires 0 <= i < |d.nodes| => Height(d.nodes[i]))
  }

  lemma TallestChild(d: NodeDef) returns (i: nat)
    requires Height(d) > 1
    ensures i < |d.nodes| && Height(d.nodes[i]) == Height(d) - 1
  {
    var hs := Heights(d);
    i :| i < |hs| && hs[i] == MaxOf(hs);
  }

  /** The height counts the definitions along the longest path. */
  lemma {:induction false} HeightIsLongestPath(d: NodeDef) returns (path: seq<nat>)
    ensures HasPath(d, path) && |path| == Height(d) - 1
    decreases Height(d)
  {
    if Height(d) == 1 {
      path := [];
    } else {
      var i := TallestChild(d);
      var below := HeightIsLongestPath(d.nodes[i]);
      path := [i] + below;
      assert path[1..] == below;
    }
  }

  lemma {:induction false} PathIsBelowHeight(d: NodeDef, path: seq<nat>)
    requires HasPath(d, path)
    ensures |path| < Height(d)
    decreases |path|
  {
    if path != [] {
      var hs := Heights(d);
      PathIsBelowHeight(d.nodes[path[0]], path[1..]);
      assert hs[path[0]] <= MaxOf(hs);
    }
  }

  /** A tree is refused for its depth exactly when it nests more than 128 deep. */
  lemma TooDeepIff(d: NodeDef)
    ensures Height(d) > MAX_NODE_DEPTH <==> exists path :: HasPath(d, path) && |path| >= 128
  {
    if Height(d) > MAX_NODE_DEPTH {
      var path := HeightIsLongestPath(d);
    }
    if path :| HasPath(d, path) && |path| >= 128 {
      PathIsBelowHeight(d, path);
    }
  }
}
