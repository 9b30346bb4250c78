/** A project's classes and their order (crates/nemclass-model/src/project.rs,
    crates/nemclass-model/src/class.rs). */
module Project {
  import opened Memory
  import opened Formula
  import opened NodeTree
  import opened Layout

  datatype RemoveError = ClassNotFound | ClassReferenced(name: string, count: nat)

  /** The node, or one below it, points at or embeds the class. */
  predicate NodeReferences(n: Node, id: Uuid)
    decreases n
  {
    (n.ClassInstance? && n.classUuid == id) || (n.Pointer? && n.target == Some(id))
    || var children := n.Children();
       exists i :: 0 <= i < |children| && NodeReferences(children[i], id)
  }

  predicate References(nodes: seq<Node>, id: Uuid) {
    exists i :: 0 <= i < |nodes| && NodeReferences(nodes[i], id)
  }

  // ----- Where a class is mentioned ---------------------------------------------

  /** The node an index path leads to, through children of children. */
  function NodeAt(nodes: seq<Node>, path: seq<nat>): Option<Node>
    decreases |path|
  {
    if path == [] || path[0] >= |nodes| then None
    else if |path| == 1 then Some(nodes[path[0]])
    else NodeAt(nodes[path[0]].Children(), path[1..])
  }

  /** The node at the end of the path is a pointer to the class or an instance of it. */
  ghost predicate MentionsAt(nodes: seq<Node>, path: seq<nat>, id: Uuid) {
    match NodeAt(nodes, path)
    case Some(Pointer(_, _, target)) => target == Some(id)
    case Some(ClassInstance(_, _, classUuid)) => classUuid == id
    case _ => false
  }

  ghost predicate Mentioned(nodes: seq<Node>, id: Uuid) {
    exists path :: MentionsAt(nodes, path, id)
  }

  lemma MentionBelow(nodes: seq<Node>, i: nat, path: seq<nat>, id: Uuid)
    requires i < |nodes| && MentionsAt(nodes[i].Children(), path, id)
    ensures MentionsAt(nodes, [i] + path, id)
  {
    assert ([i] + path)[1..] == path;
  }

  lemma {:induction false} ReferenceIsMention(nodes: seq<Node>, i: nat, id: Uuid) returns (path: seq<nat>)
    requires i < |nodes| && NodeReferences(nodes[i], id)
    ensures MentionsAt(nodes, path, id)
    decreases nodes[i]
  {
    var n := nodes[i];
    if j: nat :| j < |n.Children()| && NodeReferences(n.Children()[j], id) {
      var below := ReferenceIsMention(n.Children(), j, id);
      path := [i] + below;
      MentionBelow(nodes, i, below, id);
    } else {
      path := [i];
    }
  }

  lemma {:induction false} MentionIsReference(nodes: seq<Node>, path: seq<nat>, id: Uuid)
    requires MentionsAt(nodes, path, id)
    ensures path != [] && path[0] < |nodes| && NodeReferences(nodes[path[0]], id)
    decreases |path|
  {
    if |path| > 1 {
      var children := nodes[path[0]].Children();
      MentionIsReference(children, path[1..], id);
      assert NodeReferences(children[path[1..][0]], id);
    }
  }

  /** The recursive search finds a mention exactly when there is one, however deep. */
  lemma ReferencesIffMentioned(nodes: seq<Node>, id: Uuid)
    ensures References(nodes, id) <==> Mentioned(nodes, id)
  {
    if i: nat :| i < |nodes| && NodeReferences(nodes[i], id) {
      var path := ReferenceIsMention(nodes, i, id);
    }
    if path :| MentionsAt(nodes, path, id) {
      MentionIsReference(nodes, path, id);
    }
  }

  /** Every class that is mentioned is there. */
  ghost predicate NothingDangles(classes: Classes) {
    forall id, r: Uuid :: id in classes && Mentioned(classes[id].nodes, r) ==> r in classes
  }

  /** The other classes that mention `id`. */
  ghost function Mentioners(classes: Classes, id: Uuid): set<Uuid> {
    set other | other in classes && other != id && Mentioned(classes[other].nodes, id)
  }

  lemma ReferrersAreMentioners(classes: Classes, id: Uuid)
    ensures Referrers(classes, id) == Mentioners(classes, id)
  {
    forall other ensures other in Referrers(classes, id) <==> other in Mentioners(classes, id) {
      if other in classes {
        ReferencesIffMentioned(classes[other].nodes, id);
      }
    }
  }

  function Without(order: seq<Uuid>, id: Uuid): (r: seq<Uuid>)
    ensures forall x :: x in r <==> x in order && x != id
  {
    if order == [] then []
    else if order[0] == id then Without(order[1..], id)
    else [order[0]] + Without(order[1..], id)
  }

  predicate NoRepeats(order: seq<Uuid>) {
    forall i, j :: 0 <= i < j < |order| ==> order[i] != order[j]
  }

  lemma {:induction false} WithoutKeepsOrder(order: seq<Uuid>, id: Uuid)
    requires NoRepeats(order)
    ensures NoRepeats(Without(order, id))
  {
    if order != [] {
      assert forall x :: x in order[1..] ==> x != order[0];
      WithoutKeepsOrder(order[1..], id);
      var rest := Without(order[1..], id);
      forall i | 0 <= i < |rest| ensures rest[i] != order[0] {
        assert rest[i] in rest;
        assert rest[i] in order[1..];
      }
    }
  }

  /** The other classes keep their places. */
  lemma {:induction false} WithoutConcat(a: seq<Uuid>, b: seq<Uuid>, id: Uuid)
    ensures Without(a + b, id) == Without(a, id) + Without(b, id)
    ensures forall x: Uuid :: Without([x], id) == if x == id then [] else [x]
  {
    if a == [] {
      assert a + b == b;
    } else {
      assert (a + b)[1..] == a[1..] + b;
      WithoutConcat(a[1..], b, id);
    }
  }

  class ProjectModel {
    var classes: Classes
    var order: seq<Uuid>

    /** Each class sits under its own id and appears in the order exactly once. */
    ghost predicate Valid()
      reads this
    {
      && (forall id :: id in classes ==> classes[id].uuid == id)
      && NoRepeats(order)
      && (forall id :: id in order <==> id in classes)
    }

    constructor ()
      ensures Valid() && classes == map[] && order == []
    {
      classes, order := map[], [];
    }

    /** A new class goes last; a known one is replaced where it is. */
    method AddClass(c: ClassDef)
      requires Valid()
      modifies this
      ensures Valid() && classes == old(classes)[c.uuid := c]
      ensures order == if c.uuid in old(classes) then old(order) else old(order) + [c.uuid]
    {
      if c.uuid !in classes {
        order := order + [c.uuid];
      }
      classes := classes[c.uuid := c];
    }

    /** The classes in the order they were first added. */
    method ClassesInOrder() returns (r: seq<ClassDef>)
      requires Valid()
      ensures |r| == |order| == |classes|
      ensures forall i :: 0 <= i < |r| ==> order[i] in classes && r[i] == classes[order[i]]
    {
      r := [];
      for i := 0 to |order|
        invariant |r| == i && forall j :: 0 <= j < i ==> order[j] in classes && r[j] == classes[order[j]]
      {
        assert order[i] in order;
        if order[i] in classes {
          r := r + [classes[order[i]]];
        }
      }
      OrderCounts(order, classes.Keys);
      assert |classes| == |classes.Keys|;
    }

    /** Removal succeeds exactly when the class exists and no other class mentions
        it; it then leaves nothing dangling that was not before. */
    method RemoveClass(id: Uuid) returns (r: Result<ClassDef, RemoveError>)
      requires Valid()
      modifies this
      ensures Valid()
      ensures r.Ok? <==> id in old(classes) && forall other :: other in old(classes) && other != id ==>
                                                 !Mentioned(old(classes)[other].nodes, id)
      ensures r.Ok? ==> r.value == old(classes)[id] && classes == old(classes) - {id} && order == Without(old(order), id)
      ensures r.Ok? && NothingDangles(old(classes)) ==> NothingDangles(classes)
      ensures r.Err? ==> classes == old(classes) && order == old(order)
      ensures id !in old(classes) ==> r == Err(ClassNotFound)
      ensures r.Err? && id in classes ==>
                r.error == ClassReferenced(classes[id].name, |Mentioners(classes, id)|)
    {
      if id !in classes {
        return Err(ClassNotFound);
      }
      var others := Referrers(classes, id);
      ReferrersAreMentioners(classes, id);
      if |others| > 0 {
        assert exists other :: other in others;
        return Err(ClassReferenced(classes[id].name, |others|));
      }
      assert forall other :: other in classes && other != id && Mentioned(classes[other].nodes, id) ==> other in others;
      r := Ok(classes[id]);
      WithoutKeepsOrder(order, id);
      order := Without(order, id);
      classes := classes - {id};
    }
  }

  /** What the removal counts. */
  function Referrers(classes: Classes, id: Uuid): set<Uuid> {
    set other | other in classes && other != id && References(classes[other].nodes, id)
  }

  lemma {:induction false} OrderCounts(order: seq<Uuid>, ids: set<Uuid>)
    requires NoRepeats(order) && forall id :: id in order <==> id in ids
    ensures |order| == |ids|
  {
    if order != [] {
      assert order[0] in order;
      assert forall x :: x in order[1..] <==> x in order && x != order[0];
      OrderCounts(order[1..], ids - {order[0]});
    }
  }
}
