/** When the project and the generators measure a class alike: the two sizes of
    module `Layout` compared, for every class graph. */
module SelfEmbedding {
  import opened Memory
  import opened NodeTree
  import opened Layout

  // ----- Embedding paths ---------------------------------------------------------------

  predicate Embeds(nodes: seq<Node>, id: Uuid) {
    exists i :: 0 <= i < |nodes| && nodes[i].ClassInstance? && nodes[i].classUuid == id
  }

  /** `path` leads by embeddings from the nodes to its last class. */
  predicate EmbedPath(p: Classes, nodes: seq<Node>, path: seq<Uuid>)
    decreases |path|
  {
    path != [] && Embeds(nodes, path[0]) && path[0] in p
    && (|path| == 1 || EmbedPath(p, p[path[0]].nodes, path[1..]))
  }

  /** The class is embedded, however far down, in the nodes. */
  ghost predicate Within(p: Classes, nodes: seq<Node>, id: Uuid) {
    exists path :: EmbedPath(p, nodes, path) && path[|path| - 1] == id
  }

  predicate RepeatFree(path: seq<Uuid>) {
    forall i, j :: 0 <= i < j < |path| ==> path[i] != path[j]
  }

  /** The nodes hold bytes themselves, embedded classes aside. */
  predicate HoldsBytes(nodes: seq<Node>) {
    exists i :: 0 <= i < |nodes| && !nodes[i].ClassInstance? && MemorySize(nodes[i]) > 0
  }

  predicate EndsInBytes(p: Classes, path: seq<Uuid>) {
    path != [] && path[|path| - 1] in p && HoldsBytes(p[path[|path| - 1]].nodes)
  }

  /** From the class's own nodes, embeddings lead through the class itself and on to
      bytes, no class twice. */
  ghost predicate CountsTwice(p: Classes, id: Uuid)
    requires id in p
  {
    exists path :: EmbedPath(p, p[id].nodes, path) && RepeatFree(path) && id in path && EndsInBytes(p, path)
  }

  // ----- Paths the size walk can take ----------------------------------------------------

  /** The walk, with `visited` being expanded, gets down this path. */
  predicate OpenPath(p: Classes, nodes: seq<Node>, path: seq<Uuid>, visited: set<Uuid>)
    decreases |path|
  {
    path != [] && Embeds(nodes, path[0]) && path[0] in p && path[0] !in visited
    && (|path| == 1 || OpenPath(p, p[path[0]].nodes, path[1..], visited + {path[0]}))
  }

  lemma {:induction false} OpenIsRepeatFree(p: Classes, nodes: seq<Node>, path: seq<Uuid>, visited: set<Uuid>)
    ensures OpenPath(p, nodes, path, visited) <==>
            EmbedPath(p, nodes, path) && RepeatFree(path) && forall c :: c in path ==> c !in visited
    decreases |path|
  {
    if path != [] && path[0] in p {
      var c, rest := path[0], path[1..];
      assert path == [c] + rest;
      OpenIsRepeatFree(p, p[c].nodes, rest, visited + {c});
      assert RepeatFree(path) <==> RepeatFree(rest) && c !in rest by {
        RepeatFreeCons(c, rest);
      }
    }
  }

  lemma RepeatFreeCons(c: Uuid, rest: seq<Uuid>)
    ensures RepeatFree([c] + rest) <==> RepeatFree(rest) && c !in rest
  {
    var path := [c] + rest;
    if RepeatFree(path) {
      forall i, j | 0 <= i < j < |rest| ensures rest[i] != rest[j] {
        assert path[i + 1] == rest[i] && path[j + 1] == rest[j];
      }
      forall j | 0 <= j < |rest| ensures rest[j] != c {
        assert path[0] == c && path[j + 1] == rest[j];
      }
    }
  }

  lemma EmbedsLast(nodes: seq<Node>, c: Uuid)
    requires nodes != []
    ensures var n := nodes[|nodes| - 1];
            Embeds(nodes, c) <==> Embeds(nodes[..|nodes| - 1], c) || (n.ClassInstance? && n.classUuid == c)
  {
    var front := nodes[..|nodes| - 1];
    if Embeds(nodes, c) {
      var i :| 0 <= i < |nodes| && nodes[i].ClassInstance? && nodes[i].classUuid == c;
      assert i < |front| ==> front[i] == nodes[i];
    }
    if Embeds(front, c) {
      var i :| 0 <= i < |front| && front[i].ClassInstance? && front[i].classUuid == c;
      assert nodes[i] == front[i];
    }
  }

  lemma HoldsBytesLast(nodes: seq<Node>)
    requires nodes != []
    ensures var n := nodes[|nodes| - 1];
            HoldsBytes(nodes) <==> HoldsBytes(nodes[..|nodes| - 1]) || (!n.ClassInstance? && MemorySize(n) > 0)
  {
    var front := nodes[..|nodes| - 1];
    if HoldsBytes(nodes) {
      var i :| 0 <= i < |nodes| && !nodes[i].ClassInstance? && MemorySize(nodes[i]) > 0;
      assert i < |front| ==> front[i] == nodes[i];
    }
    if HoldsBytes(front) {
      var i :| 0 <= i < |front| && !front[i].ClassInstance? && MemorySize(front[i]) > 0;
      assert nodes[i] == front[i];
    }
  }

  /** Down a path from the last node, one class further. */
  lemma OpenThrough(p: Classes, nodes: seq<Node>, c: Uuid, rest: seq<Uuid>, visited: set<Uuid>)
    ensures OpenPath(p, nodes, [c] + rest, visited) <==>
            Embeds(nodes, c) && c in p && c !in visited
            && (rest == [] || OpenPath(p, p[c].nodes, rest, visited + {c}))
    ensures rest != [] ==> (EndsInBytes(p, [c] + rest) <==> EndsInBytes(p, rest))
  {
    assert ([c] + rest)[1..] == rest;
  }

  /** The walk finds bytes below: in the nodes, or at the end of an open path. */
  ghost predicate BytesBelow(p: Classes, nodes: seq<Node>, visited: set<Uuid>) {
    HoldsBytes(nodes) || exists path :: OpenPath(p, nodes, path, visited) && EndsInBytes(p, path)
  }

  /** The same, below a node that embeds class `c`. */
  lemma BytesThrough(p: Classes, nodes: seq<Node>, visited: set<Uuid>, c: Uuid)
    requires Embeds(nodes, c) && c in p && c !in visited
    ensures BytesBelow(p, p[c].nodes, visited + {c}) <==>
            exists path :: OpenPath(p, nodes, path, visited) && EndsInBytes(p, path) && path[0] == c
  {
    if BytesBelow(p, p[c].nodes, visited + {c}) {
      if HoldsBytes(p[c].nodes) {
        OpenThrough(p, nodes, c, [], visited);
        assert [c] + [] == [c] && EndsInBytes(p, [c]);
      } else {
        var rest :| OpenPath(p, p[c].nodes, rest, visited + {c}) && EndsInBytes(p, rest);
        OpenThrough(p, nodes, c, rest, visited);
        assert ([c] + rest)[0] == c;
      }
    }
    if path :| OpenPath(p, nodes, path, visited) && EndsInBytes(p, path) && path[0] == c {
      assert path == [c] + path[1..];
      OpenThrough(p, nodes, c, path[1..], visited);
    }
  }

  lemma BytesLast(p: Classes, nodes: seq<Node>, visited: set<Uuid>)
    requires nodes != []
    ensures var front, n := nodes[..|nodes| - 1], nodes[|nodes| - 1];
            BytesBelow(p, nodes, visited) <==>
            || BytesBelow(p, front, visited)
            || (!n.ClassInstance? && MemorySize(n) > 0)
            || (n.ClassInstance? && n.classUuid in p && n.classUuid !in visited
                && BytesBelow(p, p[n.classUuid].nodes, visited + {n.classUuid}))
  {
    var front, n := nodes[..|nodes| - 1], nodes[|nodes| - 1];
    HoldsBytesLast(nodes);
    forall path | path != []
      ensures OpenPath(p, nodes, path, visited) <==>
              OpenPath(p, front, path, visited)
              || (n.ClassInstance? && n.classUuid == path[0] && OpenPath(p, nodes, path, visited))
    {
      EmbedsLast(nodes, path[0]);
    }
    if n.ClassInstance? && n.classUuid in p && n.classUuid !in visited {
      EmbedsLast(nodes, n.classUuid);
      BytesThrough(p, nodes, visited, n.classUuid);
    }
  }

  /** A size is positive exactly when the walk finds bytes. */
  lemma {:induction false} PositiveIff(p: Classes, nodes: seq<Node>, visited: set<Uuid>)
    ensures ClassSize(p, nodes, visited) > 0 <==> BytesBelow(p, nodes, visited)
    decreases |p.Keys - visited|, |nodes|
  {
    if nodes != [] {
      var n := nodes[|nodes| - 1];
      PositiveIff(p, nodes[..|nodes| - 1], visited);
      BytesLast(p, nodes, visited);
      if n.ClassInstance? && n.classUuid in p && n.classUuid !in visited {
        Shrinks(p.Keys - (visited + {n.classUuid}), p.Keys - visited);
        PositiveIff(p, p[n.classUuid].nodes, visited + {n.classUuid});
      }
    }
  }

  // ----- What the mark on a class takes away ------------------------------------------------

  /** Some occurrence of `id` below, not being expanded yet, expands to bytes. */
  predicate Adds(p: Classes, nodes: seq<Node>, visited: set<Uuid>, id: Uuid)
    decreases |p.Keys - visited|, |nodes|
  {
    nodes != [] &&
    var n := nodes[|nodes| - 1];
    || Adds(p, nodes[..|nodes| - 1], visited, id)
    || (n.ClassInstance? && n.classUuid in p && n.classUuid !in visited &&
        (Shrinks(p.Keys - (visited + {n.classUuid}), p.Keys - visited);
         if n.classUuid == id then ClassSize(p, p[id].nodes, visited + {id}) > 0
         else Adds(p, p[n.classUuid].nodes, visited + {n.classUuid}, id)))
  }

  lemma SatAddAgrees(a: Usize, b: Usize, a': Usize, b': Usize, moreA: bool, moreB: bool)
    requires a' <= a && (a' == a <==> !moreA || a' == USIZE_MAX)
    requires b' <= b && (b' == b <==> !moreB || b' == USIZE_MAX)
    ensures SatAdd(a', b') <= SatAdd(a, b)
    ensures SatAdd(a', b') == SatAdd(a, b) <==> !(moreA || moreB) || SatAdd(a', b') == USIZE_MAX
  {
  }

  /** Marking a class as being expanded changes a size exactly when some occurrence
      of it adds bytes and the size is not saturated without them. */
  lemma {:induction false} MarkIff(p: Classes, nodes: seq<Node>, visited: set<Uuid>, id: Uuid)
    requires id !in visited
    ensures ClassSize(p, nodes, visited + {id}) <= ClassSize(p, nodes, visited)
    ensures ClassSize(p, nodes, visited + {id}) == ClassSize(p, nodes, visited) <==>
            !Adds(p, nodes, visited, id) || ClassSize(p, nodes, visited + {id}) == USIZE_MAX
    decreases |p.Keys - visited|, |nodes|
  {
    if nodes != [] {
      var front, n, marked := nodes[..|nodes| - 1], nodes[|nodes| - 1], visited + {id};
      MarkIff(p, front, visited, id);
      var more := false;
      if n.ClassInstance? && n.classUuid in p && n.classUuid !in visited {
        var c := n.classUuid;
        Shrinks(p.Keys - (visited + {c}), p.Keys - visited);
        more := if c == id then ClassSize(p, p[id].nodes, visited + {id}) > 0 else Adds(p, p[c].nodes, visited + {c}, id);
        if c != id {
          MarkIff(p, p[c].nodes, visited + {c}, id);
          assert marked + {c} == visited + {c} + {id};
        }
      }
      SatAddAgrees(ClassSize(p, front, visited), NodeSize(p, n, visited), ClassSize(p, front, marked),
                   NodeSize(p, n, marked), Adds(p, front, visited, id), more);
    }
  }

  /** An open path through the class, on to bytes. */
  ghost predicate Detour(p: Classes, nodes: seq<Node>, visited: set<Uuid>, id: Uuid, path: seq<Uuid>) {
    OpenPath(p, nodes, path, visited) && EndsInBytes(p, path) && id in path
  }

  /** Detours that start by the class `c`. */
  lemma DetourThrough(p: Classes, nodes: seq<Node>, visited: set<Uuid>, id: Uuid, c: Uuid)
    requires Embeds(nodes, c) && c in p && c !in visited
    ensures (exists path :: Detour(p, nodes, visited, id, path) && path[0] == c) <==>
            if c == id then BytesBelow(p, p[c].nodes, visited + {c})
            else exists rest :: Detour(p, p[c].nodes, visited + {c}, id, rest)
  {
    if c == id {
      BytesThrough(p, nodes, visited, c);
      forall path | OpenPath(p, nodes, path, visited) && EndsInBytes(p, path) && path[0] == c
        ensures Detour(p, nodes, visited, id, path)
      {
      }
    } else {
      if rest :| Detour(p, p[c].nodes, visited + {c}, id, rest) {
        OpenThrough(p, nodes, c, rest, visited);
        assert Detour(p, nodes, visited, id, [c] + rest) && ([c] + rest)[0] == c;
      }
      if path :| Detour(p, nodes, visited, id, path) && path[0] == c {
        assert path == [c] + path[1..];
        OpenThrough(p, nodes, c, path[1..], visited);
        assert Detour(p, p[c].nodes, visited + {c}, id, path[1..]);
      }
    }
  }

  lemma DetourLast(p: Classes, nodes: seq<Node>, visited: set<Uuid>, id: Uuid, path: seq<Uuid>)
    requires nodes != [] && path != []
    ensures var n := nodes[|nodes| - 1];
            Detour(p, nodes, visited, id, path) <==>
            || Detour(p, nodes[..|nodes| - 1], visited, id, path)
            || (n.ClassInstance? && n.classUuid == path[0] && Detour(p, nodes, visited, id, path))
  {
    EmbedsLast(nodes, path[0]);
  }

  /** Adding bytes is having a detour. */
  lemma {:induction false} AddsIff(p: Classes, nodes: seq<Node>, visited: set<Uuid>, id: Uuid)
    ensures Adds(p, nodes, visited, id) <==> exists path :: Detour(p, nodes, visited, id, path)
    decreases |p.Keys - visited|, |nodes|
  {
    if nodes == [] {
      assert forall path :: !Detour(p, nodes, visited, id, path);
    } else {
      var front, n := nodes[..|nodes| - 1], nodes[|nodes| - 1];
      AddsIff(p, front, visited, id);
      forall path | path != []
        ensures Detour(p, nodes, visited, id, path) <==>
                || Detour(p, front, visited, id, path)
                || (n.ClassInstance? && n.classUuid == path[0] && Detour(p, nodes, visited, id, path))
      {
        DetourLast(p, nodes, visited, id, path);
      }
      if n.ClassInstance? && n.classUuid in p && n.classUuid !in visited {
        var c := n.classUuid;
        EmbedsLast(nodes, c);
        DetourThrough(p, nodes, visited, id, c);
        Shrinks(p.Keys - (visited + {c}), p.Keys - visited);
        PositiveIff(p, p[c].nodes, visited + {c});
        AddsIff(p, p[c].nodes, visited + {c}, id);
      }
    }
  }

  // ----- The exact condition ----------------------------------------------------------------

  /** The project and a generator measure a class alike exactly when no embedding
      path leads from its nodes through the class itself and on to bytes, no class
      twice; or when the smaller size is saturated already. */
  lemma SizesAgreeIff(p: Classes, id: Uuid)
    requires id in p
    ensures ProjectSize(p, id) == GeneratorSize(p, id) <==> !CountsTwice(p, id) || ProjectSize(p, id) == USIZE_MAX
  {
    var nodes := p[id].nodes;
    MarkIff(p, nodes, {}, id);
    assert {} + {id} == {id};
    AddsIff(p, nodes, {}, id);
    forall path
      ensures Detour(p, nodes, {}, id, path) <==>
              EmbedPath(p, nodes, path) && RepeatFree(path) && id in path && EndsInBytes(p, path)
    {
      OpenIsRepeatFree(p, nodes, path, {});
    }
  }

  /** The part of a path up to a class on it leads to that class. */
  lemma {:induction false} PathUpTo(p: Classes, nodes: seq<Node>, path: seq<Uuid>, id: Uuid)
    requires EmbedPath(p, nodes, path) && id in path
    ensures Within(p, nodes, id)
    decreases |path|
  {
    if path[0] == id {
      assert EmbedPath(p, nodes, [id]) && [id][0] == id;
    } else {
      assert path == [path[0]] + path[1..];
      PathUpTo(p, p[path[0]].nodes, path[1..], id);
      var rest :| EmbedPath(p, p[path[0]].nodes, rest) && rest[|rest| - 1] == id;
      PathCons(p, nodes, path[0], rest);
    }
  }

  lemma PathCons(p: Classes, nodes: seq<Node>, c: Uuid, rest: seq<Uuid>)
    requires Embeds(nodes, c) && c in p && EmbedPath(p, p[c].nodes, rest)
    ensures EmbedPath(p, nodes, [c] + rest) && ([c] + rest)[|rest|] == rest[|rest| - 1]
  {
    assert ([c] + rest)[1..] == rest;
  }

  /** Cutting the loops out of a path. */
  lemma {:induction false} Shorten(p: Classes, nodes: seq<Node>, path: seq<Uuid>) returns (short: seq<Uuid>)
    requires EmbedPath(p, nodes, path)
    ensures EmbedPath(p, nodes, short) && RepeatFree(short) && short[|short| - 1] == path[|path| - 1]
    decreases |path|
  {
    if |path| == 1 {
      short := path;
    } else {
      var c := path[0];
      var rest := Shorten(p, p[c].nodes, path[1..]);
      if c in rest {
        var k :| 0 <= k < |rest| && rest[k] == c;
        PathFrom(p, p[c].nodes, rest, k);
        short := rest[k..];
      } else {
        PathCons(p, nodes, c, rest);
        RepeatFreeCons(c, rest);
        short := [c] + rest;
      }
    }
  }

  /** From a class on a path one can go on as the path does. */
  lemma {:induction false} PathFrom(p: Classes, nodes: seq<Node>, path: seq<Uuid>, k: nat)
    requires EmbedPath(p, nodes, path) && k < |path|
    ensures path[k] in p && (k + 1 < |path| ==> EmbedPath(p, p[path[k]].nodes, path[k..][1..]))
    decreases |path|
  {
    if k > 0 {
      PathFrom(p, p[path[0]].nodes, path[1..], k - 1);
      assert path[1..][k - 1..] == path[k..];
    }
  }

  /** For a class with bytes of its own: alike exactly when it is not embedded,
      however far down, in itself, or is saturated. */
  lemma OwnBytesAgreeIff(p: Classes, id: Uuid)
    requires id in p && HoldsBytes(p[id].nodes)
    ensures ProjectSize(p, id) == GeneratorSize(p, id) <==> !Within(p, p[id].nodes, id) || ProjectSize(p, id) == USIZE_MAX
  {
    var nodes := p[id].nodes;
    SizesAgreeIff(p, id);
    if CountsTwice(p, id) {
      var path :| EmbedPath(p, nodes, path) && RepeatFree(path) && id in path && EndsInBytes(p, path);
      PathUpTo(p, nodes, path, id);
    }
    if path :| EmbedPath(p, nodes, path) && path[|path| - 1] == id {
      var short := Shorten(p, nodes, path);
      assert short[|short| - 1] in short && EndsInBytes(p, short);
      assert CountsTwice(p, id);
    }
  }

  /** Marking a class that is embedded nowhere below changes no size. */
  lemma MarkIsIdle(p: Classes, nodes: seq<Node>, visited: set<Uuid>, id: Uuid)
    requires !Within(p, nodes, id)
    ensures ClassSize(p, nodes, visited + {id}) == ClassSize(p, nodes, visited)
  {
    if id in visited {
      assert visited + {id} == visited;
    } else {
      MarkIff(p, nodes, visited, id);
      AddsIff(p, nodes, visited, id);
      forall path ensures !Detour(p, nodes, visited, id, path) {
        if Detour(p, nodes, visited, id, path) {
          OpenIsRepeatFree(p, nodes, path, visited);
          PathUpTo(p, nodes, path, id);
        }
      }
    }
  }

  /** The two sizes agree for every class not embedded in itself. */
  lemma SizesAgree(p: Classes, id: Uuid)
    requires id in p && !Within(p, p[id].nodes, id)
    ensures ProjectSize(p, id) == GeneratorSize(p, id)
  {
    MarkIsIdle(p, p[id].nodes, {}, id);
    assert {} + {id} == {id};
  }

  /** For a class that directly embeds itself: alike exactly when it is empty or
      saturated. */
  lemma DirectEmbedAgreesIff(p: Classes, id: Uuid)
    requires id in p && Embeds(p[id].nodes, id)
    ensures ProjectSize(p, id) == GeneratorSize(p, id) <==> ProjectSize(p, id) == 0 || ProjectSize(p, id) == USIZE_MAX
  {
    var nodes := p[id].nodes;
    MarkIff(p, nodes, {}, id);
    assert {} + {id} == {id};
    AddsIff(p, nodes, {}, id);
    DetourThrough(p, nodes, {}, id, id);
    PositiveIff(p, nodes, {id});
    if Adds(p, nodes, {}, id) {
      AddsBytes(p, nodes, {}, id);
    }
  }

  /** What an occurrence adds, the class has. */
  lemma {:induction false} AddsBytes(p: Classes, nodes: seq<Node>, visited: set<Uuid>, id: Uuid)
    requires id in p && Adds(p, nodes, visited, id)
    ensures ProjectSize(p, id) > 0
    decreases |p.Keys - visited|, |nodes|
  {
    var n := nodes[|nodes| - 1];
    if Adds(p, nodes[..|nodes| - 1], visited, id) {
      AddsBytes(p, nodes[..|nodes| - 1], visited, id);
    } else if n.classUuid == id {
      MoreVisited(p, p[id].nodes, {id}, visited + {id});
    } else {
      Shrinks(p.Keys - (visited + {n.classUuid}), p.Keys - visited);
      AddsBytes(p, p[n.classUuid].nodes, visited + {n.classUuid}, id);
    }
  }

  lemma LoneNode(p: Classes, n: Node, visited: set<Uuid>)
    ensures ClassSize(p, [n], visited) == NodeSize(p, n, visited)
  {
    assert [n][..0] == [];
  }

  /** A class of one `i32` and itself: 4 bytes to the project, 8 to a generator. */
  lemma SelfEmbedCountsTwice(name: string)
    ensures var nodes := [Leaf(Int32, name, ""), ClassInstance(name, "", 1)];
            var p: Classes := map[1 := ClassDef(1, name, nodes)];
            ProjectSize(p, 1) == 4 && GeneratorSize(p, 1) == 8
  {
    var nodes := [Leaf(Int32, name, ""), ClassInstance(name, "", 1)];
    var p: Classes := map[1 := ClassDef(1, name, nodes)];
    assert nodes[..1] == [nodes[0]];
    LoneNode(p, nodes[0], {1});
    LoneNode(p, nodes[0], {});
    assert ClassSize(p, nodes, {1}) == 4;
    assert {} + {1} == {1};
    assert NodeSize(p, nodes[1], {}) == ClassSize(p, nodes, {1});
    assert ClassSize(p, nodes, {}) == SatAdd(ClassSize(p, nodes[..1], {}), NodeSize(p, nodes[1], {}));
  }
}
