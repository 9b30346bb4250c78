/** `to_formula` as a compiler from scan paths into the formula language, and
    what it preserves: the text parses, and evaluates to the address the path
    resolves to (crates/nemclass-scan/src/pointerscan.rs,
    crates/nemclass-scan/src/spider.rs, crates/nemclass-model/src/address). */
module FormulaPaths {
  import opened Memory
  import opened Formula
  import opened FormulaText
  import PointerScan
  import Spider
  import SpiderGraph

  type Modules = string -> Option<nat>
  type Reader = nat -> Option<nat>

  // ----- Printers ------------------------------------------------------------

  function ModuleAnchor(name: string, moduleBase: Usize, base: Usize): Anchor {
    InModule(name, Wrap(base - moduleBase))
  }

  /** `PointerPath::to_formula` */
  method PointerFormula(base: Usize, offsets: seq<nat>, name: string, moduleBase: Usize) returns (text: string)
    ensures text == PointerText(ModuleAnchor(name, moduleBase, base), offsets)
  {
    var a := ModuleAnchor(name, moduleBase, base);
    text := AnchorText(a);
    var i := 0;
    while i < |offsets|
      invariant 0 <= i <= |offsets|
      invariant text == PointerText(a, offsets[..i])
    {
      assert offsets[..i + 1][..i] == offsets[..i];
      text := "[" + (text + ("]" + (" + " + Hex(offsets[i]))));
      i := i + 1;
    }
    assert offsets[..i] == offsets;
  }

  /** `SpiderPath::to_formula` on a printed anchor. */
  method SpiderFormula(a: Anchor, parents: seq<nat>, offset: nat) returns (text: string)
    ensures text == ParentText(a, parents) + (" + " + Hex(offset))
  {
    text := AnchorText(a);
    var i := 0;
    while i < |parents|
      invariant 0 <= i <= |parents|
      invariant text == ParentText(a, parents[..i])
    {
      assert parents[..i + 1][..i] == parents[..i];
      text := "[" + (text + ((" + " + Hex(parents[i])) + "]"));
      i := i + 1;
    }
    assert parents[..i] == parents;
    text := text + (" + " + Hex(offset));
  }

  // ----- Anchors ---------------------------------------------------------------

  /** The anchor denotes `base` under these modules. */
  ghost predicate Denotes(a: Anchor, modules: Modules, base: Usize) {
    match a
    case InModule(name, off) => modules(name).Some? && modules(name).value <= USIZE_MAX && off == Wrap(base - modules(name).value)
    case Raw(root) => root == base
  }

  lemma EvaluateAnchor(a: Anchor, modules: Modules, read: Reader, base: Usize)
    requires Denotes(a, modules, base)
    ensures Evaluate(AnchorExpr(a), modules, read) == Ok(base)
  {
    if a.InModule? {
      WrapBack(modules(a.name).value, base);
    }
  }

  /** A wrapped difference added back. */
  lemma WrapBack(from: Usize, to: Usize)
    ensures Wrap(from + Wrap(to - from)) == to
  {
    if to < from {
      assert (to - from) % WORD == to - from + WORD;
      assert (to + WORD) % WORD == to;
    }
  }

  /** One printed hop: add a literal, wrapping. */
  lemma EvaluatePlus(x: Expr, n: nat, modules: Modules, read: Reader)
    requires n <= USIZE_MAX
    ensures Evaluate(Add(x, Constant(n)), modules, read) ==
      (match Evaluate(x, modules, read) case Err(e) => Err(e) case Ok(v) => Ok(Wrap(v + n)))
  {
  }

  // ----- Pointer paths -----------------------------------------------------------

  /** `Some` address reached so far; the empty prefix stands at the base. */
  ghost function Reached(base: Usize, offsets: seq<nat>, read: Reader): Option<nat> {
    if offsets == [] then Some(base) else PointerScan.Resolve(PointerScan.PointerPath(base, offsets), read)
  }

  lemma {:induction false} ResolveFromSnoc(addr: nat, offsets: seq<nat>, off: nat, read: Reader)
    requires offsets != []
    ensures PointerScan.ResolveFrom(addr, offsets + [off], read) ==
      match PointerScan.ResolveFrom(addr, offsets, read)
      case None => None
      case Some(a) => Step(a, off, read)
    decreases |offsets|
  {
    assert (offsets + [off])[1..] == offsets[1..] + [off];
    if |offsets| == 1 {
      assert offsets[1..] == [];
      assert (offsets + [off])[1..] == [off];
    } else if addr + offsets[0] <= USIZE_MAX && read(addr + offsets[0]).Some? {
      ResolveFromSnoc(read(addr + offsets[0]).value, offsets[1..], off, read);
    }
  }

  /** Dereference, then a checked add. */
  function Step(a: nat, off: nat, read: Reader): Option<nat> {
    match read(a)
    case None => None
    case Some(v) => if v + off > USIZE_MAX then None else Some(v + off)
  }

  lemma ReachedSnoc(base: Usize, offsets: seq<nat>, off: nat, read: Reader)
    ensures Reached(base, offsets + [off], read) ==
      match Reached(base, offsets, read) case None => None case Some(a) => Step(a, off, read)
  {
    if offsets == [] {
      assert offsets + [off] == [off];
    } else if read(base).Some? {
      ResolveFromSnoc(read(base).value, offsets, off, read);
    }
  }

  /** No hop's checked add overflows where the formula's add would wrap. */
  ghost predicate NoCarry(a: Anchor, offsets: seq<nat>, modules: Modules, read: Reader) {
    offsets == [] ||
    var n := |offsets| - 1;
    && NoCarry(a, offsets[..n], modules, read)
    && match Evaluate(Deref(PointerExpr(a, offsets[..n])), modules, read)
       case Err(_) => true
       case Ok(v) => v + offsets[n] <= USIZE_MAX
  }

  /** The address reached is what the expression evaluates to; neither, or both. */
  predicate Agrees(reached: Option<nat>, value: Result<nat, EvalError>) {
    match reached case None => value.Err? case Some(v) => value == Ok(v)
  }

  /** One printed hop on values: dereference, then a wrapping add. */
  function Hop(value: Result<nat, EvalError>, off: nat, read: Reader): Result<nat, EvalError> {
    match value
    case Err(e) => Err(e)
    case Ok(a) => match read(a) case None => Err(ReadFailed) case Some(v) => Ok(Wrap(v + off))
  }

  lemma EvaluateHop(x: Expr, off: nat, modules: Modules, read: Reader)
    requires off <= USIZE_MAX
    ensures Evaluate(Add(Deref(x), Constant(off)), modules, read) == Hop(Evaluate(x, modules, read), off, read)
  {
    EvaluatePlus(Deref(x), off, modules, read);
  }

  /** Every printed hop of a pointer path in turn: resolution with wrapping adds. */
  function PointerValue(base: nat, offsets: seq<nat>, read: Reader): Result<nat, EvalError> {
    if offsets == [] then Ok(base)
    else
      var n := |offsets| - 1;
      Hop(PointerValue(base, offsets[..n], read), offsets[n], read)
  }

  lemma {:induction false} PointerExprValue(a: Anchor, base: Usize, offsets: seq<nat>, modules: Modules, read: Reader)
    requires Denotes(a, modules, base) && AllFit(offsets)
    ensures Evaluate(PointerExpr(a, offsets), modules, read) == PointerValue(base, offsets, read)
    decreases |offsets|
  {
    if offsets == [] {
      EvaluateAnchor(a, modules, read, base);
    } else {
      var n := |offsets| - 1;
      AllFitStep(offsets);
      PointerExprValue(a, base, offsets[..n], modules, read);
      EvaluateHop(PointerExpr(a, offsets[..n]), offsets[n], modules, read);
    }
  }

  /** The checked hop of `resolve` and the wrapping hop of the formula agree where
      nothing carries; a checked hop that succeeds never carries. */
  lemma HopAgrees(reached: Option<nat>, value: Result<nat, EvalError>, off: nat, read: Reader)
    requires Agrees(reached, value)
    ensures var next := match reached case None => None case Some(a) => Step(a, off, read);
            && (next.Some? ==> Agrees(next, Hop(value, off, read)))
            && (next.None? ==> Hop(value, off, read).Err? || (value.Ok? && read(value.value).Some?
                                                              && read(value.value).value + off > USIZE_MAX))
  {
  }

  /** The compiled expression computes what the path has reached, as long as no
      add carries out of the word; a path that resolves never carries. */
  lemma {:induction false} PointerExprEvaluates(a: Anchor, base: Usize, offsets: seq<nat>, modules: Modules, read: Reader)
    requires Denotes(a, modules, base) && AllFit(offsets)
    ensures NoCarry(a, offsets, modules, read) ==>
      Agrees(Reached(base, offsets, read), Evaluate(PointerExpr(a, offsets), modules, read))
    ensures Reached(base, offsets, read).Some? ==> NoCarry(a, offsets, modules, read)
    decreases |offsets|
  {
    if offsets == [] {
      EvaluateAnchor(a, modules, read, base);
    } else {
      var n := |offsets| - 1;
      var front, off := offsets[..n], offsets[n];
      AllFitStep(offsets);
      assert offsets == front + [off];
      PointerExprEvaluates(a, base, front, modules, read);
      ReachedSnoc(base, front, off, read);
      if NoCarry(a, front, modules, read) {
        HopAgrees(Reached(base, front, read), Evaluate(PointerExpr(a, front), modules, read), off, read);
        EvaluateHop(PointerExpr(a, front), off, modules, read);
      }
    }
  }

  /** Compiling a pointer path preserves its meaning. For a module name without
      `>`, the text parses exactly when every literal fits an `i64` and there are
      at most 128 offsets. What it evaluates to is, in every case, the resolution
      with wrapping adds; for a path with at least one offset that resolves that is
      the resolved address. */
  lemma PointerFormulaMeans(p: PointerScan.PointerPath, name: string, moduleBase: Usize, modules: Modules, read: Reader)
    requires '>' !in name && modules(name) == Some(moduleBase) && p.base <= USIZE_MAX
    ensures var a := ModuleAnchor(name, moduleBase, p.base);
            var parsed := ParseText(PointerText(a, p.offsets));
            && (parsed.Ok? <==> AnchorFits(a) && AllFit(p.offsets) && |p.offsets| <= MAX_DEPTH)
            && (AnchorFits(a) && AllFit(p.offsets) && |p.offsets| > MAX_DEPTH ==> parsed == Err(NestedTooDeeply))
            && (parsed.Ok? ==> Evaluate(parsed.value, modules, read) == PointerValue(p.base, p.offsets, read))
            && (parsed.Ok? && p.offsets != [] && PointerScan.Resolve(p, read).Some? ==>
                  Evaluate(parsed.value, modules, read) == Ok(PointerScan.Resolve(p, read).value))
            && (parsed.Ok? && p.offsets != [] && PointerScan.Resolve(p, read).None? ==>
                  Evaluate(parsed.value, modules, read).Err? || !NoCarry(a, p.offsets, modules, read))
  {
    var a := ModuleAnchor(name, moduleBase, p.base);
    PointerTextParses(a, p.offsets);
    if AllFit(p.offsets) {
      PointerExprValue(a, p.base, p.offsets, modules, read);
      PointerExprEvaluates(a, p.base, p.offsets, modules, read);
    }
  }

  /** With no offsets the two part ways: the formula names the base itself,
      `resolve` reads it. They agree exactly when the base points to itself. */
  lemma EmptyPathDisagrees(base: Usize, name: string, moduleBase: Usize, modules: Modules, read: Reader)
    requires '>' !in name && modules(name) == Some(moduleBase)
    requires AnchorFits(ModuleAnchor(name, moduleBase, base))
    ensures var parsed := ParseText(PointerText(ModuleAnchor(name, moduleBase, base), []));
            && parsed.Ok? && Evaluate(parsed.value, modules, read) == Ok(base)
            && (PointerScan.Resolve(PointerScan.PointerPath(base, []), read) == Some(base) <==> read(base) == Some(base))
  {
    var a := ModuleAnchor(name, moduleBase, base);
    PointerTextParses(a, []);
    EvaluateAnchor(a, modules, read, base);
  }

  // ----- Spider paths --------------------------------------------------------------

  /** One printed hop of a spider path: a wrapping add, then dereference. */
  function Descend(value: Result<nat, EvalError>, off: nat, read: Reader): Result<nat, EvalError> {
    match value
    case Err(e) => Err(e)
    case Ok(a) => match read(Wrap(a + off)) case None => Err(ReadFailed) case Some(v) => Ok(v)
  }

  /** The struct reached, null pointers followed and adds wrapping. */
  function ParentValue(root: nat, parents: seq<nat>, read: Reader): Result<nat, EvalError> {
    if parents == [] then Ok(root)
    else
      var n := |parents| - 1;
      Descend(ParentValue(root, parents[..n], read), parents[n], read)
  }

  function SpiderValue(p: SpiderGraph.SpiderPath, read: Reader): Result<nat, EvalError> {
    match ParentValue(p.root, p.parentOffsets, read)
    case Err(e) => Err(e)
    case Ok(a) => Ok(Wrap(a + p.offset))
  }

  lemma {:induction false} ParentExprValue(a: Anchor, root: Usize, parents: seq<nat>, modules: Modules, read: Reader)
    requires Denotes(a, modules, root) && AllFit(parents)
    ensures Evaluate(ParentExpr(a, parents), modules, read) == ParentValue(root, parents, read)
    decreases |parents|
  {
    if parents == [] {
      EvaluateAnchor(a, modules, read, root);
    } else {
      var n := |parents| - 1;
      AllFitStep(parents);
      ParentExprValue(a, root, parents[..n], modules, read);
      EvaluatePlus(ParentExpr(a, parents[..n]), parents[n], modules, read);
    }
  }

  lemma SpiderExprValue(p: SpiderGraph.SpiderPath, a: Anchor, modules: Modules, read: Reader)
    requires p.root <= USIZE_MAX && Denotes(a, modules, p.root) && AllFit(p.parentOffsets) && p.offset <= I64_MAX
    ensures Evaluate(Add(ParentExpr(a, p.parentOffsets), Constant(p.offset)), modules, read) == SpiderValue(p, read)
  {
    ParentExprValue(a, p.root, p.parentOffsets, modules, read);
    EvaluatePlus(ParentExpr(a, p.parentOffsets), p.offset, modules, read);
  }

  lemma {:induction false} ParentExprEvaluates(a: Anchor, root: Usize, parents: seq<nat>, modules: Modules, read: Reader)
    requires Denotes(a, modules, root) && AllFit(parents)
    requires Spider.Hops(root, parents, read).Some?
    ensures Evaluate(ParentExpr(a, parents), modules, read) == Ok(Spider.Hops(root, parents, read).value)
    decreases |parents|
  {
    if parents == [] {
      EvaluateAnchor(a, modules, read, root);
    } else {
      var n := |parents| - 1;
      AllFitStep(parents);
      ParentExprEvaluates(a, root, parents[..n], modules, read);
      EvaluatePlus(ParentExpr(a, parents[..n]), parents[n], modules, read);
    }
  }

  /** Compiling a spider path preserves its meaning, from a module or a raw root: the
      text evaluates, in every case, to the resolution with wrapping adds and null
      pointers followed, which for a path that resolves is the resolved address. */
  lemma SpiderFormulaMeans(p: SpiderGraph.SpiderPath, a: Anchor, modules: Modules, read: Reader)
    requires Closed(a) && p.root <= USIZE_MAX && Denotes(a, modules, p.root)
    ensures var parsed := ParseText(ParentText(a, p.parentOffsets) + (" + " + Hex(p.offset)));
            var fits := AnchorFits(a) && AllFit(p.parentOffsets) && p.offset <= I64_MAX;
            && (parsed.Ok? <==> fits && |p.parentOffsets| <= MAX_DEPTH)
            && (parsed.Ok? ==> Evaluate(parsed.value, modules, read) == SpiderValue(p, read))
            && (parsed.Ok? && Spider.Resolve(p, read).Some? ==>
                  Evaluate(parsed.value, modules, read) == Ok(Spider.Resolve(p, read).value))
            && (parsed.Ok? && Spider.Resolve(p, read).None? ==>
                  || Evaluate(parsed.value, modules, read).Err?
                  || Refuses(p.root, p.parentOffsets, read)
                  || Carries(p, read))
  {
    ParentTextParses(a, p.parentOffsets, p.offset);
    if AllFit(p.parentOffsets) && p.offset <= I64_MAX {
      SpiderExprValue(p, a, modules, read);
      if Spider.Resolve(p, read).Some? {
        SpiderExprEvaluates(p, a, modules, read);
      } else if Spider.Hops(p.root, p.parentOffsets, read).None? && !Refuses(p.root, p.parentOffsets, read) {
        SpiderExprFails(p, a, modules, read);
      }
    }
  }

  /** The last add overflows. */
  ghost predicate Carries(p: SpiderGraph.SpiderPath, read: Reader) {
    match Spider.Hops(p.root, p.parentOffsets, read) case None => false case Some(a) => a + p.offset > USIZE_MAX
  }

  /** A hop of the path that `resolve` refuses and the formula does not: its add
      overflows, or it reads a null pointer. */
  ghost predicate Refuses(root: nat, parents: seq<nat>, read: Reader) {
    parents != [] &&
    var n := |parents| - 1;
    || Refuses(root, parents[..n], read)
    || match Spider.Hops(root, parents[..n], read)
       case None => false
       case Some(a) => a + parents[n] > USIZE_MAX || read(a + parents[n]) == Some(0)
  }

  /** Where `resolve` fails for want of a read, the formula fails too. */
  lemma {:induction false} ParentExprFails(a: Anchor, root: Usize, parents: seq<nat>, modules: Modules, read: Reader)
    requires Denotes(a, modules, root) && AllFit(parents)
    requires Spider.Hops(root, parents, read).None? && !Refuses(root, parents, read)
    ensures Evaluate(ParentExpr(a, parents), modules, read).Err?
    decreases |parents|
  {
    var n := |parents| - 1;
    var front := parents[..n];
    AllFitStep(parents);
    EvaluatePlus(ParentExpr(a, front), parents[n], modules, read);
    if Spider.Hops(root, front, read).None? {
      ParentExprFails(a, root, front, modules, read);
    } else {
      ParentExprEvaluates(a, root, front, modules, read);
    }
  }

  lemma SpiderExprFails(p: SpiderGraph.SpiderPath, a: Anchor, modules: Modules, read: Reader)
    requires p.root <= USIZE_MAX && Denotes(a, modules, p.root) && AllFit(p.parentOffsets) && p.offset <= I64_MAX
    requires Spider.Hops(p.root, p.parentOffsets, read).None? && !Refuses(p.root, p.parentOffsets, read)
    ensures Evaluate(Add(ParentExpr(a, p.parentOffsets), Constant(p.offset)), modules, read).Err?
  {
    ParentExprFails(a, p.root, p.parentOffsets, modules, read);
    EvaluatePlus(ParentExpr(a, p.parentOffsets), p.offset, modules, read);
  }

  lemma SpiderExprEvaluates(p: SpiderGraph.SpiderPath, a: Anchor, modules: Modules, read: Reader)
    requires p.root <= USIZE_MAX && Denotes(a, modules, p.root) && AllFit(p.parentOffsets) && p.offset <= I64_MAX
    requires Spider.Resolve(p, read).Some?
    ensures Evaluate(Add(ParentExpr(a, p.parentOffsets), Constant(p.offset)), modules, read)
         == Ok(Spider.Resolve(p, read).value)
  {
    ParentExprEvaluates(a, p.root, p.parentOffsets, modules, read);
    EvaluatePlus(ParentExpr(a, p.parentOffsets), p.offset, modules, read);
  }
}
