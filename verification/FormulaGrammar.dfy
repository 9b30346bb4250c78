/** The grammar the parser accepts, from the printing side
    (crates/nemclass-model/src/address/parser.rs): every expression written with
    no more parentheses than precedence and left associativity call for reads
    back as itself, exactly as long as it nests at most `MAX_DEPTH` deep. */
module FormulaGrammar {
  import opened Memory
  import opened Formula
  import opened FormulaText

  /** Additive, multiplicative, unary, primary. */
  function Rank(x: Expr): (r: nat)
    ensures r <= 3
  {
    match x
    case Add(_, _) => 0
    case Sub(_, _) => 0
    case Mul(_, _) => 1
    case Div(_, _) => 1
    case Rem(_, _) => 1
    case Negate(_) => 2
    case _ => 3
  }

  /** Literals have no sign of their own. */
  predicate Printable(x: Expr) {
    match x
    case Constant(n) => n >= 0
    case Module(_) => true
    case Negate(y) => Printable(y)
    case Deref(y) => Printable(y)
    case _ => Printable(x.lhs) && Printable(x.rhs)
  }

  function OpOf(x: Expr): Token {
    match x
    case Add(_, _) => Plus
    case Sub(_, _) => Minus
    case Mul(_, _) => Star
    case Div(_, _) => Slash
    case _ => Percent
  }

  function Bare(x: Expr): seq<Token>
    requires Printable(x)
    decreases x, 0
  {
    match x
    case Constant(n) => [Number(n)]
    case Module(name) => [Identifier(name)]
    case Negate(y) => [Minus] + Show(y, 2)
    case Deref(y) => [OpenBracket] + (Show(y, 0) + [CloseBracket])
    case _ => Show(x.lhs, Rank(x)) + ([OpOf(x)] + Show(x.rhs, Rank(x) + 1))
  }

  /** `x` where an expression of at least this rank is expected. */
  function Show(x: Expr, rank: nat): seq<Token>
    requires Printable(x)
    decreases x, 1
  {
    if Rank(x) < rank then [OpenParen] + (Bare(x) + [CloseParen]) else Bare(x)
  }

  /** How deep `Bare(x)` nests: brackets, parentheses and signs. */
  function Nesting(x: Expr): nat
    decreases x, 0
  {
    match x
    case Constant(_) => 0
    case Module(_) => 0
    case Negate(y) => 1 + NestingAt(y, 2)
    case Deref(y) => 1 + NestingAt(y, 0)
    case _ => Max(NestingAt(x.lhs, Rank(x)), NestingAt(x.rhs, Rank(x) + 1))
  }

  function NestingAt(x: Expr, rank: nat): nat
    decreases x, 1
  {
    if Rank(x) < rank then 1 + Nesting(x) else Nesting(x)
  }

  predicate Fits(x: Expr, rank: nat, depth: nat) {
    depth + NestingAt(x, rank) <= MAX_DEPTH
  }

  // ----- One step of each parser ---------------------------------------------------

  lemma ParseGroup(open: Token, close: Token, inner: seq<Token>, x: Expr, rest: seq<Token>, depth: nat, deep: bool)
    requires (open == OpenParen && close == CloseParen) || (open == OpenBracket && close == CloseBracket)
    requires depth <= MAX_DEPTH
    requires ParseAdditive(inner + ([close] + rest), depth + 1) ==
             if deep then Err(NestedTooDeeply) else Ok((x, [close] + rest))
    ensures ParseUnary([open] + (inner + [close]) + rest, depth) ==
            if deep then Err(NestedTooDeeply) else Ok((if open == OpenParen then x else Deref(x), rest))
  {
    var ts := [open] + (inner + [close]) + rest;
    assert ts[0] == open && ts[1..] == inner + ([close] + rest);
    assert ([close] + rest)[1..] == rest;
    assert ParseUnary(ts, depth) == ParsePrimary(ts, depth);
  }

  lemma ParseSign(x: Expr, rest: seq<Token>, depth: nat)
    requires Printable(x)
    requires depth <= MAX_DEPTH ==>
               ParseUnary(Show(x, 2) + rest, depth + 1) ==
               if Fits(x, 2, depth + 1) then Ok((x, rest)) else Err(NestedTooDeeply)
    ensures ParseUnary([Minus] + Show(x, 2) + rest, depth) ==
            if depth + 1 + NestingAt(x, 2) <= MAX_DEPTH then Ok((Negate(x), rest)) else Err(NestedTooDeeply)
  {
    var ts := [Minus] + Show(x, 2) + rest;
    assert ts[0] == Minus && ts[1..] == Show(x, 2) + rest;
  }

  lemma AdditiveStep(lhs: Expr, x: Expr, rhs: seq<Token>, rest: seq<Token>, depth: nat)
    requires (x.Add? || x.Sub?) && x.lhs == lhs && Stops(rest)
    ensures var r := ParseMultiplicative(rhs + rest, depth);
            && (r == MultiplicativeTail(x.rhs, rest, depth) ==>
                  AdditiveTail(lhs, [OpOf(x)] + rhs + rest, depth) == AdditiveTail(x, rest, depth))
            && (r == Err(NestedTooDeeply) ==> AdditiveTail(lhs, [OpOf(x)] + rhs + rest, depth) == r)
  {
    var ts := [OpOf(x)] + rhs + rest;
    assert ts[0] == OpOf(x) && ts[1..] == rhs + rest;
    assert MultiplicativeTail(x.rhs, rest, depth) == Ok((x.rhs, rest));
  }

  lemma MultiplicativeStep(lhs: Expr, x: Expr, rhs: seq<Token>, rest: seq<Token>, depth: nat)
    requires Rank(x) == 1 && x.lhs == lhs
    ensures var r := ParseUnary(rhs + rest, depth);
            && (r == Ok((x.rhs, rest)) ==>
                  MultiplicativeTail(lhs, [OpOf(x)] + rhs + rest, depth) == MultiplicativeTail(x, rest, depth))
            && (r == Err(NestedTooDeeply) ==> MultiplicativeTail(lhs, [OpOf(x)] + rhs + rest, depth) == r)
  {
    var ts := [OpOf(x)] + rhs + rest;
    assert ts[0] == OpOf(x) && ts[1..] == rhs + rest;
  }

  // ----- Reading back, by rank --------------------------------------------------------

  /** In front of anything, the unary parser takes exactly the printed expression. */
  lemma {:induction false} ReadsUnary(x: Expr, rest: seq<Token>, depth: nat)
    requires Printable(x)
    ensures ParseUnary(Show(x, 2) + rest, depth) ==
            if Fits(x, 2, depth) then Ok((x, rest)) else Err(NestedTooDeeply)
    decreases x, if Rank(x) == 0 then 1 else if Rank(x) == 1 then 2 else 0
  {
    if depth > MAX_DEPTH {
    } else if Rank(x) < 2 {
      ReadsAdditive(x, [CloseParen] + rest, depth + 1);
      ParseGroup(OpenParen, CloseParen, Bare(x), x, rest, depth, !Fits(x, 0, depth + 1));
    } else {
      ReadsPrimary(x, rest, depth);
    }
  }

  lemma {:induction false} ReadsPrimary(x: Expr, rest: seq<Token>, depth: nat)
    requires Printable(x) && depth <= MAX_DEPTH && Rank(x) >= 2
    ensures ParseUnary(Bare(x) + rest, depth) ==
            if depth + Nesting(x) <= MAX_DEPTH then Ok((x, rest)) else Err(NestedTooDeeply)
    decreases x, 0, 0
  {
    if x.Negate? {
      ReadsUnary(x.inner, rest, depth + 1);
      ParseSign(x.inner, rest, depth);
    } else if x.Deref? {
      ReadsAdditive(x.inner, [CloseBracket] + rest, depth + 1);
      ParseGroup(OpenBracket, CloseBracket, Show(x.inner, 0), x.inner, rest, depth, !Fits(x.inner, 0, depth + 1));
    } else {
      assert (Bare(x) + rest)[1..] == rest;
    }
  }

  lemma BinaryNesting(x: Expr)
    requires Rank(x) < 2
    ensures NestingAt(x, Rank(x)) == Max(NestingAt(x.lhs, Rank(x)), NestingAt(x.rhs, Rank(x) + 1))
  {
  }

  /** The multiplicative parser takes it and goes on from there. */
  lemma {:induction false} ReadsMultiplicative(x: Expr, rest: seq<Token>, depth: nat)
    requires Printable(x)
    ensures ParseMultiplicative(Show(x, 1) + rest, depth) ==
            if Fits(x, 1, depth) then MultiplicativeTail(x, rest, depth) else Err(NestedTooDeeply)
    decreases x, if Rank(x) == 0 then 2 else if Rank(x) == 1 then 0 else 1
  {
    if Rank(x) == 1 {
      var rhs := Show(x.rhs, 2);
      assert Show(x, 1) + rest == Show(x.lhs, 1) + ([OpOf(x)] + rhs + rest);
      ReadsMultiplicative(x.lhs, [OpOf(x)] + rhs + rest, depth);
      ReadsUnary(x.rhs, rest, depth);
      MultiplicativeStep(x.lhs, x, rhs, rest, depth);
      BinaryNesting(x);
    } else {
      ReadsUnary(x, rest, depth);
    }
  }

  /** So does the additive one, unless a multiplication follows. */
  lemma {:induction false} ReadsAdditive(x: Expr, rest: seq<Token>, depth: nat)
    requires Printable(x) && Stops(rest)
    ensures ParseAdditive(Show(x, 0) + rest, depth) ==
            if Fits(x, 0, depth) then AdditiveTail(x, rest, depth) else Err(NestedTooDeeply)
    decreases x, if Rank(x) == 0 then 0 else if Rank(x) == 1 then 1 else 2
  {
    if Rank(x) == 0 {
      var rhs := Show(x.rhs, 1);
      assert Show(x, 0) + rest == Show(x.lhs, 0) + ([OpOf(x)] + rhs + rest);
      ReadsAdditive(x.lhs, [OpOf(x)] + rhs + rest, depth);
      ReadsMultiplicative(x.rhs, rest, depth);
      AdditiveStep(x.lhs, x, rhs, rest, depth);
      BinaryNesting(x);
    } else {
      ReadsMultiplicative(x, rest, depth);
    }
  }

  /** Every expression reads back as itself, or is refused as too deep exactly
      when it nests deeper than the limit. */
  lemma ReadsBack(x: Expr)
    requires Printable(x)
    ensures ParseTokens(Show(x, 0)) == if Nesting(x) <= MAX_DEPTH then Ok(x) else Err(NestedTooDeeply)
  {
    ReadsAdditive(x, [], 0);
    assert Show(x, 0) + [] == Show(x, 0);
  }

  /** The usual order: products before sums, and equals from the left. */
  lemma UsualOrder(a: nat, b: nat, c: nat, d: nat)
    ensures ParseTokens([Number(a), Minus, Number(b), Star, Number(c), Minus, Number(d)])
         == Ok(Sub(Sub(Constant(a), Mul(Constant(b), Constant(c))), Constant(d)))
  {
    var product := Mul(Constant(b), Constant(c));
    var left := Sub(Constant(a), product);
    var x := Sub(left, Constant(d));
    assert Printable(product) && Printable(left) && Printable(x);
    BareBinary(product, [Number(b)], [Number(c)]);
    BareBinary(left, [Number(a)], [Number(b)] + ([Star] + [Number(c)]));
    BareBinary(x, Show(left, 0), [Number(d)]);
    FlatBinary(product);
    FlatBinary(left);
    FlatBinary(x);
    ReadsBack(x);
    assert Show(x, 0) == [Number(a), Minus, Number(b), Star, Number(c), Minus, Number(d)];
  }

  lemma FlatBinary(x: Expr)
    requires Rank(x) < 2
    requires x.lhs.Constant? || (Nesting(x.lhs) == 0 && Rank(x.lhs) >= Rank(x))
    requires x.rhs.Constant? || (Nesting(x.rhs) == 0 && Rank(x.rhs) >= Rank(x) + 1)
    ensures Nesting(x) == 0
  {
    assert NestingAt(x.lhs, Rank(x)) == 0 && NestingAt(x.rhs, Rank(x) + 1) == 0;
  }

  lemma BareBinary(x: Expr, l: seq<Token>, r: seq<Token>)
    requires Printable(x) && Rank(x) < 2 && l == Show(x.lhs, Rank(x)) && r == Show(x.rhs, Rank(x) + 1)
    ensures Show(x, Rank(x)) == l + ([OpOf(x)] + r)
  {
  }

  // ----- What the parser accepts -------------------------------------------------------

  /** A result that prints at this rank within the nesting left at this depth. */
  ghost predicate Reprints(r: Parsed, rank: nat, depth: nat) {
    r.Ok? ==> Printable(r.value.0) && Fits(r.value.0, rank, depth)
  }

  lemma {:induction false} AdditiveReprints(ts: seq<Token>, depth: nat)
    ensures Reprints(ParseAdditive(ts, depth), 0, depth)
    decreases |ts|, 4
  {
    MultiplicativeReprints(ts, depth);
    var p := ParseMultiplicative(ts, depth);
    if p.Ok? {
      AdditiveTailReprints(p.value.0, p.value.1, depth);
    }
  }

  lemma {:induction false} AdditiveTailReprints(lhs: Expr, ts: seq<Token>, depth: nat)
    requires Printable(lhs) && Fits(lhs, 0, depth)
    ensures Reprints(AdditiveTail(lhs, ts, depth), 0, depth)
    decreases |ts|, 0
  {
    if ts != [] && (ts[0] == Plus || ts[0] == Minus) {
      MultiplicativeReprints(ts[1..], depth);
      var p := ParseMultiplicative(ts[1..], depth);
      if p.Ok? {
        AdditiveTailReprints(if ts[0] == Plus then Add(lhs, p.value.0) else Sub(lhs, p.value.0), p.value.1, depth);
      }
    }
  }

  lemma {:induction false} MultiplicativeReprints(ts: seq<Token>, depth: nat)
    ensures Reprints(ParseMultiplicative(ts, depth), 1, depth)
    decreases |ts|, 3
  {
    UnaryReprints(ts, depth);
    var p := ParseUnary(ts, depth);
    if p.Ok? {
      MultiplicativeTailReprints(p.value.0, p.value.1, depth);
    }
  }

  lemma {:induction false} MultiplicativeTailReprints(lhs: Expr, ts: seq<Token>, depth: nat)
    requires Printable(lhs) && Fits(lhs, 1, depth)
    ensures Reprints(MultiplicativeTail(lhs, ts, depth), 1, depth)
    decreases |ts|, 0
  {
    if ts != [] && IsMulOp(ts[0]) {
      UnaryReprints(ts[1..], depth);
      var p := ParseUnary(ts[1..], depth);
      if p.Ok? {
        MultiplicativeTailReprints(MulOp(ts[0], lhs, p.value.0), p.value.1, depth);
      }
    }
  }

  lemma {:induction false} UnaryReprints(ts: seq<Token>, depth: nat)
    ensures Reprints(ParseUnary(ts, depth), 2, depth)
    decreases |ts|, 2
  {
    if depth <= MAX_DEPTH && ts != [] {
      if ts[0] == Minus {
        UnaryReprints(ts[1..], depth + 1);
      } else if ts[0] == OpenParen || ts[0] == OpenBracket {
        AdditiveReprints(ts[1..], depth + 1);
      }
    }
  }

  /** Printing an accepted expression again gives a text that means the same: what
      the parser accepts is, up to redundant parentheses, exactly what prints. */
  lemma AcceptedReadsBack(ts: seq<Token>)
    requires ParseTokens(ts).Ok?
    ensures Printable(ParseTokens(ts).value) && ParseTokens(Show(ParseTokens(ts).value, 0)) == ParseTokens(ts)
  {
    AdditiveReprints(ts, 0);
    ReadsBack(ParseTokens(ts).value);
  }
}
