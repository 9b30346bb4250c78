/** The parser against its grammar
    (crates/nemclass-model/src/address/parser.rs): it accepts a list of tokens, and
    as which expression, exactly when the usual grammar derives it from them with at
    most 128 signs, parentheses and brackets inside one another. */
module FormulaDerives {
  import opened Formula
  import opened FormulaText
  import opened FormulaGrammar

  // ----- The grammar ---------------------------------------------------------------

  /** `ts` derives `x` as a sum (rank 0), a product (1), a signed factor (2) or a
      primary (3), nested at most `room` deep. Sums and products group to the left. */
  ghost predicate Derives(ts: seq<Token>, x: Expr, rank: nat, room: int)
    requires rank <= 3
    decreases |ts|, 3 - rank
  {
    || (rank < 3 && Derives(ts, x, rank + 1, room))
    || (rank < 2 && exists i: nat :: Splits(ts, x, rank, i) && Derives(ts[..i], x.lhs, rank, room)
                                && Derives(ts[i + 1..], x.rhs, rank + 1, room))
    || (rank == 2 && room >= 0 && Signed(ts, x) && Derives(ts[1..], x.inner, 2, room - 1))
    || (rank == 3 && room >= 0 && IsLiteral(ts, x))
    || (rank == 3 && room >= 0 && Wrapped(ts, OpenParen, CloseParen) && Derives(Inside(ts), x, 0, room - 1))
    || (rank == 3 && room >= 0 && x.Deref? && Wrapped(ts, OpenBracket, CloseBracket)
        && Derives(Inside(ts), x.inner, 0, room - 1))
  }

  /** The operator of a binary expression of this rank stands at `i`. */
  predicate Splits(ts: seq<Token>, x: Expr, rank: nat, i: nat) {
    i < |ts| && Rank(x) == rank < 2 && ts[i] == OpOf(x)
  }

  predicate Signed(ts: seq<Token>, x: Expr) {
    x.Negate? && ts != [] && ts[0] == Minus
  }

  predicate IsLiteral(ts: seq<Token>, x: Expr) {
    |ts| == 1 && match ts[0]
                 case Number(n) => x == Constant(n)
                 case Identifier(name) => x == Module(name)
                 case _ => false
  }

  predicate Wrapped(ts: seq<Token>, open: Token, close: Token) {
    |ts| >= 2 && ts[0] == open && ts[|ts| - 1] == close
  }

  function Inside(ts: seq<Token>): seq<Token>
    requires |ts| >= 2
  {
    ts[1..|ts| - 1]
  }

  lemma DerivesBinary(l: seq<Token>, r: seq<Token>, x: Expr, rank: nat, room: int)
    requires Rank(x) == rank < 2 && Derives(l, x.lhs, rank, room) && Derives(r, x.rhs, rank + 1, room)
    ensures Derives(l + [OpOf(x)] + r, x, rank, room)
  {
    var ts, i := l + [OpOf(x)] + r, |l|;
    assert ts[..i] == l && ts[i + 1..] == r && Splits(ts, x, rank, i);
  }

  lemma DerivesWrapped(inner: seq<Token>, x: Expr, open: Token, room: int)
    requires room >= 0 && Derives(inner, x, 0, room - 1)
    ensures open == OpenParen ==> Derives([open] + inner + [CloseParen], x, 3, room)
    ensures open == OpenBracket ==> Derives([open] + inner + [CloseBracket], Deref(x), 3, room)
  {
    var close := if open == OpenParen then CloseParen else CloseBracket;
    var ts := [open] + inner + [close];
    assert Inside(ts) == inner && Wrapped(ts, open, close);
  }

  lemma DerivesUp(ts: seq<Token>, x: Expr, rank: nat, room: int)
    requires rank < 3 && Derives(ts, x, rank + 1, room)
    ensures Derives(ts, x, rank, room)
  {
  }

  // ----- What the parser takes derives ---------------------------------------------

  /** `r` took the expression of this rank from the front of `front + ts`. */
  ghost predicate Took(front: seq<Token>, ts: seq<Token>, r: Parsed, rank: nat, depth: nat)
    requires rank <= 3
  {
    r.Ok? ==>
      exists used :: ts == used + r.value.1 && Derives(front + used, r.value.0, rank, MAX_DEPTH - depth)
  }

  lemma TookUp(ts: seq<Token>, r: Parsed, rank: nat, depth: nat)
    requires rank < 3 && Took([], ts, r, rank + 1, depth)
    ensures Took([], ts, r, rank, depth)
  {
    if r.Ok? {
      var used :| ts == used + r.value.1 && Derives([] + used, r.value.0, rank + 1, MAX_DEPTH - depth);
      DerivesUp([] + used, r.value.0, rank, MAX_DEPTH - depth);
    }
  }

  /** After an operator and its right operand the tail goes on with the larger front. */
  lemma TookOn(front: seq<Token>, ts: seq<Token>, lhs: Expr, op: Token, rhs: Parsed, x: Expr, r: Parsed, rank: nat, depth: nat)
    requires rank < 2 && ts != [] && ts[0] == op && rhs.Ok? && Took([], ts[1..], rhs, rank + 1, depth)
    requires Derives(front, lhs, rank, MAX_DEPTH - depth)
    requires Rank(x) == rank && x.lhs == lhs && x.rhs == rhs.value.0 && OpOf(x) == op
    requires forall more :: Derives(more, x, rank, MAX_DEPTH - depth) ==> Took(more, rhs.value.1, r, rank, depth)
    ensures Took(front, ts, r, rank, depth)
  {
    var room := MAX_DEPTH - depth;
    var used :| ts[1..] == used + rhs.value.1 && Derives([] + used, rhs.value.0, rank + 1, room);
    assert [] + used == used;
    DerivesBinary(front, used, x, rank, room);
    var more := front + [op] + used;
    assert Derives(more, x, rank, MAX_DEPTH - depth);
    assert Took(more, rhs.value.1, r, rank, depth);
    if r.Ok? {
      var rest :| rhs.value.1 == rest + r.value.1 && Derives(more + rest, r.value.0, rank, room);
      assert ts == [op] + used + rest + r.value.1;
      assert more + rest == front + ([op] + used + rest);
      assert ts == ([op] + used + rest) + r.value.1;
    }
  }

  lemma {:induction false} AdditiveDerives(ts: seq<Token>, depth: nat)
    ensures Took([], ts, ParseAdditive(ts, depth), 0, depth)
    decreases |ts|, 4
  {
    MultiplicativeDerives(ts, depth);
    var p := ParseMultiplicative(ts, depth);
    if p.Ok? {
      TookUp(ts, p, 0, depth);
      var used :| ts == used + p.value.1 && Derives([] + used, p.value.0, 0, MAX_DEPTH - depth);
      AdditiveTailDerives([] + used, p.value.0, p.value.1, depth);
      TookAfter(used, ts, p.value.1, ParseAdditive(ts, depth), 0, depth);
    }
  }

  lemma TookAfter(used: seq<Token>, ts: seq<Token>, tail: seq<Token>, r: Parsed, rank: nat, depth: nat)
    requires rank <= 3 && ts == used + tail && Took([] + used, tail, r, rank, depth)
    ensures Took([], ts, r, rank, depth)
  {
    if r.Ok? {
      var more :| tail == more + r.value.1 && Derives([] + used + more, r.value.0, rank, MAX_DEPTH - depth);
      assert [] + used + more == [] + (used + more);
      assert ts == (used + more) + r.value.1;
    }
  }

  lemma {:induction false} AdditiveTailDerives(front: seq<Token>, lhs: Expr, ts: seq<Token>, depth: nat)
    requires Derives(front, lhs, 0, MAX_DEPTH - depth)
    ensures Took(front, ts, AdditiveTail(lhs, ts, depth), 0, depth)
    decreases |ts|, 0
  {
    if ts != [] && (ts[0] == Plus || ts[0] == Minus) {
      MultiplicativeDerives(ts[1..], depth);
      var p := ParseMultiplicative(ts[1..], depth);
      if p.Ok? {
        var x := if ts[0] == Plus then Add(lhs, p.value.0) else Sub(lhs, p.value.0);
        forall more | Derives(more, x, 0, MAX_DEPTH - depth)
          ensures Took(more, p.value.1, AdditiveTail(x, p.value.1, depth), 0, depth)
        {
          AdditiveTailDerives(more, x, p.value.1, depth);
        }
        TookOn(front, ts, lhs, ts[0], p, x, AdditiveTail(x, p.value.1, depth), 0, depth);
      }
    } else {
      TookNothing(front, lhs, ts, 0, depth);
    }
  }

  lemma TookNothing(front: seq<Token>, x: Expr, ts: seq<Token>, rank: nat, depth: nat)
    requires rank <= 3 && Derives(front, x, rank, MAX_DEPTH - depth)
    ensures Took(front, ts, Ok((x, ts)), rank, depth)
  {
    assert ts == [] + ts && front + [] == front;
  }

  lemma {:induction false} MultiplicativeDerives(ts: seq<Token>, depth: nat)
    ensures Took([], ts, ParseMultiplicative(ts, depth), 1, depth)
    decreases |ts|, 3
  {
    UnaryDerives(ts, depth);
    var p := ParseUnary(ts, depth);
    if p.Ok? {
      TookUp(ts, p, 1, depth);
      var used :| ts == used + p.value.1 && Derives([] + used, p.value.0, 1, MAX_DEPTH - depth);
      MultiplicativeTailDerives([] + used, p.value.0, p.value.1, depth);
      TookAfter(used, ts, p.value.1, ParseMultiplicative(ts, depth), 1, depth);
    }
  }

  lemma {:induction false} MultiplicativeTailDerives(front: seq<Token>, lhs: Expr, ts: seq<Token>, depth: nat)
    requires Derives(front, lhs, 1, MAX_DEPTH - depth)
    ensures Took(front, ts, MultiplicativeTail(lhs, ts, depth), 1, depth)
    decreases |ts|, 0
  {
    if ts != [] && IsMulOp(ts[0]) {
      UnaryDerives(ts[1..], depth);
      var p := ParseUnary(ts[1..], depth);
      if p.Ok? {
        var x := MulOp(ts[0], lhs, p.value.0);
        forall more | Derives(more, x, 1, MAX_DEPTH - depth)
          ensures Took(more, p.value.1, MultiplicativeTail(x, p.value.1, depth), 1, depth)
        {
          MultiplicativeTailDerives(more, x, p.value.1, depth);
        }
        TookOn(front, ts, lhs, ts[0], p, x, MultiplicativeTail(x, p.value.1, depth), 1, depth);
      }
    } else {
      TookNothing(front, lhs, ts, 1, depth);
    }
  }

  lemma {:induction false} UnaryDerives(ts: seq<Token>, depth: nat)
    ensures Took([], ts, ParseUnary(ts, depth), 2, depth)
    decreases |ts|, 2
  {
    if depth <= MAX_DEPTH && ts != [] && ts[0] == Minus {
      UnaryDerives(ts[1..], depth + 1);
      var p := ParseUnary(ts[1..], depth + 1);
      if p.Ok? {
        var used :| ts[1..] == used + p.value.1 && Derives([] + used, p.value.0, 2, MAX_DEPTH - depth - 1);
        SignTaken(ts, used, p.value.0, p.value.1, depth);
      }
    } else {
      PrimaryDerives(ts, depth);
      TookUp(ts, ParsePrimary(ts, depth), 2, depth);
    }
  }

  lemma SignTaken(ts: seq<Token>, used: seq<Token>, x: Expr, rest: seq<Token>, depth: nat)
    requires depth <= MAX_DEPTH && ts != [] && ts[0] == Minus && ts[1..] == used + rest
    requires Derives([] + used, x, 2, MAX_DEPTH - depth - 1)
    ensures Took([], ts, Ok((Negate(x), rest)), 2, depth)
  {
    var all := [] + ([Minus] + used);
    assert all[1..] == [] + used && Signed(all, Negate(x));
    assert ts == ([Minus] + used) + rest;
  }

  lemma {:induction false} PrimaryDerives(ts: seq<Token>, depth: nat)
    ensures Took([], ts, ParsePrimary(ts, depth), 3, depth)
    decreases |ts|, 1
  {
    var r := ParsePrimary(ts, depth);
    if r.Ok? && (ts[0] == OpenParen || ts[0] == OpenBracket) {
      AdditiveDerives(ts[1..], depth + 1);
      var p := ParseAdditive(ts[1..], depth + 1);
      var used :| ts[1..] == used + p.value.1 && Derives([] + used, p.value.0, 0, MAX_DEPTH - depth - 1);
      WrappedTaken(ts, used, p.value.0, p.value.1, depth, r);
    } else if r.Ok? {
      LiteralTaken(ts, r, depth);
    }
  }

  lemma LiteralTaken(ts: seq<Token>, r: Parsed, depth: nat)
    requires depth <= MAX_DEPTH && ts != [] && r.Ok? && r == ParsePrimary(ts, depth)
    requires ts[0] != OpenParen && ts[0] != OpenBracket
    ensures Took([], ts, r, 3, depth)
  {
    assert ts == [ts[0]] + ts[1..] && [] + [ts[0]] == [ts[0]];
    assert IsLiteral([ts[0]], r.value.0);
  }

  lemma WrappedTaken(ts: seq<Token>, used: seq<Token>, x: Expr, tail: seq<Token>, depth: nat, r: Parsed)
    requires depth <= MAX_DEPTH && ts != [] && (ts[0] == OpenParen || ts[0] == OpenBracket) && r.Ok?
    requires ts[1..] == used + tail && Derives([] + used, x, 0, MAX_DEPTH - depth - 1)
    requires r == if ts[0] == OpenParen then Expect(CloseParen, x, tail) else Expect(CloseBracket, Deref(x), tail)
    ensures Took([], ts, r, 3, depth)
  {
    assert [] + used == used;
    DerivesWrapped(used, x, ts[0], MAX_DEPTH - depth);
    WrappedSplit(ts, used, tail);
    TookAll([ts[0]] + used + [tail[0]], ts, r.value.0, r.value.1, 3, depth);
  }

  lemma WrappedSplit(ts: seq<Token>, used: seq<Token>, tail: seq<Token>)
    requires ts != [] && tail != [] && ts[1..] == used + tail
    ensures ts == [ts[0]] + used + [tail[0]] + tail[1..]
  {
    assert ts == [ts[0]] + ts[1..] && tail == [tail[0]] + tail[1..];
  }

  lemma TookAll(used: seq<Token>, ts: seq<Token>, x: Expr, rest: seq<Token>, rank: nat, depth: nat)
    requires rank <= 3 && ts == used + rest && Derives(used, x, rank, MAX_DEPTH - depth)
    ensures Took([], ts, Ok((x, rest)), rank, depth)
  {
    assert [] + used == used;
  }

  // ----- What derives the parser takes ---------------------------------------------

  /** After `ts` and before `rest` the parser of this rank has read exactly `x`. */
  ghost predicate Reads(ts: seq<Token>, x: Expr, rest: seq<Token>, rank: nat, depth: nat) {
    match rank
    case 0 => Stops(rest) ==> ParseAdditive(ts + rest, depth) == AdditiveTail(x, rest, depth)
    case 1 => ParseMultiplicative(ts + rest, depth) == MultiplicativeTail(x, rest, depth)
    case _ => ParseUnary(ts + rest, depth) == Ok((x, rest))
  }

  lemma {:induction false} DerivedIsRead(ts: seq<Token>, x: Expr, rest: seq<Token>, rank: nat, depth: nat)
    requires rank <= 3 && Derives(ts, x, rank, MAX_DEPTH - depth)
    ensures Reads(ts, x, rest, rank, depth)
    decreases |ts|, 3 - rank
  {
    var room := MAX_DEPTH - depth;
    if rank < 3 && Derives(ts, x, rank + 1, room) {
      DerivedIsRead(ts, x, rest, rank + 1, depth);
    } else if rank < 2 {
      SplitIsRead(ts, x, rest, rank, depth);
    } else if rank == 2 {
      DerivedIsRead(ts[1..], x.inner, rest, 2, depth + 1);
      SignIsRead(ts, x, rest, depth);
    } else {
      PrimaryIsRead(ts, x, rest, depth);
    }
  }

  lemma {:induction false} SplitIsRead(ts: seq<Token>, x: Expr, rest: seq<Token>, rank: nat, depth: nat)
    requires rank < 2 && Derives(ts, x, rank, MAX_DEPTH - depth) && !Derives(ts, x, rank + 1, MAX_DEPTH - depth)
    ensures Reads(ts, x, rest, rank, depth)
    decreases |ts|, -1
  {
    var i := SplitOf(ts, x, rank, MAX_DEPTH - depth);
    var l, r := ts[..i], ts[i + 1..];
    DerivedIsRead(l, x.lhs, [OpOf(x)] + r + rest, rank, depth);
    DerivedIsRead(r, x.rhs, rest, rank + 1, depth);
    BinaryIsRead(l, r, x, rest, rank, depth);
  }

  lemma SplitOf(ts: seq<Token>, x: Expr, rank: nat, room: int) returns (i: nat)
    requires rank < 2 && Derives(ts, x, rank, room) && !Derives(ts, x, rank + 1, room)
    ensures Splits(ts, x, rank, i) && Derives(ts[..i], x.lhs, rank, room) && Derives(ts[i + 1..], x.rhs, rank + 1, room)
    ensures ts == ts[..i] + [OpOf(x)] + ts[i + 1..]
  {
    i :| Splits(ts, x, rank, i) && Derives(ts[..i], x.lhs, rank, room) && Derives(ts[i + 1..], x.rhs, rank + 1, room);
  }

  lemma BinaryIsRead(l: seq<Token>, r: seq<Token>, x: Expr, rest: seq<Token>, rank: nat, depth: nat)
    requires Rank(x) == rank < 2
    requires Reads(l, x.lhs, [OpOf(x)] + r + rest, rank, depth) && Reads(r, x.rhs, rest, rank + 1, depth)
    ensures Reads(l + [OpOf(x)] + r, x, rest, rank, depth)
  {
    assert l + [OpOf(x)] + r + rest == l + ([OpOf(x)] + r + rest);
    if rank == 0 {
      if Stops(rest) {
        AdditiveStep(x.lhs, x, r, rest, depth);
      }
    } else {
      MultiplicativeStep(x.lhs, x, r, rest, depth);
    }
  }

  lemma SignIsRead(ts: seq<Token>, x: Expr, rest: seq<Token>, depth: nat)
    requires depth <= MAX_DEPTH && Signed(ts, x) && Reads(ts[1..], x.inner, rest, 2, depth + 1)
    ensures Reads(ts, x, rest, 2, depth)
  {
    assert (ts + rest)[0] == Minus && (ts + rest)[1..] == ts[1..] + rest;
  }

  lemma {:induction false} PrimaryIsRead(ts: seq<Token>, x: Expr, rest: seq<Token>, depth: nat)
    requires Derives(ts, x, 3, MAX_DEPTH - depth)
    ensures Reads(ts, x, rest, 3, depth)
    decreases |ts|, -1
  {
    if IsLiteral(ts, x) {
      assert (ts + rest)[0] == ts[0] && (ts + rest)[1..] == rest;
    } else {
      var open := ts[0];
      var close := if open == OpenParen then CloseParen else CloseBracket;
      var y := if open == OpenParen then x else x.inner;
      DerivedIsRead(Inside(ts), y, [close] + rest, 0, depth + 1);
      assert ts == [open] + (Inside(ts) + [close]);
      ParseGroup(open, close, Inside(ts), y, rest, depth, false);
    }
  }

  /** The parser accepts `ts` as `x` exactly when the grammar derives it. */
  lemma AcceptsIffDerives(ts: seq<Token>, x: Expr)
    ensures ParseTokens(ts) == Ok(x) <==> Derives(ts, x, 0, 128)
  {
    AdditiveDerives(ts, 0);
    if ParseTokens(ts) == Ok(x) {
      var used :| ts == used + [] && Derives([] + used, x, 0, MAX_DEPTH);
      assert [] + used == ts;
    }
    if Derives(ts, x, 0, MAX_DEPTH) {
      DerivedIsRead(ts, x, [], 0, 0);
      assert ts + [] == ts;
    }
  }

  /** So no list of tokens has two meanings. */
  lemma OneMeaning(ts: seq<Token>, x: Expr, y: Expr)
    requires Derives(ts, x, 0, 128) && Derives(ts, y, 0, 128)
    ensures x == y
  {
    AcceptsIffDerives(ts, x);
    AcceptsIffDerives(ts, y);
  }
}
