/** Printed formulas read back: how the texts produced by `to_formula`
    (crates/nemclass-scan/src/pointerscan.rs, crates/nemclass-scan/src/spider.rs)
    tokenize and parse. */
module FormulaText {
  import opened Formula

  // ----- Texts, tokens and expressions of the printed forms ------------------

  function HexDigitOf(n: nat): (c: char)
    requires n < 16
    ensures IsHexDigit(c) && DigitValue(c) == n
  {
    if n < 10 then '0' + n as char else 'a' + (n - 10) as char
  }

  /** The same in upper case. */
  function UpperDigitOf(n: nat): (c: char)
    requires n < 16
    ensures IsHexDigit(c) && DigitValue(c) == n
  {
    if n < 10 then '0' + n as char else 'A' + (n - 10) as char
  }

  function HexDigits(n: nat): (s: string)
    ensures s != [] && forall i :: 0 <= i < |s| ==> IsHexDigit(s[i])
  {
    if n < 16 then [HexDigitOf(n)] else HexDigits(n / 16) + [HexDigitOf(n % 16)]
  }

  /** `{:#x}` */
  function Hex(n: nat): string {
    "0x" + HexDigits(n)
  }

  /** What a printed chain starts from. */
  datatype Anchor = InModule(name: string, offset: nat) | Raw(root: nat)

  function AnchorText(a: Anchor): string {
    match a
    case InModule(name, off) =>
      if off == 0 then "<" + name + ">" else "<" + name + ">" + (" + " + Hex(off))
    case Raw(root) => Hex(root)
  }

  function AnchorTokens(a: Anchor): seq<Token> {
    match a
    case InModule(name, off) =>
      if off == 0 then [Identifier(name)] else [Identifier(name), Plus, Number(off)]
    case Raw(root) => [Number(root)]
  }

  function AnchorExpr(a: Anchor): Expr {
    match a
    case InModule(name, off) =>
      if off == 0 then Module(name) else Add(Module(name), Constant(off))
    case Raw(root) => Constant(root)
  }

  predicate AnchorFits(a: Anchor) {
    match a case InModule(_, off) => off <= I64_MAX case Raw(root) => root <= I64_MAX
  }

  predicate Closed(a: Anchor) {
    a.InModule? ==> '>' !in a.name
  }

  predicate AllFit(offsets: seq<nat>) {
    forall i :: 0 <= i < |offsets| ==> offsets[i] <= I64_MAX
  }

  /** `[...[[anchor] + o0] + o1...] + on` */
  function PointerText(a: Anchor, offsets: seq<nat>): string {
    if offsets == [] then AnchorText(a)
    else
      var n := |offsets| - 1;
      "[" + (PointerText(a, offsets[..n]) + ("]" + (" + " + Hex(offsets[n]))))
  }

  function PointerTokens(a: Anchor, offsets: seq<nat>): seq<Token> {
    if offsets == [] then AnchorTokens(a)
    else
      var n := |offsets| - 1;
      [OpenBracket] + (PointerTokens(a, offsets[..n]) + [CloseBracket, Plus, Number(offsets[n])])
  }

  function PointerExpr(a: Anchor, offsets: seq<nat>): Expr {
    if offsets == [] then AnchorExpr(a)
    else
      var n := |offsets| - 1;
      Add(Deref(PointerExpr(a, offsets[..n])), Constant(offsets[n]))
  }

  /** `[...[[anchor + p0] + p1]...]` */
  function ParentText(a: Anchor, parents: seq<nat>): string {
    if parents == [] then AnchorText(a)
    else
      var n := |parents| - 1;
      "[" + (ParentText(a, parents[..n]) + ((" + " + Hex(parents[n])) + "]"))
  }

  function ParentTokens(a: Anchor, parents: seq<nat>): seq<Token> {
    if parents == [] then AnchorTokens(a)
    else
      var n := |parents| - 1;
      [OpenBracket] + (ParentTokens(a, parents[..n]) + [Plus, Number(parents[n]), CloseBracket])
  }

  function ParentExpr(a: Anchor, parents: seq<nat>): Expr {
    if parents == [] then AnchorExpr(a)
    else
      var n := |parents| - 1;
      Deref(Add(ParentExpr(a, parents[..n]), Constant(parents[n])))
  }

  // ----- Tokenizing ------------------------------------------------------------

  /** `s` cannot extend a hex literal printed before it. */
  predicate Breaks(s: string) {
    s == [] || !IsHexDigit(s[0])
  }

  lemma {:induction false} RunAppend(a: string, b: string, p: char -> bool)
    requires forall i :: 0 <= i < |a| ==> p(a[i])
    requires b == [] || !p(b[0])
    ensures Run(a + b, p) == |a|
  {
    if a == [] {
      assert a + b == b;
    } else {
      assert (a + b)[1..] == a[1..] + b;
      RunAppend(a[1..], b, p);
    }
  }

  lemma {:induction false} HexReadsBack(n: nat)
    ensures Radix(HexDigits(n), 16) == n
  {
    if n < 16 {
      assert [HexDigitOf(n)][..0] == [];
    } else {
      HexReadsBack(n / 16);
      var s := HexDigits(n);
      assert s[..|s| - 1] == HexDigits(n / 16);
    }
  }

  lemma LexHex(n: nat, rest: string)
    requires Breaks(rest)
    ensures LexNumber(Hex(n) + rest) ==
      if n <= I64_MAX then Ok((Number(n), |Hex(n)|)) else Err(BadNumber)
  {
    var s, digits := Hex(n) + rest, HexDigits(n);
    assert s[0] == '0' && s[1] == 'x' && s[2..] == digits + rest;
    RunAppend(digits, rest, IsHexDigit);
    assert s[2..][..|digits|] == digits;
    HexReadsBack(n);
  }

  lemma TokensOfHex(n: nat, rest: string)
    requires Breaks(rest)
    ensures Tokens(Hex(n) + rest) ==
      if n <= I64_MAX then Prepend(Number(n), Tokens(rest)) else Err(BadNumber)
  {
    var s := Hex(n) + rest;
    assert s[0] == '0';
    LexHex(n, rest);
    assert s[|Hex(n)|..] == rest;
  }

  lemma TokensOfOperator(c: char, rest: string)
    requires Operator(c).Some?
    ensures Tokens([c] + rest) == Prepend(Operator(c).value, Tokens(rest))
  {
    var s := [c] + rest;
    assert s[0] == c && s[1..] == rest;
    LexOperator(s);
  }

  lemma LexOperator(s: string)
    requires s != [] && Operator(s[0]).Some?
    ensures Tokens(s) == Prepend(Operator(s[0]).value, Tokens(s[1..]))
  {
    assert LexOne(s) == Ok((Operator(s[0]).value, 1));
  }

  lemma TokensOfSpace(rest: string)
    ensures Tokens(" " + rest) == Tokens(rest)
  {
    assert (" " + rest)[1..] == rest;
  }

  lemma TokensOfPlusHex(n: nat, rest: string)
    requires Breaks(rest)
    ensures Tokens((" + " + Hex(n)) + rest) ==
      if n <= I64_MAX then After([Plus, Number(n)], Tokens(rest)) else Err(BadNumber)
  {
    var t := Hex(n) + rest;
    assert (" + " + Hex(n)) + rest == " " + (['+'] + (" " + t));
    TokensOfSpace(['+'] + (" " + t));
    TokensOfOperator('+', " " + t);
    TokensOfSpace(t);
    TokensOfHex(n, rest);
    if n <= I64_MAX {
      var r := Tokens(rest);
      if r.Ok? {
        assert [Plus] + ([Number(n)] + r.value) == [Plus, Number(n)] + r.value;
      }
    }
  }

  lemma TokensOfName(name: string, rest: string)
    requires '>' !in name
    ensures Tokens("<" + name + ">" + rest) == Prepend(Identifier(name), Tokens(rest))
  {
    var s := "<" + name + ">" + rest;
    assert s[0] == '<' && s[1..] == name + (">" + rest);
    var p := c => c != '>';
    RunAppend(name, ">" + rest, p);
    RunOfEqual(s[1..], p, '>');
    assert s[1..][..|name|] == name;
    assert LexName(s[1..], '>') == Ok((Identifier(name), |name|));
    assert LexOne(s) == Ok((Identifier(name), |name| + 2));
    assert s[|name| + 2..] == rest;
  }

  lemma TokensOfAnchor(a: Anchor, rest: string)
    requires Closed(a) && Breaks(rest)
    ensures Tokens(AnchorText(a) + rest) ==
      if AnchorFits(a) then After(AnchorTokens(a), Tokens(rest)) else Err(BadNumber)
  {
    match a
    case Raw(root) =>
      TokensOfHex(root, rest);
    case InModule(name, off) =>
      if off == 0 {
        TokensOfName(name, rest);
      } else {
        var tail := (" + " + Hex(off)) + rest;
        assert AnchorText(a) + rest == "<" + name + ">" + tail;
        TokensOfName(name, tail);
        TokensOfPlusHex(off, rest);
        PrependAfter(Identifier(name), [Plus, Number(off)], Tokens(rest));
        assert [Identifier(name)] + [Plus, Number(off)] == AnchorTokens(a);
      }
  }

  lemma AfterAfter(ts: seq<Token>, us: seq<Token>, r: Result<seq<Token>, ParseError>)
    ensures After(ts, After(us, r)) == After(ts + us, r)
  {
    if r.Ok? {
      assert ts + (us + r.value) == ts + us + r.value;
    }
  }

  lemma BracketThenPlus(inner: seq<Token>, n: nat, r: Result<seq<Token>, ParseError>)
    ensures Prepend(OpenBracket, After(inner, Prepend(CloseBracket, After([Plus, Number(n)], r))))
         == After([OpenBracket] + (inner + [CloseBracket, Plus, Number(n)]), r)
  {
    PrependAfter(CloseBracket, [Plus, Number(n)], r);
    assert [CloseBracket] + [Plus, Number(n)] == [CloseBracket, Plus, Number(n)];
    AfterAfter(inner, [CloseBracket, Plus, Number(n)], r);
    PrependAfter(OpenBracket, inner + [CloseBracket, Plus, Number(n)], r);
  }

  lemma PlusThenBracket(inner: seq<Token>, n: nat, r: Result<seq<Token>, ParseError>)
    ensures Prepend(OpenBracket, After(inner, After([Plus, Number(n)], Prepend(CloseBracket, r))))
         == After([OpenBracket] + (inner + [Plus, Number(n), CloseBracket]), r)
  {
    AfterPrepend([Plus, Number(n)], CloseBracket, r);
    assert [Plus, Number(n)] + [CloseBracket] == [Plus, Number(n), CloseBracket];
    AfterAfter(inner, [Plus, Number(n), CloseBracket], r);
    PrependAfter(OpenBracket, inner + [Plus, Number(n), CloseBracket], r);
  }

  lemma TokensOfCloseBracket(rest: string)
    ensures Tokens("]" + rest) == Prepend(CloseBracket, Tokens(rest))
  {
    TokensOfOperator(']', rest);
    assert "]" == [']'];
  }

  /** `good ==> ok`, with every failure a literal that does not fit. */
  function Unless(good: bool, r: Result<seq<Token>, ParseError>): Result<seq<Token>, ParseError> {
    if good then r else Err(BadNumber)
  }

  lemma TokensOfPointerStep(inner: string, its: seq<Token>, good: bool, n: nat, rest: string)
    requires Breaks(rest)
    requires var tail := "]" + ((" + " + Hex(n)) + rest);
             Tokens(inner + tail) == Unless(good, After(its, Tokens(tail)))
    ensures Tokens(['['] + (inner + ("]" + ((" + " + Hex(n)) + rest)))) ==
      Unless(good && n <= I64_MAX, After([OpenBracket] + (its + [CloseBracket, Plus, Number(n)]), Tokens(rest)))
  {
    var tail := "]" + ((" + " + Hex(n)) + rest);
    TokensOfOperator('[', inner + tail);
    TokensOfPointerTail(n, rest, tail);
    BracketThenPlus(its, n, Tokens(rest));
  }

  lemma TokensOfPointerTail(n: nat, rest: string, tail: string)
    requires Breaks(rest) && tail == "]" + ((" + " + Hex(n)) + rest)
    ensures Tokens(tail) == Unless(n <= I64_MAX, Prepend(CloseBracket, After([Plus, Number(n)], Tokens(rest))))
  {
    TokensOfCloseBracket((" + " + Hex(n)) + rest);
    TokensOfPlusHex(n, rest);
  }

  lemma TokensOfParentStep(inner: string, its: seq<Token>, good: bool, n: nat, rest: string)
    requires var tail := (" + " + Hex(n)) + ("]" + rest);
             Tokens(inner + tail) == Unless(good, After(its, Tokens(tail)))
    ensures Tokens(['['] + (inner + ((" + " + Hex(n)) + ("]" + rest)))) ==
      Unless(good && n <= I64_MAX, After([OpenBracket] + (its + [Plus, Number(n), CloseBracket]), Tokens(rest)))
  {
    TokensOfOperator('[', inner + ((" + " + Hex(n)) + ("]" + rest)));
    TokensOfPlusHex(n, "]" + rest);
    TokensOfCloseBracket(rest);
    PlusThenBracket(its, n, Tokens(rest));
  }

  lemma AllFitStep(offsets: seq<nat>)
    requires offsets != []
    ensures AllFit(offsets) <==> AllFit(offsets[..|offsets| - 1]) && offsets[|offsets| - 1] <= I64_MAX
  {
  }

  lemma {:induction false} TokensOfPointer(a: Anchor, offsets: seq<nat>, rest: string)
    requires Closed(a) && Breaks(rest)
    ensures Tokens(PointerText(a, offsets) + rest) ==
      Unless(AnchorFits(a) && AllFit(offsets), After(PointerTokens(a, offsets), Tokens(rest)))
    decreases |offsets|
  {
    if offsets == [] {
      TokensOfAnchor(a, rest);
    } else {
      var n := |offsets| - 1;
      var inner := PointerText(a, offsets[..n]);
      var tail := "]" + ((" + " + Hex(offsets[n])) + rest);
      assert PointerText(a, offsets) + rest == ['['] + (inner + tail);
      TokensOfPointer(a, offsets[..n], tail);
      AllFitStep(offsets);
      TokensOfPointerStep(inner, PointerTokens(a, offsets[..n]), AnchorFits(a) && AllFit(offsets[..n]),
                          offsets[n], rest);
    }
  }

  lemma {:induction false} TokensOfParents(a: Anchor, parents: seq<nat>, rest: string)
    requires Closed(a) && Breaks(rest)
    ensures Tokens(ParentText(a, parents) + rest) ==
      Unless(AnchorFits(a) && AllFit(parents), After(ParentTokens(a, parents), Tokens(rest)))
    decreases |parents|
  {
    if parents == [] {
      TokensOfAnchor(a, rest);
    } else {
      var n := |parents| - 1;
      var inner := ParentText(a, parents[..n]);
      var tail := (" + " + Hex(parents[n])) + ("]" + rest);
      assert ParentText(a, parents) + rest == ['['] + (inner + tail);
      TokensOfParents(a, parents[..n], tail);
      AllFitStep(parents);
      TokensOfParentStep(inner, ParentTokens(a, parents[..n]), AnchorFits(a) && AllFit(parents[..n]),
                         parents[n], rest);
    }
  }

  // ----- Parsing ------------------------------------------------------------------

  /** `ts` does not continue a multiplicative expression. */
  predicate Stops(ts: seq<Token>) {
    ts == [] || !IsMulOp(ts[0])
  }

  lemma TooDeepAtOnce(ts: seq<Token>, depth: nat)
    requires depth > MAX_DEPTH
    ensures ParseAdditive(ts, depth) == Err(NestedTooDeeply)
  {
    assert ParseUnary(ts, depth) == Err(NestedTooDeeply);
    assert ParseMultiplicative(ts, depth) == Err(NestedTooDeeply);
  }

  lemma ParseLeaf(t: Token, x: Expr, rest: seq<Token>, depth: nat)
    requires depth <= MAX_DEPTH && Stops(rest)
    requires (t.Number? && x == Constant(t.value)) || (t.Identifier? && x == Module(t.name))
    ensures ParseMultiplicative([t] + rest, depth) == Ok((x, rest))
    ensures ParseAdditive([t] + rest, depth) == AdditiveTail(x, rest, depth)
  {
    assert ([t] + rest)[1..] == rest;
    assert ParsePrimary([t] + rest, depth) == Ok((x, rest));
  }

  lemma TailPlusNumber(lhs: Expr, n: nat, rest: seq<Token>, depth: nat)
    requires depth <= MAX_DEPTH && Stops(rest)
    ensures AdditiveTail(lhs, [Plus, Number(n)] + rest, depth)
         == AdditiveTail(Add(lhs, Constant(n)), rest, depth)
  {
    assert ([Plus, Number(n)] + rest)[1..] == [Number(n)] + rest;
    ParseLeaf(Number(n), Constant(n), rest, depth);
  }

  /** A bracketed expression is a dereference, or inherits its content's error. */
  lemma ParseBracket(inner: seq<Token>, x: Expr, rest: seq<Token>, depth: nat)
    requires depth <= MAX_DEPTH && Stops(rest)
    ensures ParseAdditive(inner + ([CloseBracket] + rest), depth + 1) == Ok((x, [CloseBracket] + rest)) ==>
      ParseAdditive([OpenBracket] + (inner + ([CloseBracket] + rest)), depth) == AdditiveTail(Deref(x), rest, depth)
    ensures ParseAdditive(inner + ([CloseBracket] + rest), depth + 1).Err? ==>
      ParseAdditive([OpenBracket] + (inner + ([CloseBracket] + rest)), depth)
        == ParseAdditive(inner + ([CloseBracket] + rest), depth + 1)
  {
    var body := inner + ([CloseBracket] + rest);
    var ts := [OpenBracket] + body;
    assert ts[0] == OpenBracket && ts[1..] == body;
    assert ([CloseBracket] + rest)[1..] == rest;
    var p := ParseAdditive(body, depth + 1);
    if p == Ok((x, [CloseBracket] + rest)) {
      assert ParsePrimary(ts, depth) == Ok((Deref(x), rest));
      assert ParseUnary(ts, depth) == Ok((Deref(x), rest));
      assert ParseMultiplicative(ts, depth) == Ok((Deref(x), rest));
    } else if p.Err? {
      assert ParsePrimary(ts, depth) == Err(p.error);
      assert ParseUnary(ts, depth) == Err(p.error);
      assert ParseMultiplicative(ts, depth) == Err(p.error);
    }
  }

  lemma ParseAnchor(a: Anchor, rest: seq<Token>, depth: nat)
    requires depth <= MAX_DEPTH && Stops(rest)
    ensures ParseAdditive(AnchorTokens(a) + rest, depth) == AdditiveTail(AnchorExpr(a), rest, depth)
  {
    match a
    case Raw(root) => ParseLeaf(Number(root), Constant(root), rest, depth);
    case InModule(name, off) =>
      if off == 0 {
        ParseLeaf(Identifier(name), Module(name), rest, depth);
      } else {
        var tail := [Plus, Number(off)] + rest;
        assert AnchorTokens(a) + rest == [Identifier(name)] + tail;
        ParseLeaf(Identifier(name), Module(name), tail, depth);
        TailPlusNumber(Module(name), off, rest, depth);
      }
  }

  lemma {:induction false} ParsePointer(a: Anchor, offsets: seq<nat>, rest: seq<Token>, depth: nat)
    requires Stops(rest)
    ensures ParseAdditive(PointerTokens(a, offsets) + rest, depth) ==
      if depth + |offsets| > MAX_DEPTH then Err(NestedTooDeeply)
      else AdditiveTail(PointerExpr(a, offsets), rest, depth)
    decreases |offsets|
  {
    if depth > MAX_DEPTH {
      TooDeepAtOnce(PointerTokens(a, offsets) + rest, depth);
    } else if offsets == [] {
      ParseAnchor(a, rest, depth);
    } else {
      var n := |offsets| - 1;
      var inner, x := PointerTokens(a, offsets[..n]), PointerExpr(a, offsets[..n]);
      var tail := [Plus, Number(offsets[n])] + rest;
      assert PointerTokens(a, offsets) + rest == [OpenBracket] + (inner + ([CloseBracket] + tail));
      ParsePointer(a, offsets[..n], [CloseBracket] + tail, depth + 1);
      ParseBracket(inner, x, tail, depth);
      TailPlusNumber(Deref(x), offsets[n], rest, depth);
    }
  }

  lemma {:induction false} ParseParents(a: Anchor, parents: seq<nat>, rest: seq<Token>, depth: nat)
    requires Stops(rest)
    ensures ParseAdditive(ParentTokens(a, parents) + rest, depth) ==
      if depth + |parents| > MAX_DEPTH then Err(NestedTooDeeply)
      else AdditiveTail(ParentExpr(a, parents), rest, depth)
    decreases |parents|
  {
    if depth > MAX_DEPTH {
      TooDeepAtOnce(ParentTokens(a, parents) + rest, depth);
    } else if parents == [] {
      ParseAnchor(a, rest, depth);
    } else {
      var n := |parents| - 1;
      var inner, x := ParentTokens(a, parents[..n]), ParentExpr(a, parents[..n]);
      var num, close := [Plus, Number(parents[n])], [CloseBracket] + rest;
      assert ParentTokens(a, parents) + rest == [OpenBracket] + ((inner + num) + close);
      assert (inner + num) + close == inner + (num + close);
      ParseParents(a, parents[..n], num + close, depth + 1);
      if depth + 1 <= MAX_DEPTH {
        TailPlusNumber(x, parents[n], close, depth + 1);
      }
      ParseBracket(inner + num, Add(x, Constant(parents[n])), rest, depth);
    }
  }

  // ----- The printed texts, whole ----------------------------------------------------

  /** A pointer-path formula parses exactly when its literals fit an `i64` and
      it nests at most `MAX_DEPTH` brackets. */
  lemma PointerTextParses(a: Anchor, offsets: seq<nat>)
    requires Closed(a)
    ensures ParseText(PointerText(a, offsets)) ==
      if !AnchorFits(a) || !AllFit(offsets) then Err(BadNumber)
      else if |offsets| > MAX_DEPTH then Err(NestedTooDeeply)
      else Ok(PointerExpr(a, offsets))
  {
    var text, ts := PointerText(a, offsets), PointerTokens(a, offsets);
    assert text + [] == text && ts + [] == ts;
    TokensOfPointer(a, offsets, []);
    ParsePointer(a, offsets, [], 0);
  }

  /** The same for a spider path, whose last offset is outside every bracket. */
  lemma ParentTextParses(a: Anchor, parents: seq<nat>, offset: nat)
    requires Closed(a)
    ensures ParseText(ParentText(a, parents) + (" + " + Hex(offset))) ==
      if !AnchorFits(a) || !AllFit(parents) || offset > I64_MAX then Err(BadNumber)
      else if |parents| > MAX_DEPTH then Err(NestedTooDeeply)
      else Ok(Add(ParentExpr(a, parents), Constant(offset)))
  {
    var tail := " + " + Hex(offset);
    assert tail + [] == tail;
    TokensOfParents(a, parents, tail);
    TokensOfPlusHex(offset, []);
    var ts, last := ParentTokens(a, parents), [Plus, Number(offset)];
    assert last + [] == last;
    ParseParents(a, parents, last, 0);
    TailPlusNumber(ParentExpr(a, parents), offset, [], 0);
  }
}
