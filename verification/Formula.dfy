/** The address-formula language: tokenizer, recursive-descent parser with a
    nesting limit, and wrapping evaluator (crates/nemclass-model/src/address).

    The specification functions work on the text or tokens still to be read.
    The `Tokenizer` and `Parser` classes keep a position, as the source does,
    and are proved to compute those functions. Text is a sequence of characters
    where the source has bytes of UTF-8; every delimiter is ASCII, so the cuts
    fall in the same places. */
module Formula {
  import opened Memory

  datatype Token =
    | Number(value: nat)
    | Identifier(name: string)
    | Plus | Minus | Star | Slash | Percent
    | OpenParen | CloseParen | OpenBracket | CloseBracket

  datatype Expr =
    | Constant(n: int)
    | Module(name: string)
    | Add(lhs: Expr, rhs: Expr)
    | Sub(lhs: Expr, rhs: Expr)
    | Mul(lhs: Expr, rhs: Expr)
    | Div(lhs: Expr, rhs: Expr)
    | Rem(lhs: Expr, rhs: Expr)
    | Negate(inner: Expr)
    | Deref(inner: Expr)

  datatype ParseError =
    | BadNumber | UnclosedIdentifier | UnexpectedCharacter
    | NestedTooDeeply | UnexpectedToken | UnexpectedEnd | TrailingTokens

  datatype EvalError = ModuleNotFound(name: string) | DivisionByZero | ModuloByZero | ReadFailed

  datatype Result<+T, +E> = Ok(value: T) | Err(error: E)

  const I64_MAX: nat := 0x7FFF_FFFF_FFFF_FFFF

  /** Deepest nesting the parser accepts. */
  const MAX_DEPTH: nat := 128

  // ----- Tokenizer ----------------------------------------------------------

  predicate IsSpace(c: char) {
    c == ' ' || c == '\t' || c == '\r' || c == '\n'
  }

  predicate IsDigit(c: char) {
    '0' <= c <= '9'
  }

  predicate IsHexDigit(c: char) {
    IsDigit(c) || 'a' <= c <= 'f' || 'A' <= c <= 'F'
  }

  function DigitValue(c: char): (v: nat)
    ensures IsHexDigit(c) ==> v < 16
    ensures IsDigit(c) ==> v < 10
  {
    if IsDigit(c) then c as int - '0' as int
    else if 'a' <= c <= 'f' then 10 + (c as int - 'a' as int)
    else if 'A' <= c <= 'F' then 10 + (c as int - 'A' as int)
    else 0
  }

  /** Length of the longest prefix of `s` whose characters all satisfy `p`. */
  function Run(s: string, p: char -> bool): (n: nat)
    ensures n <= |s| && (n < |s| ==> !p(s[n]))
    ensures forall i :: 0 <= i < n ==> p(s[i])
  {
    if s == [] || !p(s[0]) then 0 else 1 + Run(s[1..], p)
  }

  function Radix(s: string, radix: nat): nat {
    if s == [] then 0 else radix * Radix(s[..|s| - 1], radix) + DigitValue(s[|s| - 1])
  }

  /** `i64::from_str_radix` on a string of digits. */
  function ParseI64(s: string, radix: nat): Result<Token, ParseError> {
    if s == [] || Radix(s, radix) > I64_MAX then Err(BadNumber) else Ok(Number(Radix(s, radix)))
  }

  /** A number at the start of `s`, and how many characters it takes. */
  function LexNumber(s: string): (r: Result<(Token, nat), ParseError>)
    requires s != [] && IsDigit(s[0])
    ensures r.Ok? ==> 0 < r.value.1 <= |s|
  {
    if |s| > 1 && s[0] == '0' && (s[1] == 'x' || s[1] == 'X') then
      var n := Run(s[2..], IsHexDigit);
      match ParseI64(s[2..][..n], 16)
      case Ok(t) => Ok((t, n + 2))
      case Err(e) => Err(e)
    else
      var n := Run(s, IsDigit);
      match ParseI64(s[..n], 10)
      case Ok(t) => Ok((t, n))
      case Err(e) => Err(e)
  }

  /** A name up to the closing `quote`; `s` starts after the opening one. */
  function LexName(s: string, quote: char): (r: Result<(Token, nat), ParseError>)
    ensures r.Ok? ==> r.value.1 < |s|
  {
    var n := Run(s, c => c != quote);
    if n == |s| then Err(UnclosedIdentifier) else Ok((Identifier(s[..n]), n))
  }

  function Operator(c: char): Option<Token> {
    match c
    case '+' => Some(Plus)
    case '-' => Some(Minus)
    case '*' => Some(Star)
    case '/' => Some(Slash)
    case '%' => Some(Percent)
    case '(' => Some(OpenParen)
    case ')' => Some(CloseParen)
    case '[' => Some(OpenBracket)
    case ']' => Some(CloseBracket)
    case _ => None
  }

  /** One token at the start of `s`, and how many characters it takes. */
  function LexOne(s: string): (r: Result<(Token, nat), ParseError>)
    requires s != []
    ensures r.Ok? ==> 0 < r.value.1 <= |s|
  {
    if Operator(s[0]).Some? then Ok((Operator(s[0]).value, 1))
    else if s[0] == '<' || s[0] == '"' then
      match LexName(s[1..], if s[0] == '<' then '>' else '"')
      case Ok((t, n)) => Ok((t, n + 2))
      case Err(e) => Err(e)
    else if IsDigit(s[0]) then LexNumber(s)
    else Err(UnexpectedCharacter)
  }

  function Prepend<T, E>(x: T, r: Result<seq<T>, E>): Result<seq<T>, E> {
    match r case Ok(xs) => Ok([x] + xs) case Err(e) => Err(e)
  }

  /** The tokens of a text. */
  function Tokens(s: string): Result<seq<Token>, ParseError>
    decreases |s|
  {
    if s == [] then Ok([])
    else if IsSpace(s[0]) then Tokens(s[1..])
    else
      match LexOne(s)
      case Err(e) => Err(e)
      case Ok((t, n)) => Prepend(t, Tokens(s[n..]))
  }

  function After<T, E>(ts: seq<T>, r: Result<seq<T>, E>): Result<seq<T>, E> {
    match r case Ok(more) => Ok(ts + more) case Err(e) => Err(e)
  }

  class Tokenizer {
    const src: string
    var pos: nat

    constructor (input: string)
      ensures src == input && pos == 0
    {
      src, pos := input, 0;
    }

    /** Advances over the longest run of characters satisfying `p`. */
    method SkipRun(p: char -> bool)
      requires pos <= |src|
      modifies this
      ensures pos == old(pos) + Run(src[old(pos)..], p)
    {
      ghost var start := pos;
      while pos < |src| && p(src[pos])
        invariant start <= pos <= |src|
        invariant Run(src[start..], p) == pos - start + Run(src[pos..], p)
      {
        assert src[pos..][1..] == src[pos + 1..];
        pos := pos + 1;
      }
    }

    method ReadNumber() returns (r: Result<Token, ParseError>)
      requires pos < |src| && IsDigit(src[pos])
      modifies this
      ensures match LexNumber(src[old(pos)..])
              case Ok((t, n)) => r == Ok(t) && pos == old(pos) + n
              case Err(e) => r == Err(e)
    {
      ghost var s := src[pos..];
      var start := pos;
      if pos + 1 < |src| && src[pos] == '0' && (src[pos + 1] == 'x' || src[pos + 1] == 'X') {
        pos := pos + 2;
        var hexStart := pos;
        assert s[2..] == src[hexStart..];
        SkipRun(IsHexDigit);
        assert src[hexStart..pos] == s[2..][..pos - hexStart];
        r := ParseI64(src[hexStart..pos], 16);
      } else {
        SkipRun(IsDigit);
        assert src[start..pos] == s[..pos - start];
        r := ParseI64(src[start..pos], 10);
      }
    }

    /** `<...>` and `"..."`, which differ only in the closing character. */
    method ReadName(quote: char) returns (r: Result<Token, ParseError>)
      requires pos < |src|
      modifies this
      ensures match LexName(src[old(pos) + 1..], quote)
              case Ok((t, n)) => r == Ok(t) && pos == old(pos) + n + 2
              case Err(e) => r == Err(e)
    {
      pos := pos + 1;
      var start := pos;
      SkipRun(c => c != quote);
      RunOfEqual(src[start..], c => c != quote, quote);
      if pos == |src| {
        return Err(UnclosedIdentifier);
      }
      assert src[start..pos] == src[start..][..pos - start];
      r := Ok(Identifier(src[start..pos]));
      pos := pos + 1;
    }

    /** The token at the current, non-blank position. */
    method Next() returns (r: Result<Token, ParseError>)
      requires pos < |src| && !IsSpace(src[pos])
      modifies this
      ensures match LexOne(src[old(pos)..])
              case Ok((t, n)) => r == Ok(t) && pos == old(pos) + n
              case Err(e) => r == Err(e)
    {
      assert src[pos..][1..] == src[pos + 1..];
      if Operator(src[pos]).Some? {
        r := Ok(Operator(src[pos]).value);
        pos := pos + 1;
      } else if src[pos] == '<' {
        r := ReadName('>');
      } else if src[pos] == '"' {
        r := ReadName('"');
      } else if IsDigit(src[pos]) {
        r := ReadNumber();
      } else {
        r := Err(UnexpectedCharacter);
      }
    }

    /** Skips blanks and takes one token; `None` at the end of the text. */
    method NextToken() returns (r: Option<Result<Token, ParseError>>)
      requires pos <= |src|
      modifies this
      ensures r == None ==> Tokens(src[old(pos)..]) == Ok([])
      ensures r.Some? && r.value.Err? ==> Tokens(src[old(pos)..]) == Err(r.value.error)
      ensures r.Some? && r.value.Ok? ==> old(pos) < pos <= |src|
      ensures r.Some? && r.value.Ok? ==>
        Tokens(src[old(pos)..]) == Prepend(r.value.value, Tokens(src[pos..]))
    {
      ghost var before := pos;
      SkipSpace(src[before..]);
      SkipRun(IsSpace);
      assert src[before..][pos - before..] == src[pos..];
      if pos == |src| {
        return None;
      }
      ghost var here := pos;
      var tok := Next();
      assert tok.Ok? ==> src[here..][pos - here..] == src[pos..];
      r := Some(tok);
    }

    method Tokenize() returns (r: Result<seq<Token>, ParseError>)
      requires pos == 0
      modifies this
      ensures r == Tokens(src)
    {
      var tokens: seq<Token> := [];
      assert src[0..] == src;
      AfterNothing(Tokens(src));
      while true
        invariant pos <= |src|
        invariant After(tokens, Tokens(src[pos..])) == Tokens(src)
        decreases |src| - pos
      {
        var tok := NextToken();
        if tok.None? {
          assert tokens + [] == tokens;
          return Ok(tokens);
        }
        if tok.value.Err? {
          return Err(tok.value.error);
        }
        AfterPrepend(tokens, tok.value.value, Tokens(src[pos..]));
        tokens := tokens + [tok.value.value];
      }
    }
  }

  /** Two spellings of one predicate give the same run. */
  lemma {:induction false} RunOfEqual(s: string, p: char -> bool, quote: char)
    requires forall c :: p(c) <==> c != quote
    ensures Run(s, p) == Run(s, c => c != quote)
  {
    if s != [] && p(s[0]) {
      RunOfEqual(s[1..], p, quote);
    }
  }

  lemma {:induction false} SkipSpace(s: string)
    ensures Tokens(s) == Tokens(s[Run(s, IsSpace)..])
  {
    if s != [] && IsSpace(s[0]) {
      SkipSpace(s[1..]);
      assert s[1..][Run(s[1..], IsSpace)..] == s[Run(s, IsSpace)..];
    } else {
      assert s[0..] == s;
    }
  }

  lemma AfterNothing<T, E>(r: Result<seq<T>, E>)
    ensures After([], r) == r
  {
    if r.Ok? {
      assert [] + r.value == r.value;
    }
  }

  lemma PrependAfter<T, E>(t: T, ts: seq<T>, r: Result<seq<T>, E>)
    ensures Prepend(t, After(ts, r)) == After([t] + ts, r)
  {
    if r.Ok? {
      assert [t] + (ts + r.value) == [t] + ts + r.value;
    }
  }

  lemma AfterPrepend<T, E>(ts: seq<T>, t: T, r: Result<seq<T>, E>)
    ensures After(ts, Prepend(t, r)) == After(ts + [t], r)
  {
    if r.Ok? {
      assert ts + ([t] + r.value) == (ts + [t]) + r.value;
    }
  }

  // ----- Parser ---------------------------------------------------------------

  type Parsed = Result<(Expr, seq<Token>), ParseError>

  ghost predicate Consumes(r: Parsed, ts: seq<Token>) {
    r.Ok? ==> |r.value.1| < |ts|
  }

  function ParseAdditive(ts: seq<Token>, depth: nat): (r: Parsed)
    ensures Consumes(r, ts)
    decreases |ts|, 4
  {
    match ParseMultiplicative(ts, depth)
    case Err(e) => Err(e)
    case Ok((lhs, rest)) => AdditiveTail(lhs, rest, depth)
  }

  function AdditiveTail(lhs: Expr, ts: seq<Token>, depth: nat): (r: Parsed)
    ensures r.Ok? ==> |r.value.1| <= |ts|
    decreases |ts|, 0
  {
    if ts == [] || (ts[0] != Plus && ts[0] != Minus) then Ok((lhs, ts))
    else
      match ParseMultiplicative(ts[1..], depth)
      case Err(e) => Err(e)
      case Ok((rhs, rest)) =>
        AdditiveTail(if ts[0] == Plus then Add(lhs, rhs) else Sub(lhs, rhs), rest, depth)
  }

  function ParseMultiplicative(ts: seq<Token>, depth: nat): (r: Parsed)
    ensures Consumes(r, ts)
    decreases |ts|, 3
  {
    match ParseUnary(ts, depth)
    case Err(e) => Err(e)
    case Ok((lhs, rest)) => MultiplicativeTail(lhs, rest, depth)
  }

  predicate IsMulOp(t: Token) {
    t == Star || t == Slash || t == Percent
  }

  function MulOp(t: Token, lhs: Expr, rhs: Expr): Expr {
    if t == Star then Mul(lhs, rhs) else if t == Slash then Div(lhs, rhs) else Rem(lhs, rhs)
  }

  function MultiplicativeTail(lhs: Expr, ts: seq<Token>, depth: nat): (r: Parsed)
    ensures r.Ok? ==> |r.value.1| <= |ts|
    decreases |ts|, 0
  {
    if ts == [] || !IsMulOp(ts[0]) then Ok((lhs, ts))
    else
      match ParseUnary(ts[1..], depth)
      case Err(e) => Err(e)
      case Ok((rhs, rest)) => MultiplicativeTail(MulOp(ts[0], lhs, rhs), rest, depth)
  }

  function ParseUnary(ts: seq<Token>, depth: nat): (r: Parsed)
    ensures Consumes(r, ts)
    decreases |ts|, 2
  {
    if depth > MAX_DEPTH then Err(NestedTooDeeply)
    else if ts != [] && ts[0] == Minus then
      match ParseUnary(ts[1..], depth + 1)
      case Err(e) => Err(e)
      case Ok((inner, rest)) => Ok((Negate(inner), rest))
    else ParsePrimary(ts, depth)
  }

  function ParsePrimary(ts: seq<Token>, depth: nat): (r: Parsed)
    ensures Consumes(r, ts)
    decreases |ts|, 1
  {
    if depth > MAX_DEPTH then Err(NestedTooDeeply)
    else if ts == [] then Err(UnexpectedEnd)
    else
      match ts[0]
      case Number(n) => Ok((Constant(n), ts[1..]))
      case Identifier(s) => Ok((Module(s), ts[1..]))
      case OpenParen =>
        (match ParseAdditive(ts[1..], depth + 1)
         case Err(e) => Err(e)
         case Ok((inner, rest)) => Expect(CloseParen, inner, rest))
      case OpenBracket =>
        (match ParseAdditive(ts[1..], depth + 1)
         case Err(e) => Err(e)
         case Ok((inner, rest)) => Expect(CloseBracket, Deref(inner), rest))
      case _ => Err(UnexpectedToken)
  }

  function Expect(t: Token, x: Expr, ts: seq<Token>): (r: Parsed)
    ensures r.Ok? ==> |r.value.1| < |ts|
  {
    if ts == [] then Err(UnexpectedEnd)
    else if ts[0] != t then Err(UnexpectedToken)
    else Ok((x, ts[1..]))
  }

  /** Parsing a whole token list. */
  function ParseTokens(ts: seq<Token>): Result<Expr, ParseError> {
    match ParseAdditive(ts, 0)
    case Err(e) => Err(e)
    case Ok((x, rest)) => if rest == [] then Ok(x) else Err(TrailingTokens)
  }

  function ParseText(s: string): Result<Expr, ParseError> {
    match Tokens(s)
    case Err(e) => Err(e)
    case Ok(ts) => ParseTokens(ts)
  }

  class Parser {
    const tokens: seq<Token>
    var pos: nat

    constructor (tokens: seq<Token>)
      ensures this.tokens == tokens && pos == 0
    {
      this.tokens, pos := tokens, 0;
    }

    /** The method's answer and new position are what `spec` says of the tokens. */
    ghost predicate Reads(spec: Parsed, r: Result<Expr, ParseError>)
      reads this
    {
      && pos <= |tokens|
      && match spec
         case Err(e) => r == Err(e)
         case Ok((x, rest)) => r == Ok(x) && tokens[pos..] == rest
    }

    method Additive(depth: nat) returns (r: Result<Expr, ParseError>)
      requires pos <= |tokens|
      modifies this
      ensures Reads(ParseAdditive(tokens[old(pos)..], depth), r)
      decreases |tokens| - pos, 4
    {
      ghost var spec := ParseAdditive(tokens[pos..], depth);
      r := Multiplicative(depth);
      if r.Err? {
        return;
      }
      var lhs := r.value;
      while pos < |tokens| && (tokens[pos] == Plus || tokens[pos] == Minus)
        invariant old(pos) < pos <= |tokens|
        invariant spec == AdditiveTail(lhs, tokens[pos..], depth)
        decreases |tokens| - pos
      {
        var op := tokens[pos];
        assert tokens[pos..][1..] == tokens[pos + 1..];
        pos := pos + 1;
        r := Multiplicative(depth);
        if r.Err? {
          return;
        }
        lhs := if op == Plus then Add(lhs, r.value) else Sub(lhs, r.value);
      }
      r := Ok(lhs);
    }

    method Multiplicative(depth: nat) returns (r: Result<Expr, ParseError>)
      requires pos <= |tokens|
      modifies this
      ensures Reads(ParseMultiplicative(tokens[old(pos)..], depth), r)
      decreases |tokens| - pos, 3
    {
      ghost var spec := ParseMultiplicative(tokens[pos..], depth);
      r := Unary(depth);
      if r.Err? {
        return;
      }
      var lhs := r.value;
      while pos < |tokens| && IsMulOp(tokens[pos])
        invariant old(pos) < pos <= |tokens|
        invariant spec == MultiplicativeTail(lhs, tokens[pos..], depth)
        decreases |tokens| - pos
      {
        var op := tokens[pos];
        assert tokens[pos..][1..] == tokens[pos + 1..];
        pos := pos + 1;
        r := Unary(depth);
        if r.Err? {
          return;
        }
        lhs := MulOp(op, lhs, r.value);
      }
      r := Ok(lhs);
    }

    method Unary(depth: nat) returns (r: Result<Expr, ParseError>)
      requires pos <= |tokens|
      modifies this
      ensures Reads(ParseUnary(tokens[old(pos)..], depth), r)
      decreases |tokens| - pos, 2
    {
      if depth > MAX_DEPTH {
        return Err(NestedTooDeeply);
      }
      if pos < |tokens| && tokens[pos] == Minus {
        assert tokens[pos..][1..] == tokens[pos + 1..];
        pos := pos + 1;
        r := Unary(depth + 1);
        if r.Ok? {
          r := Ok(Negate(r.value));
        }
        return;
      }
      r := Primary(depth);
    }

    method Primary(depth: nat) returns (r: Result<Expr, ParseError>)
      requires pos <= |tokens|
      modifies this
      ensures Reads(ParsePrimary(tokens[old(pos)..], depth), r)
      decreases |tokens| - pos, 1
    {
      if depth > MAX_DEPTH {
        return Err(NestedTooDeeply);
      }
      if pos == |tokens| {
        return Err(UnexpectedEnd);
      }
      var tok := tokens[pos];
      assert tokens[pos..][1..] == tokens[pos + 1..];
      if tok.Number? {
        pos := pos + 1;
        r := Ok(Constant(tok.value));
      } else if tok.Identifier? {
        pos := pos + 1;
        r := Ok(Module(tok.name));
      } else if tok == OpenParen || tok == OpenBracket {
        pos := pos + 1;
        r := Additive(depth + 1);
        if r.Ok? {
          var closed := Close(if tok == OpenParen then CloseParen else CloseBracket);
          r := if closed.Err? then Err(closed.error)
               else if tok == OpenParen then r else Ok(Deref(r.value));
        }
      } else {
        r := Err(UnexpectedToken);
      }
    }

    /** `expect` */
    method Close(expected: Token) returns (r: Result<(), ParseError>)
      requires pos <= |tokens|
      modifies this
      ensures pos <= |tokens|
      ensures forall x :: Reads(Expect(expected, x, old(tokens[pos..])), if r.Ok? then Ok(x) else Err(r.error))
    {
      if pos == |tokens| {
        return Err(UnexpectedEnd);
      }
      if tokens[pos] != expected {
        return Err(UnexpectedToken);
      }
      assert tokens[pos..][1..] == tokens[pos + 1..];
      pos := pos + 1;
      r := Ok(());
    }
  }

  /** `address::parse`: tokenize, parse, reject trailing tokens. */
  method Parse(input: string) returns (r: Result<Expr, ParseError>)
    ensures r == ParseText(input)
  {
    var lexer := new Tokenizer(input);
    var tokens := lexer.Tokenize();
    if tokens.Err? {
      return Err(tokens.error);
    }
    var parser := new Parser(tokens.value);
    assert tokens.value[0..] == tokens.value;
    r := parser.Additive(0);
    if r.Ok? && parser.pos < |parser.tokens| {
      assert parser.tokens[parser.pos..] != [];
      r := Err(TrailingTokens);
    }
  }

  // ----- Evaluator --------------------------------------------------------------

  const WORD: nat := USIZE_MAX + 1

  function Wrap(n: int): (r: nat)
    ensures r <= USIZE_MAX
    ensures 0 <= n <= USIZE_MAX ==> r == n
  {
    n % WORD
  }

  function Evaluate(x: Expr, modules: string -> Option<nat>, read: nat -> Option<nat>)
    : Result<nat, EvalError>
  {
    match x
    case Constant(n) => Ok(Wrap(n))
    case Module(name) =>
      (match modules(name) case Some(base) => Ok(base) case None => Err(ModuleNotFound(name)))
    case Add(a, b) => Both(Evaluate(a, modules, read), Evaluate(b, modules, read), (m, n) => Wrap(m + n))
    case Sub(a, b) => Both(Evaluate(a, modules, read), Evaluate(b, modules, read), (m, n) => Wrap(m - n))
    case Mul(a, b) => Both(Evaluate(a, modules, read), Evaluate(b, modules, read), (m, n) => Wrap(m * n))
    case Div(a, b) =>
      (match Evaluate(b, modules, read)
       case Err(e) => Err(e)
       case Ok(d) =>
         if d == 0 then Err(DivisionByZero)
         else match Evaluate(a, modules, read) case Err(e) => Err(e) case Ok(m) => Ok(Wrap(m / d)))
    case Rem(a, b) =>
      (match Evaluate(b, modules, read)
       case Err(e) => Err(e)
       case Ok(d) =>
         if d == 0 then Err(ModuloByZero)
         else match Evaluate(a, modules, read) case Err(e) => Err(e) case Ok(m) => Ok(Wrap(m % d)))
    case Negate(inner) =>
      (match Evaluate(inner, modules, read) case Err(e) => Err(e) case Ok(m) => Ok(Wrap(0 - m as int)))
    case Deref(inner) =>
      (match Evaluate(inner, modules, read)
       case Err(e) => Err(e)
       case Ok(addr) => match read(addr) case Some(v) => Ok(v) case None => Err(ReadFailed))
  }

  /** Left operand first; the first error wins. */
  function Both(a: Result<nat, EvalError>, b: Result<nat, EvalError>, op: (int, int) -> nat)
    : Result<nat, EvalError>
  {
    if a.Err? then a else if b.Err? then b else Ok(op(a.value, b.value))
  }
}
