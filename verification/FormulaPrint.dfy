/** Formulas as text (crates/nemclass-model/src/address/tokenizer.rs): every
    expression, written out with the usual operators, any kind of blank between
    the tokens and its literals in decimal or in hexadecimal of either case, reads
    back as itself. */
module FormulaPrint {
  import opened Memory
  import opened Formula
  import opened FormulaText
  import opened FormulaGrammar

  // ----- Literals ----------------------------------------------------------------

  datatype Style = Decimal | LowerHex | UpperHex

  /** A character is a hex digit exactly when it is one of these. */
  lemma HexDigitsAre(c: char)
    ensures IsHexDigit(c) <==> exists n: nat :: n < 16 && (c == HexDigitOf(n) || c == UpperDigitOf(n))
  {
    if IsHexDigit(c) {
      var n := DigitValue(c);
      assert c == HexDigitOf(n) || c == UpperDigitOf(n);
    }
  }

  function UpperHexDigits(n: nat): (s: string)
    ensures s != [] && forall i :: 0 <= i < |s| ==> IsHexDigit(s[i])
  {
    if n < 16 then [UpperDigitOf(n)] else UpperHexDigits(n / 16) + [UpperDigitOf(n % 16)]
  }

  function DecimalDigits(n: nat): (s: string)
    ensures s != [] && forall i :: 0 <= i < |s| ==> IsDigit(s[i])
  {
    if n < 10 then [HexDigitOf(n)] else DecimalDigits(n / 10) + [HexDigitOf(n % 10)]
  }

  lemma {:induction false} UpperHexReadsBack(n: nat)
    ensures Radix(UpperHexDigits(n), 16) == n
  {
    if n < 16 {
      assert [UpperDigitOf(n)][..0] == [];
    } else {
      UpperHexReadsBack(n / 16);
      var s := UpperHexDigits(n);
      assert s[..|s| - 1] == UpperHexDigits(n / 16);
    }
  }

  lemma {:induction false} DecimalReadsBack(n: nat)
    ensures Radix(DecimalDigits(n), 10) == n
  {
    if n < 10 {
      assert [HexDigitOf(n)][..0] == [];
    } else {
      DecimalReadsBack(n / 10);
      var s := DecimalDigits(n);
      assert s[..|s| - 1] == DecimalDigits(n / 10);
    }
  }

  function NumberText(n: nat, style: Style): string {
    match style
    case Decimal => DecimalDigits(n)
    case LowerHex => Hex(n)
    case UpperHex => "0X" + UpperHexDigits(n)
  }

  lemma LexDecimal(n: nat, rest: string)
    requires rest != [] && IsSpace(rest[0])
    ensures LexNumber(DecimalDigits(n) + rest) ==
      if n <= I64_MAX then Ok((Number(n), |DecimalDigits(n)|)) else Err(BadNumber)
  {
    var digits := DecimalDigits(n);
    var s := digits + rest;
    assert s[0] == digits[0] && (s[1] == rest[0] || (|digits| > 1 && s[1] == digits[1]));
    RunAppend(digits, rest, IsDigit);
    assert s[..|digits|] == digits;
    DecimalReadsBack(n);
  }

  lemma LexUpperHex(n: nat, rest: string)
    requires Breaks(rest)
    ensures LexNumber("0X" + UpperHexDigits(n) + rest) ==
      if n <= I64_MAX then Ok((Number(n), |UpperHexDigits(n)| + 2)) else Err(BadNumber)
  {
    var digits := UpperHexDigits(n);
    var s := "0X" + digits + rest;
    assert s[0] == '0' && s[1] == 'X' && s[2..] == digits + rest;
    RunAppend(digits, rest, IsHexDigit);
    assert s[2..][..|digits|] == digits;
    UpperHexReadsBack(n);
  }

  /** A literal in any style is read whole, or refused when it does not fit. */
  lemma LexLiteral(n: nat, style: Style, rest: string)
    requires rest != [] && IsSpace(rest[0])
    ensures NumberText(n, style) != [] && IsDigit(NumberText(n, style)[0])
    ensures LexNumber(NumberText(n, style) + rest) ==
      if n <= I64_MAX then Ok((Number(n), |NumberText(n, style)|)) else Err(BadNumber)
  {
    match style
    case Decimal => LexDecimal(n, rest);
    case LowerHex => LexHex(n, rest);
    case UpperHex => LexUpperHex(n, rest);
  }

  // ----- Tokens --------------------------------------------------------------------

  /** Some closing quote can end the name. */
  predicate Quotable(name: string) {
    '>' !in name || '"' !in name
  }

  function Quoted(name: string): string {
    if '>' !in name then "<" + name + ">" else "\"" + name + "\""
  }

  function TokenText(t: Token, style: nat -> Style): string {
    match t
    case Number(n) => NumberText(n, style(n))
    case Identifier(name) => Quoted(name)
    case Plus => "+"
    case Minus => "-"
    case Star => "*"
    case Slash => "/"
    case Percent => "%"
    case OpenParen => "("
    case CloseParen => ")"
    case OpenBracket => "["
    case CloseBracket => "]"
  }

  predicate Writable(t: Token) {
    t.Identifier? ==> Quotable(t.name)
  }

  predicate FitsWord(t: Token) {
    t.Number? ==> t.value <= 0x7FFF_FFFF_FFFF_FFFF
  }

  predicate IsBlank(c: char) {
    c in {' ', '\t', '\r', '\n'}
  }

  /** Each token, followed by a blank. */
  function TextOf(ts: seq<Token>, style: nat -> Style, blank: char): string {
    if ts == [] then [] else TokenText(ts[0], style) + ([blank] + TextOf(ts[1..], style, blank))
  }

  lemma LexNameUpTo(name: string, quote: char, rest: string)
    requires quote !in name
    ensures LexName(name + ([quote] + rest), quote) == Ok((Identifier(name), |name|))
  {
    var p := c => c != quote;
    var s := name + ([quote] + rest);
    RunAppend(name, [quote] + rest, p);
    RunOfEqual(s, p, quote);
    assert s[..|name|] == name;
  }

  function OpensWith(name: string): char {
    if '>' !in name then '<' else '"'
  }

  function ClosesWith(name: string): char {
    if '>' !in name then '>' else '"'
  }

  lemma QuotedParts(name: string, rest: string)
    ensures Quoted(name) + rest == [OpensWith(name)] + (name + ([ClosesWith(name)] + rest))
    ensures |Quoted(name)| == |name| + 2
  {
  }

  lemma LexOpened(open: char, tail: string, t: Token, n: nat)
    requires (open == '<' || open == '"') && LexName(tail, if open == '<' then '>' else '"') == Ok((t, n))
    ensures LexOne([open] + tail) == Ok((t, n + 2))
  {
    assert ([open] + tail)[1..] == tail;
  }

  lemma LexQuoted(name: string, rest: string)
    requires Quotable(name)
    ensures LexOne(Quoted(name) + rest) == Ok((Identifier(name), |Quoted(name)|))
  {
    QuotedParts(name, rest);
    LexNameUpTo(name, ClosesWith(name), rest);
    LexOpened(OpensWith(name), name + ([ClosesWith(name)] + rest), Identifier(name), |name|);
  }

  lemma LexToken(t: Token, style: nat -> Style, rest: string)
    requires Writable(t) && rest != [] && IsSpace(rest[0])
    ensures var w := TokenText(t, style);
            && w != [] && !IsSpace(w[0])
            && LexOne(w + rest) == if FitsWord(t) then Ok((t, |w|)) else Err(BadNumber)
  {
    match t
    case Number(n) => LexLiteral(n, style(n), rest);
    case Identifier(name) => LexQuoted(name, rest);
    case _ =>
      var w := TokenText(t, style);
      assert Operator(w[0]) == Some(t) && (w + rest)[0] == w[0];
  }

  lemma {:induction false} TokensOfText(ts: seq<Token>, style: nat -> Style, blank: char)
    requires IsBlank(blank) && forall t :: t in ts ==> Writable(t)
    ensures Tokens(TextOf(ts, style, blank)) == Unless(forall t :: t in ts ==> FitsWord(t), Ok(ts))
  {
    if ts != [] {
      var w, tail := TokenText(ts[0], style), TextOf(ts[1..], style, blank);
      var s := w + ([blank] + tail);
      LexToken(ts[0], style, [blank] + tail);
      TokensOfText(ts[1..], style, blank);
      assert s[0] == w[0] && s[|w|..] == [blank] + tail && ([blank] + tail)[1..] == tail;
      assert ts == [ts[0]] + ts[1..];
    }
  }

  /** Every expression, written in any of these ways, reads back as itself, unless a
      literal does not fit an `i64` or it nests too deeply; each has its own error. */
  lemma TextReadsBack(x: Expr, style: nat -> Style, blank: char)
    requires Printable(x) && IsBlank(blank) && forall t :: t in Show(x, 0) ==> Writable(t)
    ensures ParseText(TextOf(Show(x, 0), style, blank)) ==
      if exists t :: t in Show(x, 0) && !FitsWord(t) then Err(BadNumber)
      else if Nesting(x) <= 128 then Ok(x) else Err(NestedTooDeeply)
  {
    TokensOfText(Show(x, 0), style, blank);
    ReadsBack(x);
  }

  // ----- Texts that are refused --------------------------------------------------------

  /** A prefix with no digits after it, a name that is never closed and a character that
      starts no token each have their own error. */
  lemma Refusals(c: char, rest: string)
    ensures (c == 'x' || c == 'X') && Breaks(rest) ==> Tokens(['0', c] + rest) == Err(BadNumber)
    ensures '>' !in rest ==> Tokens(['<'] + rest) == Err(UnclosedIdentifier)
    ensures '"' !in rest ==> Tokens(['"'] + rest) == Err(UnclosedIdentifier)
    ensures !IsBlank(c) && c !in {'+', '-', '*', '/', '%', '(', ')', '[', ']', '<', '"'} && !('0' <= c <= '9') ==>
              Tokens([c] + rest) == Err(UnexpectedCharacter)
  {
    NoDigits(c, rest);
    Unclosed('<', '>', rest);
    Unclosed('"', '"', rest);
    var s := [c] + rest;
    assert s[0] == c;
  }

  lemma NoDigits(c: char, rest: string)
    ensures (c == 'x' || c == 'X') && Breaks(rest) ==> Tokens(['0', c] + rest) == Err(BadNumber)
  {
    var s := ['0', c] + rest;
    assert s[0] == '0' && s[1] == c && s[2..] == rest;
    if Breaks(rest) {
      assert Run(rest, IsHexDigit) == 0;
    }
  }

  lemma Unclosed(open: char, quote: char, rest: string)
    requires (open == '<' && quote == '>') || (open == '"' && quote == '"')
    ensures quote !in rest ==> Tokens([open] + rest) == Err(UnclosedIdentifier)
  {
    var s := [open] + rest;
    assert s[0] == open && s[1..] == rest;
    if quote !in rest {
      NeverCloses(rest, quote);
    }
  }

  lemma NeverCloses(s: string, quote: char)
    requires quote !in s
    ensures LexName(s, quote) == Err(UnclosedIdentifier)
  {
    var p := c => c != quote;
    RunAppend(s, [], p);
    assert s + [] == s;
    RunOfEqual(s, p, quote);
  }
}
