/** Array-of-bytes patterns: the parser and matcher of the scanner
    (crates/nemclass-scan/src/pattern.rs). */
module Pattern {
  import opened Memory
  import Formula

  type Result<+T, +E> = Formula.Result<T, E>

  /** Which nibbles of a byte are significant. */
  type Mask = m: Byte | m == 0x00 || m == 0x0F || m == 0xF0 || m == 0xFF

  /** `b & mask` */
  function Masked(b: Byte, mask: Mask): Byte {
    if mask == 0xFF then b else if mask == 0xF0 then b - b % 16 else if mask == 0x0F then b % 16 else 0
  }

  datatype PatternByte = PatternByte(value: Byte, mask: Mask) {
    predicate Matches(candidate: Byte) {
      Masked(candidate, mask) == Masked(value, mask)
    }
  }

  function Exact(b: Byte): PatternByte {
    PatternByte(b, 0xFF)
  }

  datatype Nibble = Value(n: nat) | Wildcard

  datatype PatternError = UnexpectedCharacter(c: char) | EmptyPattern

  /** Unicode White_Space, which separates tokens in both parsers. */
  predicate IsSpace(c: char) {
    var u := c as int;
    9 <= u <= 13 || u == 0x20 || u == 0x85 || u == 0xA0 || u == 0x1680 || 0x2000 <= u <= 0x200A
    || u == 0x2028 || u == 0x2029 || u == 0x202F || u == 0x205F || u == 0x3000
  }

  predicate IsNibble(c: char) {
    c == '?' || Formula.IsHexDigit(c)
  }

  function NibbleOf(c: char): (n: Nibble)
    requires IsNibble(c)
    ensures n.Value? ==> n.n < 16
  {
    if c == '?' then Wildcard else Value(Formula.DigitValue(c))
  }

  /** Two nibbles side by side; a wildcard leaves its half of the mask clear. */
  function ByteOf(hi: Nibble, lo: Nibble): (p: PatternByte)
    requires (hi.Value? ==> hi.n < 16) && (lo.Value? ==> lo.n < 16)
    ensures forall b: Byte :: p.Matches(b) <==> (hi.Value? ==> b / 16 == hi.n) && (lo.Value? ==> b % 16 == lo.n)
  {
    match (hi, lo)
    case (Value(h), Value(l)) => PatternByte(16 * h + l, 0xFF)
    case (Value(h), Wildcard) => PatternByte(16 * h, 0xF0)
    case (Wildcard, Value(l)) => PatternByte(l, 0x0F)
    case (Wildcard, Wildcard) => PatternByte(0, 0x00)
  }

  // ----- The reference reading: words of nibbles, two to a byte -------------------

  /** Length of the leading run of non-space characters. */
  function WordLength(s: string): (n: nat)
    ensures n <= |s| && (n < |s| ==> IsSpace(s[n]))
    ensures forall i :: 0 <= i < n ==> !IsSpace(s[i])
  {
    if s == [] || IsSpace(s[0]) then 0 else 1 + WordLength(s[1..])
  }

  /** `split_whitespace` */
  function Words(s: string): (ws: seq<string>)
    ensures forall i :: 0 <= i < |ws| ==> ws[i] != []
    decreases |s|
  {
    if s == [] then []
    else if IsSpace(s[0]) then Words(s[1..])
    else [s[..WordLength(s)]] + Words(s[WordLength(s)..])
  }

  predicate AllNibbles(w: string) {
    forall i :: 0 <= i < |w| ==> IsNibble(w[i])
  }

  /** The bytes of one word; an odd nibble at the end is a half wildcard. */
  function PairUp(w: string): (bytes: seq<PatternByte>)
    requires AllNibbles(w)
    ensures |bytes| == (|w| + 1) / 2
    decreases |w|
  {
    if w == [] then []
    else if |w| == 1 then [ByteOf(NibbleOf(w[0]), Wildcard)]
    else [ByteOf(NibbleOf(w[0]), NibbleOf(w[1]))] + PairUp(w[2..])
  }

  predicate AllWordsNibbles(ws: seq<string>) {
    forall i :: 0 <= i < |ws| ==> AllNibbles(ws[i])
  }

  function PairUpAll(ws: seq<string>): seq<PatternByte>
    requires AllWordsNibbles(ws)
  {
    if ws == [] then [] else PairUp(ws[0]) + PairUpAll(ws[1..])
  }

  // ----- What the scanner's parser does ---------------------------------------------

  /** The bytes read from `s`, or the first character that is no nibble. */
  function ParseFrom(s: string): Result<seq<PatternByte>, PatternError>
    decreases |s|
  {
    if s == [] then Formula.Ok([])
    else if IsSpace(s[0]) then ParseFrom(s[1..])
    else if !IsNibble(s[0]) then Formula.Err(UnexpectedCharacter(s[0]))
    else if |s| == 1 || IsSpace(s[1]) then Formula.Prepend(ByteOf(NibbleOf(s[0]), Wildcard), ParseFrom(s[1..]))
    else if !IsNibble(s[1]) then Formula.Err(UnexpectedCharacter(s[1]))
    else Formula.Prepend(ByteOf(NibbleOf(s[0]), NibbleOf(s[1])), ParseFrom(s[2..]))
  }

  /** `BytePattern::parse` */
  function ParsePattern(s: string): Result<seq<PatternByte>, PatternError> {
    var r := ParseFrom(s);
    if r == Formula.Ok([]) then Formula.Err(EmptyPattern) else r
  }

  method Parse(s: string) returns (r: Result<seq<PatternByte>, PatternError>)
    ensures r == ParsePattern(s)
  {
    var bytes, pos := [], 0;
    assert s[0..] == s;
    Formula.AfterNothing(ParseFrom(s));
    while true
      invariant 0 <= pos <= |s|
      invariant ParseFrom(s) == Formula.After(bytes, ParseFrom(s[pos..]))
      decreases |s| - pos
    {
      while pos < |s| && IsSpace(s[pos])
        invariant 0 <= pos <= |s|
        invariant ParseFrom(s) == Formula.After(bytes, ParseFrom(s[pos..]))
      {
        assert s[pos..][1..] == s[pos + 1..];
        pos := pos + 1;
      }
      if pos == |s| {
        break;
      }
      ghost var rest := s[pos..];
      assert rest[1..] == s[pos + 1..] && (|rest| > 1 ==> rest[2..] == s[pos + 2..]);
      if !IsNibble(s[pos]) {
        return Formula.Err(UnexpectedCharacter(s[pos]));
      }
      var hi, lo := NibbleOf(s[pos]), Wildcard;
      pos := pos + 1;
      if pos < |s| && !IsSpace(s[pos]) {
        if !IsNibble(s[pos]) {
          return Formula.Err(UnexpectedCharacter(s[pos]));
        }
        lo := NibbleOf(s[pos]);
        pos := pos + 1;
      }
      assert ParseFrom(rest) == Formula.Prepend(ByteOf(hi, lo), ParseFrom(s[pos..]));
      Formula.AfterPrepend(bytes, ByteOf(hi, lo), ParseFrom(s[pos..]));
      bytes := bytes + [ByteOf(hi, lo)];
    }
    assert s[pos..] == [] && bytes + [] == bytes;
    r := if bytes == [] then Formula.Err(EmptyPattern) else Formula.Ok(bytes);
  }

  // ----- The parser reads the words ---------------------------------------------------

  /** One word, then the rest of the text. */
  lemma {:induction false} ParseWord(w: string, rest: string)
    requires forall i :: 0 <= i < |w| ==> !IsSpace(w[i])
    requires AllNibbles(w) && (rest == [] || IsSpace(rest[0]))
    ensures ParseFrom(w + rest) == Formula.After(PairUp(w), ParseFrom(rest))
    decreases |w|
  {
    var s := w + rest;
    if w == [] {
      assert s == rest;
      Formula.AfterNothing(ParseFrom(rest));
    } else if |w| == 1 {
      assert s[1..] == rest;
    } else {
      assert s[0] == w[0] && s[1] == w[1] && s[2..] == w[2..] + rest;
      ParsePair(s);
      ParseWord(w[2..], rest);
      Formula.PrependAfter(ByteOf(NibbleOf(w[0]), NibbleOf(w[1])), PairUp(w[2..]), ParseFrom(rest));
    }
  }

  lemma ParsePair(s: string)
    requires |s| >= 2 && !IsSpace(s[0]) && !IsSpace(s[1]) && IsNibble(s[0]) && IsNibble(s[1])
    ensures ParseFrom(s) == Formula.Prepend(ByteOf(NibbleOf(s[0]), NibbleOf(s[1])), ParseFrom(s[2..]))
  {
  }

  /** A word with a character that is no nibble stops the parser. */
  lemma {:induction false} ParseBadWord(w: string, rest: string)
    requires forall i :: 0 <= i < |w| ==> !IsSpace(w[i])
    requires !AllNibbles(w)
    ensures ParseFrom(w + rest).Err?
    decreases |w|
  {
    var s := w + rest;
    if |w| >= 2 && IsNibble(w[0]) && IsNibble(w[1]) {
      assert s[2..] == w[2..] + rest;
      assert !AllNibbles(w[2..]) by {
        var i :| 0 <= i < |w| && !IsNibble(w[i]);
        assert w[2..][i - 2] == w[i];
      }
      ParseBadWord(w[2..], rest);
    }
  }

  /** The parser accepts exactly the texts whose words are all nibbles, and reads
      each word two nibbles at a time. */
  lemma {:induction false} ParseReadsWords(s: string)
    ensures ParseFrom(s).Ok? <==> AllWordsNibbles(Words(s))
    ensures ParseFrom(s).Ok? ==> ParseFrom(s).value == PairUpAll(Words(s))
    decreases |s|
  {
    if s == [] {
    } else if IsSpace(s[0]) {
      ParseReadsWords(s[1..]);
    } else {
      var n := WordLength(s);
      var w, rest := s[..n], s[n..];
      assert s == w + rest;
      ParseReadsWords(rest);
      assert Words(s) == [w] + Words(rest) && Words(s)[0] == w && Words(s)[1..] == Words(rest);
      if AllNibbles(w) {
        ParseWord(w, rest);
        assert AllWordsNibbles(Words(s)) <==> AllWordsNibbles(Words(rest)) by {
          assert AllWordsNibbles(Words(s)) ==> AllWordsNibbles(Words(s)[1..]);
        }
      } else {
        ParseBadWord(w, rest);
        assert !AllNibbles(Words(s)[0]);
      }
    }
  }

  /** A rejected text is blamed on its first character that is neither space nor
      nibble. */
  lemma {:induction false} BlamesFirst(s: string) returns (i: nat)
    requires ParseFrom(s).Err?
    ensures i < |s| && !IsSpace(s[i]) && !IsNibble(s[i]) && ParseFrom(s).error == UnexpectedCharacter(s[i])
    ensures forall j :: 0 <= j < i ==> IsSpace(s[j]) || IsNibble(s[j])
    decreases |s|
  {
    var step := if IsSpace(s[0]) then 1 else if !IsNibble(s[0]) then 0
                else if |s| == 1 || IsSpace(s[1]) then 1 else if !IsNibble(s[1]) then 0 else 2;
    if step == 0 {
      i := if !IsNibble(s[0]) then 0 else 1;
    } else {
      var k := BlamesFirst(s[step..]);
      i := k + step;
      assert forall j :: step <= j < |s| ==> s[j] == s[step..][j - step];
    }
  }

  // ----- Matching ------------------------------------------------------------------------

  predicate MatchesAt(pattern: seq<PatternByte>, data: seq<Byte>, index: nat) {
    index + |pattern| <= |data| && forall k :: 0 <= k < |pattern| ==> pattern[k].Matches(data[index + k])
  }

  function ExactBytes(bytes: seq<Byte>): (pattern: seq<PatternByte>)
    ensures |pattern| == |bytes|
  {
    seq(|bytes|, i requires 0 <= i < |bytes| => Exact(bytes[i]))
  }

  lemma ExactMatches(bytes: seq<Byte>, data: seq<Byte>, index: nat)
    ensures MatchesAt(ExactBytes(bytes), data, index) <==>
            index + |bytes| <= |data| && data[index..index + |bytes|] == bytes
  {
    var p := ExactBytes(bytes);
    if index + |bytes| <= |data| {
      var window := data[index..index + |bytes|];
      assert forall k :: 0 <= k < |bytes| ==> window[k] == data[index + k] && (p[k].Matches(data[index + k]) <==> window[k] == bytes[k]);
      if MatchesAt(p, data, index) {
        assert window == bytes;
      }
    }
  }
}
