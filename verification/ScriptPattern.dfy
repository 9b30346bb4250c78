/** The script host's own pattern parser and search
    (crates/nemclass-script/src/host_api.rs), and how it agrees with the
    scanner's. Tokens are modelled by character: a token with a character outside
    ASCII is longer than two bytes or no nibble, and rejected either way. */
module ScriptPattern {
  import opened Memory
  import Formula
  import opened Pattern

  datatype PatByte = Exactly(expected: Byte) | Any | Half(value: Byte, mask: Mask)

  datatype ScriptError = NoTokens | BadToken(token: string)

  predicate PatMatches(p: PatByte, b: Byte) {
    match p
    case Exactly(expected) => b == expected
    case Any => true
    case Half(value, mask) => Masked(b, mask) == value
  }

  function ParseToken(tok: string): Result<PatByte, ScriptError> {
    if tok == "?" || tok == "??" then Formula.Ok(Any)
    else if |tok| != 2 then Formula.Err(BadToken(tok))
    else
      var hi, lo := Formula.IsHexDigit(tok[0]), Formula.IsHexDigit(tok[1]);
      if hi && lo then Formula.Ok(Exactly(16 * Formula.DigitValue(tok[0]) + Formula.DigitValue(tok[1])))
      else if hi && tok[1] == '?' then Formula.Ok(Half(16 * Formula.DigitValue(tok[0]), 0xF0))
      else if lo && tok[0] == '?' then Formula.Ok(Half(Formula.DigitValue(tok[1]), 0x0F))
      else Formula.Err(BadToken(tok))
  }

  /** Collect the parsed tokens, or the first failure. */
  function ParseTokens(ws: seq<string>): Result<seq<PatByte>, ScriptError> {
    if ws == [] then Formula.Ok([])
    else
      match ParseToken(ws[0])
      case Err(e) => Formula.Err(e)
      case Ok(p) =>
        match ParseTokens(ws[1..])
        case Err(e) => Formula.Err(e)
        case Ok(ps) => Formula.Ok([p] + ps)
  }

  function ParseChecked(s: string): Result<seq<PatByte>, ScriptError> {
    var r := ParseTokens(Words(s));
    if r == Formula.Ok([]) then Formula.Err(NoTokens) else r
  }

  // ----- Agreement of the two parsers ---------------------------------------------

  ghost predicate SameBytes(ps: seq<PatByte>, bytes: seq<PatternByte>) {
    |ps| == |bytes| && forall k, b: Byte :: 0 <= k < |ps| ==> (PatMatches(ps[k], b) <==> bytes[k].Matches(b))
  }

  /** The tokens the script host takes: one wildcard, or two nibbles. */
  predicate IsToken(w: string) {
    w == "?" || (|w| == 2 && AllNibbles(w))
  }

  lemma TokenAgrees(w: string)
    ensures ParseToken(w).Ok? <==> IsToken(w)
    ensures ParseToken(w).Ok? ==> AllNibbles(w) && SameBytes([ParseToken(w).value], PairUp(w))
  {
    if IsToken(w) {
      if |w| == 2 {
        assert w == [w[0], w[1]];
        assert IsNibble(w[0]) && IsNibble(w[1]);
        assert PairUp(w) == [ByteOf(NibbleOf(w[0]), NibbleOf(w[1]))] + PairUp(w[2..]);
        assert PairUp(w)[0] == ByteOf(NibbleOf(w[0]), NibbleOf(w[1]));
        SameByte(w[0], w[1]);
      } else {
        assert PairUp(w) == [ByteOf(Wildcard, Wildcard)];
      }
    } else if |w| == 2 {
      assert IsNibble(w[0]) && IsNibble(w[1]) ==> AllNibbles(w);
    }
  }

  lemma SameByte(c: char, d: char)
    requires IsNibble(c) && IsNibble(d)
    ensures ParseToken([c, d]).Ok?
    ensures forall b: Byte :: PatMatches(ParseToken([c, d]).value, b) <==> ByteOf(NibbleOf(c), NibbleOf(d)).Matches(b)
  {
    if c == '?' && d == '?' {
      assert [c, d] == "??";
    }
  }

  lemma {:induction false} TokensAgree(ws: seq<string>)
    ensures ParseTokens(ws).Ok? <==> forall i :: 0 <= i < |ws| ==> IsToken(ws[i])
    ensures ParseTokens(ws).Ok? ==> AllWordsNibbles(ws) && SameBytes(ParseTokens(ws).value, PairUpAll(ws))
  {
    if ws != [] {
      TokenAgrees(ws[0]);
      TokensAgree(ws[1..]);
      if ParseTokens(ws).Ok? {
        assert forall i :: 0 <= i < |ws| ==> IsToken(ws[i]) by {
          assert forall i :: 1 <= i < |ws| ==> ws[i] == ws[1..][i - 1];
        }
        AllTokensNibbles(ws);
        SameBytesJoin([ParseToken(ws[0]).value], ParseTokens(ws[1..]).value, PairUp(ws[0]), PairUpAll(ws[1..]));
      } else if IsToken(ws[0]) {
        var i :| 0 <= i < |ws[1..]| && !IsToken(ws[1..][i]);
        assert !IsToken(ws[i + 1]);
      }
    }
  }

  lemma AllTokensNibbles(ws: seq<string>)
    requires forall i :: 0 <= i < |ws| ==> IsToken(ws[i])
    ensures AllWordsNibbles(ws)
  {
  }

  lemma SameBytesJoin(ps: seq<PatByte>, qs: seq<PatByte>, bytes: seq<PatternByte>, more: seq<PatternByte>)
    requires SameBytes(ps, bytes) && SameBytes(qs, more)
    ensures SameBytes(ps + qs, bytes + more)
  {
  }

  /** Whatever the script host accepts, the scanner accepts as well, with the same
      length and the same matches byte by byte. */
  lemma ParsersAgree(s: string)
    requires ParseChecked(s).Ok?
    ensures ParsePattern(s).Ok? && SameBytes(ParseChecked(s).value, ParsePattern(s).value)
  {
    TokensAgree(Words(s));
    ParseReadsWords(s);
  }

  /** The script host rejects exactly the texts with no token, or with one that is
      neither `?` nor two nibbles. */
  lemma CheckedAcceptsIff(s: string)
    ensures ParseChecked(s).Ok? <==> Words(s) != [] && forall i :: 0 <= i < |Words(s)| ==> IsToken(Words(s)[i])
    ensures ParsePattern(s).Ok? <==> Words(s) != [] && AllWordsNibbles(Words(s))
  {
    var ws := Words(s);
    TokensAgree(ws);
    ParseReadsWords(s);
    if ws != [] && AllWordsNibbles(ws) {
      assert |PairUpAll(ws)| >= |PairUp(ws[0])| >= 1;
    }
  }

  /** The scanner is the more lenient: packed bytes and a dangling nibble. */
  lemma PackedIsScannerOnly()
    ensures ParseChecked("488B").Err? && ParsePattern("488B") == Formula.Ok([Exact(0x48), Exact(0x8B)])
    ensures ParseChecked("4").Err? && ParsePattern("4") == Formula.Ok([PatternByte(0x40, 0xF0)])
  {
    OneWord("488B");
    OneWord("4");
    var w := ['4', '8', '8', 'B'];
    assert w == "488B" && w[2..] == ['8', 'B'];
    assert PairUp(w) == [Exact(0x48)] + PairUp(['8', 'B']);
    assert ['8', 'B'][2..] == [];
    assert PairUp(['8', 'B']) == [Exact(0x8B)] + PairUp([]);
    assert PairUp(w) == [Exact(0x48), Exact(0x8B)];
    assert PairUp("4") == [PatternByte(0x40, 0xF0)];
  }

  /** A text that is a single word. */
  lemma OneWord(w: string)
    requires w != [] && AllNibbles(w) && !IsToken(w)
    ensures ParseChecked(w).Err? && ParsePattern(w) == Formula.Ok(PairUp(w))
  {
    WholeWord(w);
    assert w[|w|..] == [];
    assert w[..|w|] == w && Words(w) == [w] + Words([]);
    assert Words([]) == [] && Words(w) == [w] && Words(w)[0] == w;
    CheckedAcceptsIff(w);
    ParseReadsWords(w);
    assert [w][1..] == [] && PairUpAll([]) == [];
    assert PairUpAll([w]) == PairUp(w) + [] == PairUp(w);
    assert PairUp(w) != [];
  }

  lemma {:induction false} WholeWord(w: string)
    requires AllNibbles(w)
    ensures WordLength(w) == |w|
  {
    if w != [] {
      WholeWord(w[1..]);
    }
  }

  // ----- Search ---------------------------------------------------------------------

  predicate HitAt(ps: seq<PatByte>, haystack: seq<Byte>, start: nat) {
    start + |ps| <= |haystack| && forall k :: 0 <= k < |ps| ==> PatMatches(ps[k], haystack[start + k])
  }

  lemma HitIsMatch(ps: seq<PatByte>, bytes: seq<PatternByte>, haystack: seq<Byte>, start: nat)
    requires SameBytes(ps, bytes)
    ensures HitAt(ps, haystack, start) <==> MatchesAt(bytes, haystack, start)
  {
  }

  method TestAt(ps: seq<PatByte>, haystack: seq<Byte>, start: nat) returns (hit: bool)
    requires start + |ps| <= |haystack|
    ensures hit <==> HitAt(ps, haystack, start)
  {
    for k := 0 to |ps|
      invariant forall j :: 0 <= j < k ==> PatMatches(ps[j], haystack[start + j])
    {
      if !PatMatches(ps[k], haystack[start + k]) {
        return false;
      }
    }
    return true;
  }

  /** `try_find_pattern`: exactly the offsets, in ascending order, at which the
      scanner's pattern of the same text matches. */
  method TryFindPattern(haystack: seq<Byte>, pattern: string) returns (r: Result<seq<nat>, ScriptError>)
    ensures r.Err? <==> ParseChecked(pattern).Err?
    ensures r.Err? ==> r.error == ParseChecked(pattern).error
    ensures r.Ok? ==> ParsePattern(pattern).Ok?
    ensures r.Ok? ==> forall i, j :: 0 <= i < j < |r.value| ==> r.value[i] < r.value[j]
    ensures r.Ok? ==> forall start: nat :: start in r.value <==> MatchesAt(ParsePattern(pattern).value, haystack, start)
  {
    var parsed := ParseChecked(pattern);
    if parsed.Err? {
      return Formula.Err(parsed.error);
    }
    var ps := parsed.value;
    ParsersAgree(pattern);
    ghost var bytes := ParsePattern(pattern).value;
    var matches: seq<nat> := [];
    if |ps| <= |haystack| {
      for start := 0 to |haystack| - |ps| + 1
        invariant forall i, j :: 0 <= i < j < |matches| ==> matches[i] < matches[j]
        invariant forall i :: 0 <= i < |matches| ==> matches[i] < start
        invariant forall p: nat :: p in matches <==> p < start && MatchesAt(bytes, haystack, p)
      {
        HitIsMatch(ps, bytes, haystack, start);
        var hit := TestAt(ps, haystack, start);
        if hit {
          matches := matches + [start];
        }
      }
    }
    r := Formula.Ok(matches);
  }
}
