/** Signature generation (crates/nemclass-scan/src/signature.rs): the shortest
    run of bytes at an offset that occurs nowhere else, printed as a pattern. */
module Signature {
  import opened Memory
  import Formula
  import FormulaText
  import opened Pattern
  import ScriptPattern

  datatype SignatureConfig = SignatureConfig(minLen: nat, maxLen: nat)

  // ----- Printing -------------------------------------------------------------

  /** `{:02X}` */
  function HexByte(b: Byte): string {
    [FormulaText.UpperDigitOf(b / 16), FormulaText.UpperDigitOf(b % 16)]
  }

  function Text(bytes: seq<Byte>): string {
    if bytes == [] then []
    else if |bytes| == 1 then HexByte(bytes[0])
    else HexByte(bytes[0]) + ([' '] + Text(bytes[1..]))
  }

  lemma {:induction false} TextPush(bytes: seq<Byte>, b: Byte)
    ensures Text(bytes + [b]) == if bytes == [] then HexByte(b) else Text(bytes) + [' '] + HexByte(b)
  {
    if bytes != [] {
      assert (bytes + [b])[1..] == bytes[1..] + [b];
      TextPush(bytes[1..], b);
      if |bytes| > 1 {
        assert Text(bytes + [b]) == HexByte(bytes[0]) + ([' '] + (Text(bytes[1..]) + [' '] + HexByte(b)));
      }
    }
  }

  method FormatSignature(bytes: seq<Byte>) returns (out: string)
    ensures out == Text(bytes)
  {
    out := [];
    for i := 0 to |bytes|
      invariant out == Text(bytes[..i])
    {
      assert bytes[..i + 1] == bytes[..i] + [bytes[i]];
      TextPush(bytes[..i], bytes[i]);
      if i > 0 {
        out := out + [' '];
      }
      out := out + HexByte(bytes[i]);
    }
    assert bytes[..|bytes|] == bytes;
  }

  /** The words of a printed signature are its bytes. */
  lemma {:induction false} TextWords(bytes: seq<Byte>)
    ensures Words(Text(bytes)) == seq(|bytes|, i requires 0 <= i < |bytes| => HexByte(bytes[i]))
  {
    if bytes != [] {
      var w, s := HexByte(bytes[0]), Text(bytes);
      var rest := s[2..];
      assert s[..2] == w && (rest == [] || rest[0] == ' ');
      assert WordLength(s) == 2 by {
        assert WordLength(rest) == 0 && s[1..][1..] == rest;
        assert WordLength(s[1..]) == 1;
      }
      if |bytes| > 1 {
        assert rest[1..] == Text(bytes[1..]);
        assert Words(rest) == Words(rest[1..]);
        TextWords(bytes[1..]);
      } else {
        assert Words(rest) == [];
      }
      assert Words(s) == [w] + Words(rest);
    }
  }

  lemma ByteBack(b: Byte)
    ensures AllNibbles(HexByte(b)) && PairUp(HexByte(b)) == [Exact(b)] && ScriptPattern.IsToken(HexByte(b))
  {
    var w := HexByte(b);
    assert w[2..] == [];
    assert PairUp(w) == [ByteOf(Value(b / 16), Value(b % 16))] + PairUp([]);
  }

  lemma {:induction false} WordsBack(ws: seq<string>, bytes: seq<Byte>)
    requires |ws| == |bytes| && forall i :: 0 <= i < |ws| ==> ws[i] == HexByte(bytes[i])
    ensures forall i :: 0 <= i < |ws| ==> ScriptPattern.IsToken(ws[i])
    ensures AllWordsNibbles(ws) && PairUpAll(ws) == ExactBytes(bytes)
  {
    forall i | 0 <= i < |ws| ensures AllNibbles(ws[i]) && ScriptPattern.IsToken(ws[i]) {
      ByteBack(bytes[i]);
    }
    if ws != [] {
      ByteBack(bytes[0]);
      WordsBack(ws[1..], bytes[1..]);
      assert ExactBytes(bytes) == [Exact(bytes[0])] + ExactBytes(bytes[1..]);
    }
  }

  /** Printing then parsing gives the bytes back, exactly; both parsers take the
      text. */
  lemma TextParses(bytes: seq<Byte>)
    requires bytes != []
    ensures ParsePattern(Text(bytes)) == Formula.Ok(ExactBytes(bytes))
    ensures ScriptPattern.ParseChecked(Text(bytes)).Ok?
  {
    TextWords(bytes);
    WordsBack(Words(Text(bytes)), bytes);
    ParseReadsWords(Text(bytes));
    ScriptPattern.CheckedAcceptsIff(Text(bytes));
  }

  // ----- Uniqueness --------------------------------------------------------------

  /** The run of `len` bytes at `offset` occurs at `p`. */
  predicate RunAt(h: seq<Byte>, offset: nat, len: nat, p: nat) {
    offset + len <= |h| && p + len <= |h| && h[p..p + len] == h[offset..offset + len]
  }

  ghost predicate Unique(h: seq<Byte>, offset: nat, len: nat) {
    offset + len <= |h| && forall p: nat :: RunAt(h, offset, len, p) ==> p == offset
  }

  ghost predicate Shortest(h: seq<Byte>, offset: nat, len: nat) {
    len > 0 && Unique(h, offset, len) && forall m: nat :: 0 < m < len ==> !Unique(h, offset, m)
  }

  lemma RunExtends(h: seq<Byte>, offset: nat, len: nat, p: nat)
    requires offset + len < |h|
    ensures RunAt(h, offset, len + 1, p) <==> RunAt(h, offset, len, p) && p + len < |h| && h[p + len] == h[offset + len]
  {
    var a := h[offset..offset + len + 1];
    assert a == h[offset..offset + len] + [h[offset + len]];
    if p + len < |h| {
      var b := h[p..p + len + 1];
      assert b == h[p..p + len] + [h[p + len]];
      assert b[len] == h[p + len] && a[len] == h[offset + len];
      assert b[..len] == h[p..p + len] && a[..len] == h[offset..offset + len];
    }
  }

  /** A longer run occurs no more often. */
  lemma {:induction false} LongerIsRarer(h: seq<Byte>, offset: nat, len: nat, more: nat, p: nat)
    requires len <= more && offset + more <= |h| && RunAt(h, offset, more, p)
    ensures RunAt(h, offset, len, p)
    decreases more - len
  {
    if len < more {
      RunExtends(h, offset, more - 1, p);
      LongerIsRarer(h, offset, len, more - 1, p);
    }
  }

  lemma UniqueGrows(h: seq<Byte>, offset: nat, len: nat, more: nat)
    requires Unique(h, offset, len) && len <= more && offset + more <= |h|
    ensures Unique(h, offset, more)
  {
    forall p: nat | RunAt(h, offset, more, p) ensures p == offset {
      LongerIsRarer(h, offset, len, more, p);
    }
  }

  // ----- Narrowing the candidates ---------------------------------------------------

  predicate Rising(c: seq<nat>) {
    forall i, j :: 0 <= i < j < |c| ==> c[i] < c[j]
  }

  /** The candidates are exactly the places where the run occurs, in order. */
  ghost predicate Candidates(h: seq<Byte>, offset: nat, len: nat, c: seq<nat>) {
    Rising(c) && forall p: nat :: p in c <==> RunAt(h, offset, len, p)
  }

  lemma OneCandidate(h: seq<Byte>, offset: nat, len: nat, c: seq<nat>)
    requires Candidates(h, offset, len, c) && offset + len <= |h|
    ensures c != [] && (c == [offset] <==> Unique(h, offset, len)) && (c == [offset] <==> |c| == 1)
  {
    assert RunAt(h, offset, len, offset);
    assert offset in c;
    assert |c| > 1 ==> c[0] < c[1];
    if Unique(h, offset, len) {
      forall i | 0 <= i < |c| ensures c[i] == offset {
        assert c[i] in c && RunAt(h, offset, len, c[i]);
      }
    } else {
      var p: nat :| RunAt(h, offset, len, p) && p != offset;
      assert p in c;
    }
  }

  method FirstCandidates(h: seq<Byte>, offset: nat) returns (c: seq<nat>)
    requires offset < |h|
    ensures Candidates(h, offset, 1, c)
  {
    c := [];
    for p := 0 to |h|
      invariant Rising(c) && (forall i :: 0 <= i < |c| ==> c[i] < p)
      invariant forall q: nat :: q in c <==> q < p && h[q] == h[offset]
    {
      if h[p] == h[offset] {
        c := c + [p];
      }
    }
    forall q: nat ensures RunAt(h, offset, 1, q) <==> q < |h| && h[q] == h[offset] {
      RunExtends(h, offset, 0, q);
    }
  }

  /** `retain` at depth `len`. */
  method Narrow(h: seq<Byte>, offset: nat, len: nat, c: seq<nat>) returns (kept: seq<nat>)
    requires offset + len < |h| && Candidates(h, offset, len, c)
    ensures Candidates(h, offset, len + 1, kept)
  {
    kept := [];
    for i := 0 to |c|
      invariant Rising(kept) && (forall j :: 0 <= j < |kept| ==> i > 0 && kept[j] <= c[i - 1])
      invariant forall q: nat :: q in kept <==> q in c[..i] && q + len < |h| && h[q + len] == h[offset + len]
    {
      var p := c[i];
      assert c[..i + 1] == c[..i] + [p];
      if p + (len + 1) <= |h| && h[p + len] == h[offset + len] {
        kept := kept + [p];
      }
    }
    assert c[..|c|] == c;
    forall q: nat ensures RunAt(h, offset, len + 1, q) <==> q in kept {
      RunExtends(h, offset, len, q);
    }
  }

  /** A run short enough to be tried is unique. */
  ghost predicate HasUnique(h: seq<Byte>, offset: nat, maxLen: nat) {
    exists len: nat :: 0 < len <= maxLen && Unique(h, offset, len)
  }

  method MakeSignature(h: seq<Byte>, offset: nat, cfg: SignatureConfig) returns (r: Option<string>)
    ensures r.Some? <==> HasUnique(h, offset, cfg.maxLen)
    ensures forall len: nat :: Shortest(h, offset, len) && len <= cfg.maxLen ==>
              r == Some(Text(h[offset..][..Min(|h| - offset, Max(len, cfg.minLen))]))
    ensures r.Some? ==> ParsePattern(r.value).Ok? && ScriptPattern.ParseChecked(r.value).Ok?
    ensures r.Some? ==> forall i: nat :: MatchesAt(ParsePattern(r.value).value, h, i) <==> i == offset
  {
    if offset >= |h| || cfg.maxLen == 0 {
      return None;
    }
    var available := |h| - offset;
    var c := FirstCandidates(h, offset);
    var maxLen := Min(cfg.maxLen, available);
    var len := 1;
    OneCandidate(h, offset, len, c);
    while len < maxLen && |c| > 1
      invariant 1 <= len <= maxLen && Candidates(h, offset, len, c)
      invariant forall m: nat :: 0 < m < len ==> !Unique(h, offset, m)
      invariant |c| >= 1
    {
      OneCandidate(h, offset, len, c);
      c := Narrow(h, offset, len, c);
      len := len + 1;
      OneCandidate(h, offset, len, c);
    }
    OneCandidate(h, offset, len, c);
    if c != [offset] {
      assert forall m: nat :: 0 < m <= cfg.maxLen && m <= available ==> !Unique(h, offset, m);
      return None;
    }
    assert Shortest(h, offset, len);
    var finalLen := Min(Max(len, cfg.minLen), available);
    assert h[offset..offset + finalLen] == h[offset..][..finalLen];
    var text := FormatSignature(h[offset..offset + finalLen]);
    UniqueGrows(h, offset, len, finalLen);
    SignatureFindsItself(h, offset, finalLen);
    r := Some(text);
  }

  /** The text of a unique run matches at its offset and nowhere else. */
  lemma SignatureFindsItself(h: seq<Byte>, offset: nat, len: nat)
    requires len > 0 && Unique(h, offset, len)
    ensures var text := Text(h[offset..offset + len]);
            && ParsePattern(text) == Formula.Ok(ExactBytes(h[offset..offset + len]))
            && ScriptPattern.ParseChecked(text).Ok?
            && forall i: nat :: MatchesAt(ParsePattern(text).value, h, i) <==> i == offset
  {
    var bytes := h[offset..offset + len];
    TextParses(bytes);
    forall i: nat ensures MatchesAt(ExactBytes(bytes), h, i) <==> i == offset {
      ExactMatches(bytes, h, i);
      assert RunAt(h, offset, len, i) <==> i + len <= |h| && h[i..i + len] == bytes;
    }
  }
}
