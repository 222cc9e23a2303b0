/**
 The application/x-www-form-urlencoded format: the browser's encoder (section 5.2 of the WHATWG URL Standard)
 and the server's decoder. Characters stand for bytes.
 */
module UrlForm {
  import opened Sequences

  predicate IsByte(c: char) { c as int < 256 }

  predicate Bytes(s: string) { forall k :: 0 <= k < |s| ==> IsByte(s[k]) }

  // ── Encoder ────────────────────────────────────────────────────────────────

  /** Bytes the encoder writes as they are. */
  predicate Kept(c: char) {
    'a' <= c <= 'z' || 'A' <= c <= 'Z' || '0' <= c <= '9' || c == '*' || c == '-' || c == '.' || c == '_'
  }

  function HexDigit(n: int): (c: char)
    requires 0 <= n < 16
    ensures Kept(c) && HexValue(c) == n
  {
    if n < 10 then '0' + n as char else 'A' + (n - 10) as char
  }

  function FormByte(c: char): string
    requires IsByte(c)
  {
    if c == ' ' then "+"
    else if Kept(c) then [c]
    else ['%', HexDigit(c as int / 16), HexDigit(c as int % 16)]
  }

  function FormText(s: string): string
    requires Bytes(s)
  {
    if s == "" then "" else FormByte(s[0]) + FormText(s[1..])
  }

  type Pair = (string, string)

  predicate BytePairs(pairs: seq<Pair>) {
    forall k :: 0 <= k < |pairs| ==> Bytes(pairs[k].0) && Bytes(pairs[k].1)
  }

  function FormPair(p: Pair): string
    requires Bytes(p.0) && Bytes(p.1)
  {
    FormText(p.0) + ['='] + FormText(p.1)
  }

  function FormPieces(pairs: seq<Pair>): (pieces: seq<string>)
    requires BytePairs(pairs)
    ensures |pieces| == |pairs|
  {
    if pairs == [] then [] else [FormPair(pairs[0])] + FormPieces(pairs[1..])
  }

  function FormEncode(pairs: seq<Pair>): string
    requires BytePairs(pairs)
  {
    if pairs == [] then "" else Join(FormPieces(pairs), '&')
  }

  // ── Decoder ────────────────────────────────────────────────────────────────

  /** The value of a hexadecimal digit, or -1. */
  function HexValue(c: char): int {
    if '0' <= c <= '9' then c as int - '0' as int
    else if 'a' <= c <= 'f' then c as int - 'a' as int + 10
    else if 'A' <= c <= 'F' then c as int - 'A' as int + 10
    else -1
  }

  /** The digits in order, in either case, and nothing else. */
  lemma HexValueIsPosition(c: char, v: int)
    requires 0 <= v < 16
    ensures HexValue(c) == v <==> c == "0123456789abcdef"[v] || c == "0123456789ABCDEF"[v]
    ensures -1 <= HexValue(c) < 16
  {
    assert forall k :: 0 <= k < 10 ==> "0123456789abcdef"[k] as int == '0' as int + k;
    assert forall k :: 0 <= k < 10 ==> "0123456789ABCDEF"[k] as int == '0' as int + k;
    assert forall k :: 10 <= k < 16 ==> "0123456789abcdef"[k] as int == 'a' as int + k - 10;
    assert forall k :: 10 <= k < 16 ==> "0123456789ABCDEF"[k] as int == 'A' as int + k - 10;
  }

  predicate Whitespace(c: char) {
    c == ' ' || '\t' <= c <= '\r'
  }

  /** The character for the two characters after a percent sign, as stoi reads them in base 16: it skips one
      leading whitespace or takes a sign, and stops at the first character that is no digit. Nothing if it
      finds no digit. */
  function Unescaped(a: char, b: char): string {
    var hi, lo := HexValue(a), HexValue(b);
    if hi >= 0 then [(if lo >= 0 then 16 * hi + lo else hi) as char]
    else if lo >= 0 && (Whitespace(a) || a == '+') then [lo as char]
    else if lo >= 0 && a == '-' then [((256 - lo) % 256) as char]
    else ""
  }

  function Decoded(s: string): string {
    if s == "" then ""
    else if s[0] == '%' && |s| > 2 then Unescaped(s[1], s[2]) + Decoded(s[3..])
    else [if s[0] == '+' then ' ' else s[0]] + Decoded(s[1..])
  }

  /** The key and value of a piece with an equals sign; a piece without one is skipped. */
  function PairsOfPiece(piece: string): seq<Pair> {
    var parts := Split(piece, '=');
    if |parts| == 1 then [] else [(Decoded(parts[0]), Decoded(Join(parts[1..], '=')))]
  }

  function PairsOfPieces(pieces: seq<string>): seq<Pair> {
    if pieces == [] then [] else PairsOfPiece(pieces[0]) + PairsOfPieces(pieces[1..])
  }

  function ParsedPairs(qs: string): seq<Pair> {
    PairsOfPieces(Split(qs, '&'))
  }

  lemma DecodedEscape(a: char, b: char, tail: string)
    ensures Decoded(['%', a, b] + tail) == Unescaped(a, b) + Decoded(tail)
  {
    hide Unescaped;
    assert (['%', a, b] + tail)[3..] == tail;
  }

  lemma DecodedPlain(c: char, tail: string)
    requires c != '%' || |tail| < 2
    ensures Decoded([c] + tail) == [if c == '+' then ' ' else c] + Decoded(tail)
  {
    hide Unescaped;
    assert ([c] + tail)[1..] == tail;
  }

  lemma DecodedEmpty()
    ensures Decoded("") == ""
  {
  }

  method UrlDecode(s: string) returns (out: string)
    ensures out == Decoded(s)
  {
    out := "";
    var i := 0;
    hide Decoded, Unescaped;
    assert s[0..] == s;
    while i < |s|
      invariant 0 <= i <= |s|
      invariant Decoded(s) == out + Decoded(s[i..])
    {
      if s[i] == '%' && i + 2 < |s| {
        assert s[i..] == ['%', s[i + 1], s[i + 2]] + s[i + 3..];
        DecodedEscape(s[i + 1], s[i + 2], s[i + 3..]);
        out := out + Unescaped(s[i + 1], s[i + 2]);
        i := i + 2;
      } else {
        assert s[i..] == [s[i]] + s[i + 1..];
        DecodedPlain(s[i], s[i + 1..]);
        if s[i] == '+' {
          out := out + [' '];
        } else {
          out := out + [s[i]];
        }
      }
      i := i + 1;
    }
    DecodedEmpty();
    assert s[i..] == "" && out + "" == out;
  }

  /** The position of the first c, or the length. */
  method Find(s: string, c: char) returns (k: nat)
    ensures k <= |s| && c !in s[..k]
    ensures if k < |s| then s[k] == c && Split(s, c) == [s[..k]] + Split(s[k + 1..], c) else Split(s, c) == [s]
  {
    k := 0;
    while k < |s| && s[k] != c
      invariant k <= |s| && c !in s[..k]
    {
      assert s[..k + 1] == s[..k] + [s[k]];
      k := k + 1;
    }
    if k < |s| {
      assert s == s[..k] + [c] + s[k + 1..];
      SplitHead(s[..k], s[k + 1..], c);
    } else {
      assert s[..k] == s;
      SplitAtom(s, c);
    }
  }

  /** Taking the text up to the first ampersand off the front. */
  lemma PairsStep(qs: string, amp: nat)
    requires amp <= |qs|
    requires if amp < |qs| then Split(qs, '&') == [qs[..amp]] + Split(qs[amp + 1..], '&') else Split(qs, '&') == [qs]
    ensures ParsedPairs(qs) == PairsOfPiece(qs[..amp]) + ParsedPairs(if amp == |qs| then "" else qs[amp + 1..])
  {
    hide PairsOfPiece;
    if amp == |qs| {
      assert qs[..amp] == qs && [qs][1..] == [];
      NoPairs();
    } else {
      var rest := Split(qs[amp + 1..], '&');
      assert ([qs[..amp]] + rest)[1..] == rest;
    }
  }

  lemma NoPairs()
    ensures ParsedPairs("") == []
  {
    assert [""][1..] == [] && PairsOfPieces([""]) == PairsOfPiece("") + [];
  }

  method ParseQueryString(target: string) returns (out: multiset<Pair>)
    ensures out == multiset(ParsedPairs(target))
  {
    var qs := target;
    out := multiset{};
    hide Decoded, ParsedPairs, PairsOfPiece;
    while qs != ""
      invariant multiset(ParsedPairs(target)) == out + multiset(ParsedPairs(qs))
      decreases |qs|
    {
      var amp := Find(qs, '&');
      PairsStep(qs, amp);
      var piece := qs[..amp];
      qs := if amp == |qs| then "" else qs[amp + 1..];
      var eq := Find(piece, '=');
      if eq == |piece| {
        PieceWithoutEquals(piece);
        continue;
      }
      var key := UrlDecode(piece[..eq]);
      var value := UrlDecode(piece[eq + 1..]);
      PieceWithEquals(piece, eq);
      out := out + multiset{(key, value)};
    }
    NoPairs();
  }

  lemma PieceWithoutEquals(piece: string)
    requires Split(piece, '=') == [piece]
    ensures PairsOfPiece(piece) == []
  {
  }

  lemma PieceWithEquals(piece: string, eq: nat)
    requires eq < |piece| && piece[eq] == '=' && '=' !in piece[..eq]
    ensures PairsOfPiece(piece) == [(Decoded(piece[..eq]), Decoded(piece[eq + 1..]))]
  {
    assert piece == piece[..eq] + ['='] + piece[eq + 1..];
    SplitHead(piece[..eq], piece[eq + 1..], '=');
    var rest := Split(piece[eq + 1..], '=');
    assert ([piece[..eq]] + rest)[1..] == rest;
    JoinSplit(piece[eq + 1..], '=');
  }

  // ── Round trip ─────────────────────────────────────────────────────────────

  lemma UnescapedHex(c: char)
    requires IsByte(c)
    ensures Unescaped(HexDigit(c as int / 16), HexDigit(c as int % 16)) == [c]
  {
    assert 16 * (c as int / 16) + c as int % 16 == c as int;
  }

  /** Decoding undoes encoding for every byte string, and what follows is decoded on its own. */
  lemma {:induction false} DecodeUndoesEncode(s: string, rest: string)
    requires Bytes(s)
    ensures Decoded(FormText(s) + rest) == s + Decoded(rest)
  {
    hide Decoded, FormByte;
    if s == "" {
      assert FormText(s) + rest == rest;
    } else {
      DecodeUndoesEncode(s[1..], rest);
      var tail := FormText(s[1..]) + rest;
      assert FormText(s) + rest == FormByte(s[0]) + tail;
      ByteRoundTrip(s[0], tail);
      assert s + Decoded(rest) == [s[0]] + (s[1..] + Decoded(rest));
    }
  }

  lemma ByteRoundTrip(c: char, tail: string)
    requires IsByte(c)
    ensures Decoded(FormByte(c) + tail) == [c] + Decoded(tail)
  {
    hide Decoded, Unescaped;
    if c != ' ' && !Kept(c) {
      UnescapedHex(c);
      DecodedEscape(HexDigit(c as int / 16), HexDigit(c as int % 16), tail);
    } else {
      DecodedPlain(FormByte(c)[0], tail);
    }
  }

  /** Any percent sign with two hexadecimal digits, in either case, is the byte they write; with one digit first, that
      digit's; with one digit second, that digit's after a space or plus, and the byte that makes 256 or 0 with it after
      a minus; and nothing otherwise. */
  lemma EscapesAreRead(a: char, b: char, tail: string)
    ensures HexValue(a) >= 0 && HexValue(b) >= 0 ==>
              Decoded(['%', a, b] + tail) == [(16 * HexValue(a) + HexValue(b)) as char] + Decoded(tail)
    ensures HexValue(a) >= 0 && HexValue(b) < 0 ==>
              Decoded(['%', a, b] + tail) == [HexValue(a) as char] + Decoded(tail)
    ensures HexValue(a) < 0 && HexValue(b) < 0 ==> Decoded(['%', a, b] + tail) == Decoded(tail)
    ensures HexValue(b) >= 0 && a in " \t\n\U{0B}\U{0C}\r+" ==>
              Decoded(['%', a, b] + tail) == [HexValue(b) as char] + Decoded(tail)
    ensures HexValue(b) >= 0 && a == '-' ==>
              exists c: char :: Decoded(['%', a, b] + tail) == [c] + Decoded(tail)
                                && (c as int + HexValue(b) == 256 || c as int == HexValue(b) == 0)
    ensures HexValue(a) < 0 && a !in " \t\n\U{0B}\U{0C}\r+-" ==> Decoded(['%', a, b] + tail) == Decoded(tail)
  {
    DecodedEscape(a, b, tail);
    hide Decoded;
  }

  /** The encoder's output holds no separator. */
  lemma {:induction false} EncodedHoldsNoSeparator(s: string)
    requires Bytes(s)
    ensures '&' !in FormText(s) && '=' !in FormText(s)
  {
    if s != "" {
      EncodedHoldsNoSeparator(s[1..]);
      assert '&' !in FormByte(s[0]) && '=' !in FormByte(s[0]);
    }
  }

  lemma PieceRoundTrip(p: Pair)
    requires Bytes(p.0) && Bytes(p.1)
    ensures PairsOfPiece(FormPair(p)) == [p] && '&' !in FormPair(p)
  {
    EncodedHoldsNoSeparator(p.0);
    EncodedHoldsNoSeparator(p.1);
    var k, v := FormText(p.0), FormText(p.1);
    DecodeUndoesEncode(p.0, "");
    DecodeUndoesEncode(p.1, "");
    assert k + "" == k && v + "" == v && p.0 + "" == p.0 && p.1 + "" == p.1;
    var piece := FormPair(p);
    assert piece[..|k|] == k && piece[|k| + 1..] == v;
    PieceWithEquals(piece, |k|);
  }

  lemma {:induction false} PiecesRoundTrip(pairs: seq<Pair>)
    requires BytePairs(pairs)
    ensures PairsOfPieces(FormPieces(pairs)) == pairs
    ensures forall k :: 0 <= k < |pairs| ==> '&' !in FormPieces(pairs)[k]
  {
    hide PairsOfPiece, FormPair;
    if pairs != [] {
      PieceRoundTrip(pairs[0]);
      PiecesRoundTrip(pairs[1..]);
      var rest := FormPieces(pairs[1..]);
      assert ([FormPair(pairs[0])] + rest)[1..] == rest;
      assert pairs == [pairs[0]] + pairs[1..];
    }
  }

  /** Parsing a form-encoded list of pairs gives back exactly those pairs, whatever bytes they hold. */
  lemma FormRoundTrip(pairs: seq<Pair>)
    requires BytePairs(pairs)
    ensures ParsedPairs(FormEncode(pairs)) == pairs
  {
    PiecesRoundTrip(pairs);
    if pairs == [] {
      assert [""][1..] == [] && PairsOfPieces([""]) == PairsOfPiece("") + [];
    } else {
      SplitJoin(FormPieces(pairs), '&');
    }
  }
}
