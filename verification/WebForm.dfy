/**
 * The text helpers of main/web_config.c: percent-decoding of a form field where it stands, and the
 * escaping of text for HTML into a bounded buffer.
 */
module WebForm {

  import opened Basics

  const PLUS: Byte := 0x2B
  const PERCENT: Byte := 0x25
  const SPACE: Byte := 0x20

  // ---------------------------------------------------------------- percent-decoding

  /** The value of a hexadecimal digit, or -1. */
  function HexVal(c: Byte): (v: int)
    ensures -1 <= v < 16
  {
    if 0x30 <= c <= 0x39 then c - 0x30
    else if 0x61 <= c <= 0x66 then c - 0x61 + 10
    else if 0x41 <= c <= 0x46 then c - 0x41 + 10
    else -1
  }

  const LOWER: string := "0123456789abcdef"
  const UPPER: string := "0123456789ABCDEF"

  /** The sixteen digits, in either case, have their places in the row as values; nothing else has one. */
  lemma HexDigits(c: Byte, v: nat)
    ensures HexVal(c) == v <==> v < 16 && (c == LOWER[v] as int || c == UPPER[v] as int)
  {
  }

  /** At position r of a text: a percent sign with two hexadecimal digits after it. */
  predicate Escape(s: seq<Byte>, r: nat) {
    r + 2 < |s| && s[r] == PERCENT && HexVal(s[r + 1]) >= 0 && HexVal(s[r + 2]) >= 0
  }

  /** The byte a position decodes to, and how many it takes. */
  function ByteAt(s: seq<Byte>, r: nat): Byte
    requires r < |s|
  {
    if s[r] == PLUS then SPACE
    else if Escape(s, r) then HexVal(s[r + 1]) * 16 + HexVal(s[r + 2])
    else s[r]
  }

  function Width(s: seq<Byte>, r: nat): (n: nat)
    requires r < |s|
    ensures 1 <= n && r + n <= |s|
  {
    if Escape(s, r) then 3 else 1
  }

  /** What is decoded from position r on. */
  function Decoded(s: seq<Byte>, r: nat): (t: seq<Byte>)
    requires r <= |s|
    ensures |t| <= |s| - r
    decreases |s| - r
  {
    if r == |s| then [] else [ByteAt(s, r)] + Decoded(s, r + Width(s, r))
  }

  /** A text that ends at its first zero byte. */
  ghost predicate Text(buf: seq<Byte>, len: nat) {
    len < |buf| && buf[len] == 0 && forall k :: 0 <= k < len ==> buf[k] != 0
  }

  /** What the bytes at r decode to, read one at a time and no further than the terminator. */
  method ReadOne(buf: array<Byte>, r: nat, ghost s: seq<Byte>) returns (b: Byte, n: nat)
    requires r < |s| < buf.Length && buf[|s|] == 0
    requires forall k :: r <= k < |s| ==> buf[k] == s[k]
    requires s[r] != 0
    ensures b == ByteAt(s, r) && n == Width(s, r)
  {
    if buf[r] == PLUS {
      b, n := SPACE, 1;
    } else if buf[r] == PERCENT && HexVal(buf[r + 1]) >= 0 && HexVal(buf[r + 2]) >= 0 {
      b, n := HexVal(buf[r + 1]) * 16 + HexVal(buf[r + 2]), 3;
    } else {
      b, n := buf[r], 1;
    }
  }

  /** Decoding in place: the writer never passes the reader, and nothing past the terminator is read. */
  method UrlDecode(buf: array<Byte>, ghost len: nat)
    requires Text(buf[..], len)
    modifies buf
    ensures var t := Decoded(old(buf[..len]), 0);
            |t| <= len && buf[..|t|] == t && buf[|t|] == 0
    ensures forall k :: len < k < buf.Length ==> buf[k] == old(buf[k])
  {
    hide ByteAt, Width;
    ghost var s := buf[..len];
    var w: nat, r: nat := 0, 0;
    while buf[r] != 0
      invariant w <= r <= len
      invariant forall k :: r <= k < buf.Length ==> buf[k] == old(buf[k])
      invariant buf[..w] + Decoded(s, r) == Decoded(s, 0)
      decreases len - r
    {
      ghost var done := buf[..w];
      var b, n := ReadOne(buf, r, s);
      assert done + ([b] + Decoded(s, r + n)) == (done + [b]) + Decoded(s, r + n);
      buf[w] := b;
      assert buf[..w + 1] == done + [b];
      w, r := w + 1, r + n;
    }
    buf[w] := 0;
  }

  /** One byte as a form may carry it: itself, a plus for a space, or a percent sign and two hexadecimal
      digits of either case. */
  predicate Carries(piece: seq<Byte>, b: Byte) {
    || (piece == [b] && b != PLUS && b != PERCENT)
    || (piece == [PLUS] && b == SPACE)
    || (|piece| == 3 && piece[0] == PERCENT && HexVal(piece[1]) >= 0 && HexVal(piece[2]) >= 0
        && HexVal(piece[1]) * 16 + HexVal(piece[2]) == b)
  }

  /** Text without a plus or a well-formed escape is left as it is, stray percent signs and all. */
  lemma {:induction false} PlainIsKept(s: seq<Byte>, r: nat)
    requires r <= |s| && forall k :: r <= k < |s| ==> s[k] != '+' as int && !Escape(s, k)
    ensures Decoded(s, r) == s[r..]
    decreases |s| - r
  {
    if r < |s| { PlainIsKept(s, r + 1); }
  }

  lemma SuffixAt(before: seq<Byte>, s: seq<Byte>, r: nat)
    requires r < |s|
    ensures ByteAt(before + s, |before| + r) == ByteAt(s, r) && Width(before + s, |before| + r) == Width(s, r)
  {
    assert forall k :: 0 <= k < |s| ==> (before + s)[|before| + k] == s[k];
    hide HexVal;
    assert (before + s)[|before| + r] == s[r];
    assert r + 2 < |s| ==> (before + s)[|before| + r + 1] == s[r + 1] && (before + s)[|before| + r + 2] == s[r + 2];
  }

  /** Decoding does not look back. */
  lemma {:induction false} DecodedSuffix(before: seq<Byte>, s: seq<Byte>, r: nat)
    requires r <= |s|
    ensures Decoded(before + s, |before| + r) == Decoded(s, r)
    decreases |s| - r
  {
    hide ByteAt, Width;
    if r < |s| {
      SuffixAt(before, s, r);
      DecodedSuffix(before, s, r + Width(s, r));
    }
  }

  lemma FirstPiece(piece: seq<Byte>, rest: seq<Byte>, b: Byte)
    requires Carries(piece, b)
    ensures piece != [] && ByteAt(piece + rest, 0) == b && Width(piece + rest, 0) == |piece|
  {
  }

  /** However a text was percent-encoded, byte by byte, decoding gives it back. */
  lemma {:induction false} DecodeInvertsEncode(s: seq<Byte>, pieces: seq<seq<Byte>>)
    requires |pieces| == |s| && forall k :: 0 <= k < |s| ==> Carries(pieces[k], s[k])
    ensures Decoded(Joined(pieces), 0) == s
  {
    if s != [] {
      var rest := Joined(pieces[1..]);
      DecodeInvertsEncode(s[1..], pieces[1..]);
      DecodedSuffix(pieces[0], rest, 0);
      assert Joined(pieces) == pieces[0] + rest;
      FirstPiece(pieces[0], rest, s[0]);
    }
  }

  // ---------------------------------------------------------------- HTML

  const LT: seq<Byte> := [0x26, 0x6C, 0x74, 0x3B]
  const GT: seq<Byte> := [0x26, 0x67, 0x74, 0x3B]
  const AMP: seq<Byte> := [0x26, 0x61, 0x6D, 0x70, 0x3B]
  const QUOT: seq<Byte> := [0x26, 0x71, 0x75, 0x6F, 0x74, 0x3B]

  function Escaped(b: Byte): (e: seq<Byte>)
    ensures 1 <= |e| <= 6
  {
    if b == 0x3C then LT else if b == 0x3E then GT else if b == 0x26 then AMP else if b == 0x22 then QUOT else [b]
  }

  function EscapedAll(s: seq<Byte>): seq<Byte> {
    if s == [] then [] else EscapedAll(s[..|s| - 1]) + Escaped(s[|s| - 1])
  }

  /** Reading the four entities back. */
  function Unescaped(s: seq<Byte>): seq<Byte> {
    if s == [] then []
    else if LT <= s then [0x3C] + Unescaped(s[4..])
    else if GT <= s then [0x3E] + Unescaped(s[4..])
    else if AMP <= s then [0x26] + Unescaped(s[5..])
    else if QUOT <= s then [0x22] + Unescaped(s[6..])
    else [s[0]] + Unescaped(s[1..])
  }

  lemma NotEntity(s: seq<Byte>)
    requires s != [] && s[0] != 0x26
    ensures Unescaped(s) == [s[0]] + Unescaped(s[1..])
  {
  }

  lemma UnescapedOne(b: Byte, t: seq<Byte>)
    ensures Unescaped(Escaped(b) + t) == [b] + Unescaped(t)
  {
    var e := Escaped(b);
    var s := e + t;
    assert s[|e|..] == t;
    if e == [b] {
      NotEntity(s);
    } else {
      assert e <= s && s[1] == e[1];
    }
  }

  lemma {:induction false} UnescapedAll(s: seq<Byte>, t: seq<Byte>)
    ensures Unescaped(EscapedAll(s) + t) == s + Unescaped(t)
  {
    hide Unescaped, Escaped;
    if s == [] {
      assert EscapedAll(s) + t == t;
    } else {
      var m := |s| - 1;
      UnescapedAll(s[..m], Escaped(s[m]) + t);
      UnescapedOne(s[m], t);
      assert EscapedAll(s) + t == EscapedAll(s[..m]) + (Escaped(s[m]) + t);
      assert s == s[..m] + [s[m]];
    }
  }

  /** The escaped text reads back as the text. */
  lemma UnescapeInvertsEscape(s: seq<Byte>)
    ensures Unescaped(EscapedAll(s)) == s
  {
    UnescapedAll(s, []);
    assert EscapedAll(s) + [] == EscapedAll(s);
  }

  /** Nothing in escaped text opens or closes a tag or an attribute, and every ampersand begins one of the
      four entities. */
  lemma {:induction false} EscapedIsHarmless(s: seq<Byte>, k: nat)
    requires k < |EscapedAll(s)|
    ensures var e := EscapedAll(s);
            && e[k] != '<' as int && e[k] != '>' as int && e[k] != '"' as int
            && (e[k] == '&' as int ==> LT <= e[k..] || GT <= e[k..] || AMP <= e[k..] || QUOT <= e[k..])
  {
    var m := |s| - 1;
    var before, last := EscapedAll(s[..m]), Escaped(s[m]);
    if k < |before| {
      EscapedIsHarmless(s[..m], k);
      assert EscapedAll(s)[k..] == before[k..] + last;
    } else {
      assert EscapedAll(s)[k..] == last[k - |before|..];
      assert last[0..] == last;
    }
  }

  lemma NothingEscaped()
    ensures EscapedAll([]) == []
  {
  }

  lemma EscapedNext(s: seq<Byte>, p: nat)
    requires p < |s|
    ensures EscapedAll(s[..p + 1]) == EscapedAll(s[..p]) + Escaped(s[p])
  {
    assert s[..p + 1][..p] == s[..p];
  }

  /** Nothing that opens or closes a tag or an attribute. */
  predicate Harmless(e: seq<Byte>) {
    forall k :: 0 <= k < |e| ==> e[k] != '<' as int && e[k] != '>' as int && e[k] != '"' as int
  }

  lemma AllHarmless(s: seq<Byte>)
    ensures Harmless(EscapedAll(s))
  {
    forall k | 0 <= k < |EscapedAll(s)|
      ensures var e := EscapedAll(s); e[k] != '<' as int && e[k] != '>' as int && e[k] != '"' as int
    {
      EscapedIsHarmless(s, k);
    }
  }

  lemma {:induction false} EscapedLength(s: seq<Byte>)
    ensures |s| <= |EscapedAll(s)| <= 6 * |s|
  {
    if s != [] { EscapedLength(s[..|s| - 1]); }
  }

  /** Escaping into a buffer: a zero-terminated run of whole escaped characters, cut, if it is cut, only
      where fewer than eight bytes are left. */
  method HtmlEscape(text: seq<Byte>, out: array<Byte>) returns (ghost kept: nat, ghost length: nat)
    requires out.Length > 0
    modifies out
    ensures kept <= |text| && length < out.Length && out[length] == 0
    ensures out[..length] == EscapedAll(text[..kept]) && Unescaped(out[..length]) == text[..kept]
    ensures kept < |text| ==> length + 7 >= out.Length
    ensures Harmless(out[..length])
  {
    hide Harmless, Unescaped, Escaped, EscapedAll;
    NothingEscaped();
    var o: nat, p: nat := 0, 0;
    assert text[..0] == [];
    while p < |text| && o + 7 < out.Length
      invariant p <= |text| && o < out.Length && (o == 0 || o + 1 < out.Length)
      invariant out[..o] == EscapedAll(text[..p])
    {
      var rep := Escaped(text[p]);
      forall k | 0 <= k < |rep| { out[o + k] := rep[k]; }
      assert out[..o + |rep|] == EscapedAll(text[..p]) + rep;
      EscapedNext(text, p);
      o, p := o + |rep|, p + 1;
    }
    out[o] := 0;
    kept, length := p, o;
    UnescapeInvertsEscape(text[..p]);
    AllHarmless(text[..p]);
  }

  /** A text of at most 32 bytes always fits a 224-byte buffer. */
  lemma NetworkNameFits(text: seq<Byte>, kept: nat)
    requires |text| <= 32 && kept <= |text|
    requires kept < |text| ==> |EscapedAll(text[..kept])| + 7 >= 224
    ensures kept == |text|
  {
    EscapedLength(text[..kept]);
  }
}
