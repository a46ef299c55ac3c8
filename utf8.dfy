/**
 UTF-8 as defined by RFC 3629. Section 4 of RFC 3629 gives the syntax of
 well-formed byte sequences (the predicates below follow its ABNF rules one by
 one); it excludes overlong forms, the surrogates U+D800..U+DFFF and values
 above U+10FFFF, exactly what Python's strict `bytes.decode()` rejects. A
 Dafny `char` is a Unicode scalar value, so a decoded text is a `string`.
 */
module Utf8 {

  import opened Wrappers
  import opened PyBytes

  /** UTF8-tail = %x80-BF */
  predicate IsTail(b: byte)
  {
    0x80 <= b <= 0xBF
  }

  /** UTF8-1 = %x00-7F */
  predicate IsChar1(c: seq<byte>)
  {
    |c| == 1 && c[0] <= 0x7F
  }

  /** UTF8-2 = %xC2-DF UTF8-tail */
  predicate IsChar2(c: seq<byte>)
  {
    |c| == 2 && 0xC2 <= c[0] <= 0xDF && IsTail(c[1])
  }

  /**
   UTF8-3 = %xE0 %xA0-BF UTF8-tail / %xE1-EC 2( UTF8-tail ) /
            %xED %x80-9F UTF8-tail / %xEE-EF 2( UTF8-tail )
   */
  predicate IsChar3(c: seq<byte>)
  {
    |c| == 3 && IsTail(c[2]) &&
    ((c[0] == 0xE0 && 0xA0 <= c[1] <= 0xBF) ||
     (0xE1 <= c[0] <= 0xEC && IsTail(c[1])) ||
     (c[0] == 0xED && 0x80 <= c[1] <= 0x9F) ||
     (0xEE <= c[0] <= 0xEF && IsTail(c[1])))
  }

  /**
   UTF8-4 = %xF0 %x90-BF 2( UTF8-tail ) / %xF1-F3 3( UTF8-tail ) /
            %xF4 %x80-8F 2( UTF8-tail )
   */
  predicate IsChar4(c: seq<byte>)
  {
    |c| == 4 && IsTail(c[2]) && IsTail(c[3]) &&
    ((c[0] == 0xF0 && 0x90 <= c[1] <= 0xBF) ||
     (0xF1 <= c[0] <= 0xF3 && IsTail(c[1])) ||
     (c[0] == 0xF4 && 0x80 <= c[1] <= 0x8F))
  }

  /** UTF8-char = UTF8-1 / UTF8-2 / UTF8-3 / UTF8-4 */
  predicate IsChar(c: seq<byte>)
  {
    IsChar1(c) || IsChar2(c) || IsChar3(c) || IsChar4(c)
  }

  /** UTF8-octets = *( UTF8-char ) */
  predicate IsOctets(s: seq<byte>)
    decreases |s|
  {
    s == [] || exists w :: 1 <= w <= 4 && w <= |s| && IsChar(s[..w]) && IsOctets(s[w..])
  }

  /** A Unicode scalar value: a code point that is not a surrogate. */
  predicate IsScalar(n: int)
  {
    (0 <= n < 0xD800) || (0xE000 <= n < 0x11_0000)
  }

  /**
   The width of the UTF8-char that begins `s`, or 0 when no prefix of `s` is
   one. The lead byte fixes the width, so at most one prefix qualifies.
   */
  function CharWidth(s: seq<byte>): (w: nat)
    ensures w <= 4 && w <= |s|
    ensures w > 0 ==> IsChar(s[..w])
    ensures forall v :: 1 <= v <= |s| && IsChar(s[..v]) ==> v == w
  {
    if |s| >= 1 && IsChar(s[..1]) then 1
    else if |s| >= 2 && IsChar(s[..2]) then 2
    else if |s| >= 3 && IsChar(s[..3]) then 3
    else if |s| >= 4 && IsChar(s[..4]) then 4
    else 0
  }

  /**
   The code point a UTF8-char stands for. Its range depends on the width
   (section 3 of RFC 3629), so no value has two encodings.
   */
  function CodePoint(c: seq<byte>): (n: nat)
    requires IsChar(c)
    ensures IsScalar(n)
    ensures |c| == 1 ==> n < 0x80
    ensures |c| == 2 ==> 0x80 <= n < 0x800
    ensures |c| == 3 ==> 0x800 <= n < 0x1_0000
    ensures |c| == 4 ==> 0x1_0000 <= n < 0x11_0000
  {
    var b0, b1, b2, b3 := c[0] as int, ByteOrZero(c, 1), ByteOrZero(c, 2), ByteOrZero(c, 3);
    if |c| == 1 then b0
    else if |c| == 2 then (b0 - 0xC0) * 0x40 + (b1 - 0x80)
    else if |c| == 3 then (b0 - 0xE0) * 0x1000 + (b1 - 0x80) * 0x40 + (b2 - 0x80)
    else (b0 - 0xF0) * 0x4_0000 + (b1 - 0x80) * 0x1000 + (b2 - 0x80) * 0x40 + (b3 - 0x80)
  }

  /** Python's strict `payload.decode()`; None stands for UnicodeDecodeError. */
  function Decode(s: seq<byte>): (r: Option<string>)
    ensures r.Some? ==> |r.value| <= |s|
    decreases |s|
  {
    if s == [] then Some([])
    else
      var w := CharWidth(s);
      if w == 0 then None
      else
        match Decode(s[w..])
        case None => None
        case Some(rest) => Some([CodePoint(s[..w]) as char] + rest)
  }

  /** The UTF-8 encoding of one scalar value (the table in section 3 of RFC 3629). */
  function EncodeChar(ch: char): (c: seq<byte>)
    ensures 1 <= |c| <= 4
  {
    var n := ch as int;
    if n < 0x80 then [n]
    else if n < 0x800 then [0xC0 + n / 0x40, 0x80 + n % 0x40]
    else if n < 0x1_0000 then
      var r := n % 0x1000;
      [0xE0 + n / 0x1000, 0x80 + r / 0x40, 0x80 + r % 0x40]
    else
      var r := n % 0x4_0000;
      var r' := r % 0x1000;
      [0xF0 + n / 0x4_0000, 0x80 + r / 0x1000, 0x80 + r' / 0x40, 0x80 + r' % 0x40]
  }

  /** Every scalar value encodes to a well-formed UTF8-char that decodes back to it. */
  lemma EncodeCharIsChar(ch: char)
    ensures IsChar(EncodeChar(ch)) && CodePoint(EncodeChar(ch)) == ch as int
  {
    var n := ch as int;
    var c := EncodeChar(ch);
    if n < 0x80 {
    } else if n < 0x800 {
      assert n == (n / 0x40) * 0x40 + n % 0x40;
    } else if n < 0x1_0000 {
      var r := n % 0x1000;
      assert n == (n / 0x1000) * 0x1000 + r;
      assert r == (r / 0x40) * 0x40 + r % 0x40;
      assert IsChar3(c);
    } else {
      var r := n % 0x4_0000;
      var r' := r % 0x1000;
      assert n == (n / 0x4_0000) * 0x4_0000 + r;
      assert r == (r / 0x1000) * 0x1000 + r';
      assert r' == (r' / 0x40) * 0x40 + r' % 0x40;
      assert IsChar4(c);
    }
  }

  /** `text.encode()`: the encodings of the characters, one after another. */
  function Encode(text: string): seq<byte>
  {
    if text == [] then [] else EncodeChar(text[0]) + Encode(text[1..])
  }

  /** Distinct well-formed characters stand for distinct code points. */
  lemma CodePointInjective(a: seq<byte>, b: seq<byte>)
    requires IsChar(a) && IsChar(b) && CodePoint(a) == CodePoint(b)
    ensures a == b
  {
    assert |a| == |b|;
    var a0, a1, a2, a3 := a[0] as int, ByteOrZero(a, 1), ByteOrZero(a, 2), ByteOrZero(a, 3);
    var b0, b1, b2, b3 := b[0] as int, ByteOrZero(b, 1), ByteOrZero(b, 2), ByteOrZero(b, 3);
    if |a| == 2 {
      SameDigits(a0 - 0xC0, a1 - 0x80, b0 - 0xC0, b1 - 0x80);
    } else if |a| == 3 {
      SameDigits((a0 - 0xE0) * 0x40 + (a1 - 0x80), a2 - 0x80, (b0 - 0xE0) * 0x40 + (b1 - 0x80), b2 - 0x80);
      SameDigits(a0 - 0xE0, a1 - 0x80, b0 - 0xE0, b1 - 0x80);
    } else if |a| == 4 {
      SameDigits((a0 - 0xF0) * 0x1000 + (a1 - 0x80) * 0x40 + (a2 - 0x80), a3 - 0x80,
                 (b0 - 0xF0) * 0x1000 + (b1 - 0x80) * 0x40 + (b2 - 0x80), b3 - 0x80);
      SameDigits((a0 - 0xF0) * 0x40 + (a1 - 0x80), a2 - 0x80, (b0 - 0xF0) * 0x40 + (b1 - 0x80), b2 - 0x80);
      SameDigits(a0 - 0xF0, a1 - 0x80, b0 - 0xF0, b1 - 0x80);
    }
  }

  /** A value has one representation as `q * 64 + r` with `0 <= r < 64`. */
  lemma SameDigits(q: int, r: int, q': int, r': int)
    requires 0 <= r < 0x40 && 0 <= r' < 0x40 && q * 0x40 + r == q' * 0x40 + r'
    ensures q == q' && r == r'
  {
  }

  /** The greedy decoder succeeds exactly on the sequences the grammar of RFC 3629 accepts. */
  lemma {:induction false} DecodeSucceedsIffWellFormed(s: seq<byte>)
    ensures Decode(s).Some? <==> IsOctets(s)
    decreases |s|
  {
    if s != [] {
      var w := CharWidth(s);
      if w > 0 {
        DecodeSucceedsIffWellFormed(s[w..]);
      }
    }
  }

  /** Decoding undoes encoding. */
  lemma {:induction false} DecodeEncode(text: string)
    ensures Decode(Encode(text)) == Some(text)
  {
    if text != [] {
      var c := EncodeChar(text[0]);
      EncodeCharIsChar(text[0]);
      var s := Encode(text);
      assert s == c + Encode(text[1..]);
      assert s[..|c|] == c;
      assert CharWidth(s) == |c|;
      assert s[|c|..] == Encode(text[1..]);
      DecodeEncode(text[1..]);
      assert (CodePoint(c) as char) == text[0];
      assert Decode(s) == Some([text[0]] + text[1..]);
      assert [text[0]] + text[1..] == text;
    }
  }

  /** A successful decode of a non-empty sequence is its first char followed by the decode of the rest. */
  lemma DecodeFirst(s: seq<byte>)
    requires s != [] && Decode(s).Some?
    ensures CharWidth(s) > 0 && Decode(s[CharWidth(s)..]).Some?
    ensures Decode(s).value == [CodePoint(s[..CharWidth(s)]) as char] + Decode(s[CharWidth(s)..]).value
  {
  }

  /** Encoding a text that starts with `ch` starts with the encoding of `ch`. */
  lemma EncodeFirst(ch: char, rest: string)
    ensures Encode([ch] + rest) == EncodeChar(ch) + Encode(rest)
  {
    assert ([ch] + rest)[1..] == rest;
  }

  /** Encoding the code point of a well-formed UTF8-char gives back that char. */
  lemma EncodeCodePoint(c: seq<byte>)
    requires IsChar(c)
    ensures EncodeChar(CodePoint(c) as char) == c
  {
    var ch := CodePoint(c) as char;
    EncodeCharIsChar(ch);
    CodePointInjective(EncodeChar(ch), c);
  }

  /** Encoding undoes decoding. */
  lemma {:induction false} EncodeDecode(s: seq<byte>)
    requires Decode(s).Some?
    ensures Encode(Decode(s).value) == s
    decreases |s|
  {
    if s != [] {
      DecodeFirst(s);
      var w := CharWidth(s);
      var head, tail := s[..w], s[w..];
      var ch := CodePoint(head) as char;
      var rest := Decode(tail).value;
      calc {
        Encode(Decode(s).value);
        Encode([ch] + rest);
        { EncodeFirst(ch, rest); }
        EncodeChar(ch) + Encode(rest);
        { EncodeCodePoint(head); EncodeDecode(tail); }
        head + tail;
        s;
      }
    }
  }

  /** `s.decode()` yields `text` exactly when `s` is the UTF-8 encoding of `text`. */
  lemma DecodeIsInverse(s: seq<byte>, text: string)
    ensures Decode(s) == Some(text) <==> Encode(text) == s
  {
    if Decode(s) == Some(text) {
      EncodeDecode(s);
    }
    if Encode(text) == s {
      DecodeEncode(text);
    }
  }
}
