/**
 * UTF-8 as RFC 3629 defines it: the byte grammar of section 4 (which excludes
 * overlong forms, surrogates and values above U+10FFFF), a decoder that reads
 * code points by their bit patterns, and the encoder of section 3.
 */
module Utf8 {
  import opened Wrappers
  import opened Unicode

  newtype byte = b: int | 0 <= b < 0x100

  /** A PHP string: a sequence of bytes. */
  type Bytes = seq<byte>

  // ---------------------------------------------------------------------------
  // The grammar of section 4 of RFC 3629
  // ---------------------------------------------------------------------------

  /** UTF8-tail = %x80-BF */
  predicate IsTail(b: byte) {
    0x80 <= b <= 0xBF
  }

  /** UTF8-1 = %x00-7F */
  predicate IsChar1(c: Bytes) {
    |c| == 1 && c[0] <= 0x7F
  }

  /** UTF8-2 = %xC2-DF UTF8-tail */
  predicate IsChar2(c: Bytes) {
    |c| == 2 && 0xC2 <= c[0] <= 0xDF && IsTail(c[1])
  }

  /**
   * UTF8-3 = %xE0 %xA0-BF UTF8-tail / %xE1-EC 2( UTF8-tail ) /
   *          %xED %x80-9F UTF8-tail / %xEE-EF 2( UTF8-tail )
   */
  predicate IsChar3(c: Bytes) {
    && |c| == 3
    && IsTail(c[2])
    && (|| (c[0] == 0xE0 && 0xA0 <= c[1] <= 0xBF)
        || (0xE1 <= c[0] <= 0xEC && IsTail(c[1]))
        || (c[0] == 0xED && 0x80 <= c[1] <= 0x9F)
        || (0xEE <= c[0] <= 0xEF && IsTail(c[1])))
  }

  /**
   * UTF8-4 = %xF0 %x90-BF 2( UTF8-tail ) / %xF1-F3 3( UTF8-tail ) /
   *          %xF4 %x80-8F 2( UTF8-tail )
   */
  predicate IsChar4(c: Bytes) {
    && |c| == 4
    && IsTail(c[2]) && IsTail(c[3])
    && (|| (c[0] == 0xF0 && 0x90 <= c[1] <= 0xBF)
        || (0xF1 <= c[0] <= 0xF3 && IsTail(c[1]))
        || (c[0] == 0xF4 && 0x80 <= c[1] <= 0x8F))
  }

  /** UTF8-char = UTF8-1 / UTF8-2 / UTF8-3 / UTF8-4 */
  predicate IsChar(c: Bytes) {
    IsChar1(c) || IsChar2(c) || IsChar3(c) || IsChar4(c)
  }

  /** UTF8-octets = *( UTF8-char ) */
  predicate WellFormed(s: Bytes)
    decreases |s|
  {
    || s == []
    || (|s| >= 1 && IsChar(s[..1]) && WellFormed(s[1..]))
    || (|s| >= 2 && IsChar(s[..2]) && WellFormed(s[2..]))
    || (|s| >= 3 && IsChar(s[..3]) && WellFormed(s[3..]))
    || (|s| >= 4 && IsChar(s[..4]) && WellFormed(s[4..]))
  }

  // ---------------------------------------------------------------------------
  // Decoding by bit patterns
  // ---------------------------------------------------------------------------

  /**
   * Reads one code point from the head of `s`: 0xxxxxxx, 110xxxxx 10xxxxxx,
   * 1110xxxx 10xxxxxx 10xxxxxx or 11110xxx 10xxxxxx 10xxxxxx 10xxxxxx, and
   * rejects a value that has a shorter form, is a surrogate or exceeds U+10FFFF.
   * The result is the code point and the number of bytes it took.
   */
  function DecodeChar(s: Bytes): (r: Option<(CodePoint, nat)>)
    ensures r.Some? ==> 1 <= r.value.1 <= 4 && r.value.1 <= |s|
  {
    if |s| == 0 then None
    else
      var b0 := s[0] as int;
      if b0 < 0x80 then Some((b0, 1))
      else if b0 < 0xC0 then None
      else if b0 < 0xE0 then
        if |s| < 2 || !IsTail(s[1]) then None
        else
          var v := (b0 - 0xC0) * 0x40 + (s[1] as int - 0x80);
          if v < 0x80 then None else Some((v, 2))
      else if b0 < 0xF0 then
        if |s| < 3 || !IsTail(s[1]) || !IsTail(s[2]) then None
        else
          var v := (b0 - 0xE0) * 0x1000 + (s[1] as int - 0x80) * 0x40 + (s[2] as int - 0x80);
          if v < 0x800 || (0xD800 <= v < 0xE000) then None else Some((v, 3))
      else if b0 < 0xF8 then
        if |s| < 4 || !IsTail(s[1]) || !IsTail(s[2]) || !IsTail(s[3]) then None
        else
          var v := (b0 - 0xF0) * 0x40000 + (s[1] as int - 0x80) * 0x1000
                   + (s[2] as int - 0x80) * 0x40 + (s[3] as int - 0x80);
          if v < 0x10000 || v > 0x10FFFF then None else Some((v, 4))
      else None
  }

  /** Decodes a whole byte string, or None if any part of it is not UTF-8. */
  function Decode(s: Bytes): (r: Option<Text>)
    decreases |s|
  {
    if s == [] then Some([])
    else
      match DecodeChar(s)
      case None => None
      case Some((c, n)) =>
        match Decode(s[n..])
        case None => None
        case Some(t) => Some([c] + t)
  }

  // ---------------------------------------------------------------------------
  // Encoding, section 3 of RFC 3629
  // ---------------------------------------------------------------------------

  function EncodeChar(c: CodePoint): (b: Bytes)
    ensures 1 <= |b| <= 4
  {
    if c < 0x80 then [c as byte]
    else if c < 0x800 then
      assert c / 0x40 < 0x20;
      [(0xC0 + c / 0x40) as byte, (0x80 + c % 0x40) as byte]
    else if c < 0x10000 then
      assert c / 0x1000 < 0x10;
      [(0xE0 + c / 0x1000) as byte, (0x80 + c / 0x40 % 0x40) as byte, (0x80 + c % 0x40) as byte]
    else
      assert c / 0x40000 < 0x05;
      [(0xF0 + c / 0x40000) as byte, (0x80 + c / 0x1000 % 0x40) as byte,
       (0x80 + c / 0x40 % 0x40) as byte, (0x80 + c % 0x40) as byte]
  }

  function Encode(t: Text): (b: Bytes)
    ensures |t| <= |b|
    decreases |t|
  {
    if t == [] then [] else EncodeChar(t[0]) + Encode(t[1..])
  }

  // ---------------------------------------------------------------------------
  // The decoder accepts exactly the grammar
  // ---------------------------------------------------------------------------

  /** A character's width is fixed by its lead byte, so no UTF8-char is a prefix of another. */
  lemma CharWidthUnique(s: Bytes, m: nat, n: nat)
    requires m <= |s| && n <= |s|
    requires IsChar(s[..m]) && IsChar(s[..n])
    ensures m == n
  {
  }

  /** What DecodeChar accepts is one UTF8-char of the grammar, and conversely. */
  lemma DecodeCharAgrees(s: Bytes)
    ensures DecodeChar(s).Some? ==> IsChar(s[..DecodeChar(s).value.1])
    ensures forall n :: 1 <= n <= |s| && n <= 4 && IsChar(s[..n]) ==>
              DecodeChar(s).Some? && DecodeChar(s).value.1 == n
  {
  }

  /** Decoding succeeds exactly on the well-formed byte strings. */
  lemma {:induction false} DecodeDefinedIffWellFormed(s: Bytes)
    ensures Decode(s).Some? <==> WellFormed(s)
    decreases |s|
  {
    if s != [] {
      DecodeCharAgrees(s);
      match DecodeChar(s)
      case None =>
      case Some((c, n)) =>
        DecodeDefinedIffWellFormed(s[n..]);
        forall m | 1 <= m <= |s| && m <= 4 && IsChar(s[..m])
          ensures m == n
        {
          CharWidthUnique(s, m, n);
        }
    }
  }

  lemma Digits2(c: int)
    requires 0x80 <= c < 0x800
    ensures c == (c / 0x40) * 0x40 + c % 0x40
    ensures 0x02 <= c / 0x40 < 0x20
  {
  }

  lemma Digits3(c: int)
    requires 0x800 <= c < 0x10000
    ensures c == (c / 0x1000) * 0x1000 + (c / 0x40 % 0x40) * 0x40 + c % 0x40
    ensures c / 0x1000 < 0x10
  {
  }

  lemma Digits4(c: int)
    requires 0x10000 <= c < 0x110000
    ensures c == (c / 0x40000) * 0x40000 + (c / 0x1000 % 0x40) * 0x1000
                 + (c / 0x40 % 0x40) * 0x40 + c % 0x40
    ensures c / 0x40000 < 0x05
  {
  }

  /** Decoding the encoding of a code point gives the code point back, whatever follows. */
  lemma DecodeEncodeChar(c: CodePoint, rest: Bytes)
    ensures DecodeChar(EncodeChar(c) + rest) == Some((c, |EncodeChar(c)|))
  {
    var s := EncodeChar(c) + rest;
    if c < 0x80 {
    } else if c < 0x800 {
      Digits2(c);
      assert s[0] as int == 0xC0 + c / 0x40 && s[1] as int == 0x80 + c % 0x40;
    } else if c < 0x10000 {
      Digits3(c);
      assert s[0] as int == 0xE0 + c / 0x1000;
      assert s[1] as int == 0x80 + c / 0x40 % 0x40;
      assert s[2] as int == 0x80 + c % 0x40;
    } else {
      Digits4(c);
      assert s[0] as int == 0xF0 + c / 0x40000;
      assert s[1] as int == 0x80 + c / 0x1000 % 0x40;
      assert s[2] as int == 0x80 + c / 0x40 % 0x40;
      assert s[3] as int == 0x80 + c % 0x40;
    }
  }

  /** Round trip from text: Decode(Encode(t)) == Some(t). */
  lemma {:induction false} DecodeEncode(t: Text)
    ensures Decode(Encode(t)) == Some(t)
    decreases |t|
  {
    if t != [] {
      var s := Encode(t);
      assert s == EncodeChar(t[0]) + Encode(t[1..]);
      DecodeEncodeChar(t[0], Encode(t[1..]));
      assert s[|EncodeChar(t[0])|..] == Encode(t[1..]);
      DecodeEncode(t[1..]);
      assert [t[0]] + t[1..] == t;
    }
  }

  lemma Split2(x: int, y: int)
    requires 2 <= x < 0x20 && 0 <= y < 0x40
    ensures (x * 0x40 + y) / 0x40 == x && (x * 0x40 + y) % 0x40 == y
  {
  }

  lemma Split3(x: int, y: int, z: int)
    requires 0 <= x && 0 <= y < 0x40 && 0 <= z < 0x40
    ensures var v := x * 0x1000 + y * 0x40 + z;
      v / 0x1000 == x && v / 0x40 % 0x40 == y && v % 0x40 == z
  {
    var v := x * 0x1000 + y * 0x40 + z;
    var high := x * 0x40 + y;
    assert v == high * 0x40 + z;
    assert v / 0x40 == high && v % 0x40 == z;
    assert high % 0x40 == y;
  }

  lemma Split4(w: int, x: int, y: int, z: int)
    requires 0 <= w < 0x08 && 0 <= x < 0x40 && 0 <= y < 0x40 && 0 <= z < 0x40
    ensures var v := w * 0x40000 + x * 0x1000 + y * 0x40 + z;
      v / 0x40000 == w && v / 0x1000 % 0x40 == x && v / 0x40 % 0x40 == y && v % 0x40 == z
  {
    var v := w * 0x40000 + x * 0x1000 + y * 0x40 + z;
    var high := w * 0x40 + x;
    assert v == high * 0x1000 + y * 0x40 + z;
    Split3(high, y, z);
    assert v / 0x40000 == v / 0x1000 / 0x40;
  }

  /** The code point DecodeChar reads is re-encoded to exactly the bytes it was read from. */
  lemma EncodeDecodeChar(s: Bytes)
    requires DecodeChar(s).Some?
    ensures EncodeChar(DecodeChar(s).value.0) == s[..DecodeChar(s).value.1]
  {
    var (c, n) := DecodeChar(s).value;
    if n == 2 {
      Split2(s[0] as int - 0xC0, s[1] as int - 0x80);
    } else if n == 3 {
      Split3(s[0] as int - 0xE0, s[1] as int - 0x80, s[2] as int - 0x80);
    } else if n == 4 {
      Split4(s[0] as int - 0xF0, s[1] as int - 0x80, s[2] as int - 0x80, s[3] as int - 0x80);
    }
  }

  /** The encoding of a text is the encoding of its first code point followed by the rest. */
  lemma EncodeCons(c: CodePoint, rest: Text)
    ensures Encode([c] + rest) == EncodeChar(c) + Encode(rest)
  {
    assert ([c] + rest)[1..] == rest;
  }

  /** Decoding a non-empty string reads its first character, then decodes the rest. */
  lemma DecodeCons(s: Bytes)
    requires s != [] && Decode(s).Some?
    ensures DecodeChar(s).Some?
    ensures Decode(s[DecodeChar(s).value.1..]).Some?
    ensures Decode(s).value == [DecodeChar(s).value.0] + Decode(s[DecodeChar(s).value.1..]).value
  {
  }

  /** Bytes that split into an encoded code point and an encoded text encode their concatenation. */
  lemma EncodeJoin(s: Bytes, c: CodePoint, n: nat, rest: Text)
    requires n <= |s| && EncodeChar(c) == s[..n] && Encode(rest) == s[n..]
    ensures Encode([c] + rest) == s
  {
    EncodeCons(c, rest);
    assert s[..n] + s[n..] == s;
  }

  /** Round trip from bytes: a well-formed string is the encoding of what it decodes to. */
  lemma {:induction false} EncodeDecode(s: Bytes)
    requires Decode(s).Some?
    ensures Encode(Decode(s).value) == s
    decreases |s|
  {
    if s != [] {
      DecodeCons(s);
      var d := DecodeChar(s).value;
      EncodeDecodeChar(s);
      EncodeDecode(s[d.1..]);
      EncodeJoin(s, d.0, d.1, Decode(s[d.1..]).value);
    }
  }

  /** Whatever the encoder produces is well-formed. */
  lemma EncodeWellFormed(t: Text)
    ensures WellFormed(Encode(t))
  {
    DecodeEncode(t);
    DecodeDefinedIffWellFormed(Encode(t));
  }

  /** The octets C0, C1 and F5 to FF never appear in well-formed UTF-8 (section 1 of RFC 3629). */
  lemma {:induction false} NoForbiddenOctet(s: Bytes, i: nat)
    requires WellFormed(s) && i < |s|
    ensures s[i] != 0xC0 && s[i] != 0xC1 && s[i] < 0xF5
    decreases |s|
  {
    var n :| 1 <= n <= 4 && n <= |s| && IsChar(s[..n]) && WellFormed(s[n..]);
    if i < n {
      var c := s[..n];
      assert IsChar(c);
      assert c[i] == s[i];
    } else {
      assert s[i] == s[n..][i - n];
      NoForbiddenOctet(s[n..], i - n);
    }
  }
}
