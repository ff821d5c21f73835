/** Strict UTF-8 as section 4 of RFC 3629 defines it (the grammar of UTF8-char),
    which is what Go's `utf8.Valid` accepts and what `[]rune(string(b))` decodes
    when `b` is valid. */
module Utf8 {

  /** One byte of a key or value, as Go's `byte`. */
  type Byte = b: int | 0 <= b < 0x100

  /** A Unicode scalar value: a code point up to U+10FFFF that is not a surrogate. */
  predicate IsScalar(c: int) {
    0 <= c < 0xD800 || 0xE000 <= c < 0x11_0000
  }

  predicate AllScalars(rs: seq<int>) {
    forall i :: 0 <= i < |rs| ==> IsScalar(rs[i])
  }

  /** A continuation byte, UTF8-tail in RFC 3629. */
  predicate IsTail(b: Byte) {
    0x80 <= b <= 0xBF
  }

  /** Bounds on the second byte of a three- or four-byte sequence, by lead byte:
      they exclude overlong forms (E0, F0), surrogates (ED) and code points
      above U+10FFFF (F4). */
  function SecondLow(lead: Byte): Byte {
    if lead == 0xE0 then 0xA0 else if lead == 0xF0 then 0x90 else 0x80
  }

  function SecondHigh(lead: Byte): Byte {
    if lead == 0xED then 0x9F else if lead == 0xF4 then 0x8F else 0xBF
  }

  /** The length of the UTF8-char at the head of `s`, or 0 when `s` does not
      start with one. */
  function HeadLen(s: seq<Byte>): (n: nat)
    ensures n <= 4 && n <= |s|
  {
    if |s| == 0 then 0
    else if s[0] < 0x80 then 1
    else if 0xC2 <= s[0] <= 0xDF then
      if 2 <= |s| && IsTail(s[1]) then 2 else 0
    else if 0xE0 <= s[0] <= 0xEF then
      if 3 <= |s| && SecondLow(s[0]) <= s[1] <= SecondHigh(s[0]) && IsTail(s[2]) then 3 else 0
    else if 0xF0 <= s[0] <= 0xF4 then
      if 4 <= |s| && SecondLow(s[0]) <= s[1] <= SecondHigh(s[0]) && IsTail(s[2]) && IsTail(s[3]) then 4 else 0
    else 0
  }

  /** `s` is a concatenation of UTF8-chars (Go's `utf8.Valid`). */
  predicate Valid(s: seq<Byte>)
    decreases |s|
  {
    s == [] || (HeadLen(s) > 0 && Valid(s[HeadLen(s)..]))
  }

  /** The code point of the UTF8-char at the head of `s`. */
  function DecodeHead(s: seq<Byte>): int
    requires HeadLen(s) > 0
  {
    var n, b0: int := HeadLen(s), s[0];
    if n == 1 then b0
    else if n == 2 then Join2(b0 - 0xC0, s[1] - 0x80)
    else if n == 3 then Join3(b0 - 0xE0, s[1] - 0x80, s[2] - 0x80)
    else Join4(b0 - 0xF0, s[1] - 0x80, s[2] - 0x80, s[3] - 0x80)
  }

  /** Joins the payload bits of a sequence's bytes, six bits per continuation byte. */
  function Join2(x: int, y: int): int { x * 0x40 + y }
  function Join3(x: int, y: int, z: int): int { Join2(x, y) * 0x40 + z }
  function Join4(x: int, y: int, z: int, w: int): int { Join3(x, y, z) * 0x40 + w }

  /** The code points of a valid byte sequence, as Go's `[]rune(string(s))`. */
  function Decode(s: seq<Byte>): (rs: seq<int>)
    requires Valid(s)
    ensures AllScalars(rs)
    ensures |rs| <= |s|
    ensures s != [] ==> |rs| > 0
    decreases |s|
  {
    if s == [] then []
    else
      DecodeHeadIsScalar(s);
      [DecodeHead(s)] + Decode(s[HeadLen(s)..])
  }

  /** The UTF-8 encoding of one scalar value, as Go's `string(r)`. */
  function EncodeRune(c: int): (bytes: seq<Byte>)
    requires IsScalar(c)
    ensures 1 <= |bytes| <= 4
    ensures |bytes| == 1 <==> c < 0x80
  {
    if c < 0x80 then [c]
    else if c < 0x800 then [0xC0 + c / 0x40, 0x80 + c % 0x40]
    else if c < 0x1_0000 then [0xE0 + c / 0x40 / 0x40, 0x80 + c / 0x40 % 0x40, 0x80 + c % 0x40]
    else [0xF0 + c / 0x40 / 0x40 / 0x40, 0x80 + c / 0x40 / 0x40 % 0x40, 0x80 + c / 0x40 % 0x40, 0x80 + c % 0x40]
  }

  /** The UTF-8 encoding of a sequence of scalar values, as Go's `string(rs)`. */
  function Encode(rs: seq<int>): (s: seq<Byte>)
    requires AllScalars(rs)
    ensures |rs| <= |s| <= 4 * |rs|
  {
    if rs == [] then [] else EncodeRune(rs[0]) + Encode(rs[1..])
  }

  lemma Split64(q: int, r: int)
    requires 0 <= r < 0x40
    ensures (q * 0x40 + r) / 0x40 == q && (q * 0x40 + r) % 0x40 == r
  {
  }

  lemma DecodeHeadIsScalar(s: seq<Byte>)
    requires HeadLen(s) > 0
    ensures IsScalar(DecodeHead(s))
  {
  }

  /** Encoding the decoded head gives back the head bytes. */
  lemma EncodeDecodeHead(s: seq<Byte>)
    requires HeadLen(s) > 0
    ensures IsScalar(DecodeHead(s)) && EncodeRune(DecodeHead(s)) == s[..HeadLen(s)]
  {
    DecodeHeadIsScalar(s);
    var n := HeadLen(s);
    if n == 2 {
      EncodeJoin2(s[0], s[1]);
      assert s[..2] == [s[0], s[1]];
    } else if n == 3 {
      EncodeJoin3(s[0], s[1], s[2]);
      assert s[..3] == [s[0], s[1], s[2]];
    } else if n == 4 {
      EncodeJoin4(s[0], s[1], s[2], s[3]);
      assert s[..4] == [s[0], s[1], s[2], s[3]];
    }
  }

  lemma EncodeJoin2(b0: Byte, b1: Byte)
    requires 0xC2 <= b0 <= 0xDF && IsTail(b1)
    ensures var c := Join2(b0 - 0xC0, b1 - 0x80);
      IsScalar(c) && EncodeRune(c) == [b0, b1]
  {
    Split64(b0 - 0xC0, b1 - 0x80);
  }

  lemma EncodeJoin3(b0: Byte, b1: Byte, b2: Byte)
    requires 0xE0 <= b0 <= 0xEF && SecondLow(b0) <= b1 <= SecondHigh(b0) && IsTail(b2)
    ensures var c := Join3(b0 - 0xE0, b1 - 0x80, b2 - 0x80);
      IsScalar(c) && EncodeRune(c) == [b0, b1, b2]
  {
    Split64(Join2(b0 - 0xE0, b1 - 0x80), b2 - 0x80);
    Split64(b0 - 0xE0, b1 - 0x80);
  }

  lemma EncodeJoin4(b0: Byte, b1: Byte, b2: Byte, b3: Byte)
    requires 0xF0 <= b0 <= 0xF4 && SecondLow(b0) <= b1 <= SecondHigh(b0) && IsTail(b2) && IsTail(b3)
    ensures var c := Join4(b0 - 0xF0, b1 - 0x80, b2 - 0x80, b3 - 0x80);
      IsScalar(c) && EncodeRune(c) == [b0, b1, b2, b3]
  {
    Split64(Join3(b0 - 0xF0, b1 - 0x80, b2 - 0x80), b3 - 0x80);
    Split64(Join2(b0 - 0xF0, b1 - 0x80), b2 - 0x80);
    Split64(b0 - 0xF0, b1 - 0x80);
  }

  /** Decoding the encoding of a scalar value, followed by anything, reads that
      value back and consumes exactly its encoding. */
  lemma DecodeEncodeRune(c: int, rest: seq<Byte>)
    requires IsScalar(c)
    ensures HeadLen(EncodeRune(c) + rest) == |EncodeRune(c)|
    ensures DecodeHead(EncodeRune(c) + rest) == c
  {
    var e := EncodeRune(c);
    var u := e + rest;
    assert forall i :: 0 <= i < |e| ==> u[i] == e[i];
    if c < 0x80 {
    } else if c < 0x800 {
      RuneBytes2(c);
    } else if c < 0x1_0000 {
      RuneBytes3(c);
    } else {
      RuneBytes4(c);
    }
  }

  lemma RuneBytes2(c: int)
    requires 0x80 <= c < 0x800
    ensures var e := EncodeRune(c);
      |e| == 2 && 0xC2 <= e[0] <= 0xDF && IsTail(e[1]) && Join2(e[0] - 0xC0, e[1] - 0x80) == c
  {
  }

  lemma RuneBytes3(c: int)
    requires IsScalar(c) && 0x800 <= c < 0x1_0000
    ensures var e := EncodeRune(c);
      && |e| == 3 && 0xE0 <= e[0] <= 0xEF && SecondLow(e[0]) <= e[1] <= SecondHigh(e[0]) && IsTail(e[2])
      && Join3(e[0] - 0xE0, e[1] - 0x80, e[2] - 0x80) == c
  {
    var q1, r0 := c / 0x40, c % 0x40;
    var q2, r1 := q1 / 0x40, q1 % 0x40;
    assert c == q1 * 0x40 + r0 && q1 == q2 * 0x40 + r1;
  }

  lemma RuneBytes4(c: int)
    requires IsScalar(c) && 0x1_0000 <= c
    ensures var e := EncodeRune(c);
      && |e| == 4 && 0xF0 <= e[0] <= 0xF4 && SecondLow(e[0]) <= e[1] <= SecondHigh(e[0]) && IsTail(e[2]) && IsTail(e[3])
      && Join4(e[0] - 0xF0, e[1] - 0x80, e[2] - 0x80, e[3] - 0x80) == c
  {
    var q1, r0 := c / 0x40, c % 0x40;
    var q2, r1 := q1 / 0x40, q1 % 0x40;
    var q3, r2 := q2 / 0x40, q2 % 0x40;
    assert c == q1 * 0x40 + r0 && q1 == q2 * 0x40 + r1 && q2 == q3 * 0x40 + r2;
  }

  /** A head code point whose encoding is the first `n` bytes of `s`, followed
      by code points whose encoding is the rest, encode to `s`. */
  lemma JoinPieces(s: seq<Byte>, n: nat, c: int, rs: seq<int>)
    requires n <= |s| && IsScalar(c) && AllScalars(rs)
    requires EncodeRune(c) == s[..n] && Encode(rs) == s[n..]
    ensures AllScalars([c] + rs) && Encode([c] + rs) == s
  {
    assert ([c] + rs)[1..] == rs;
    assert s == s[..n] + s[n..];
  }

  /** Encoding distributes over concatenation. */
  lemma {:induction false} EncodeAppend(a: seq<int>, b: seq<int>)
    requires AllScalars(a) && AllScalars(b)
    ensures AllScalars(a + b) && Encode(a + b) == Encode(a) + Encode(b)
  {
    if a != [] {
      assert (a + b)[1..] == a[1..] + b;
      EncodeAppend(a[1..], b);
    } else {
      assert a + b == b;
    }
  }

  /** Re-encoding the code points of a valid byte sequence gives the sequence
      back: Go's `string([]rune(string(s)))` is `s` when `s` is valid. */
  lemma {:induction false} EncodeDecode(s: seq<Byte>)
    requires Valid(s)
    ensures Encode(Decode(s)) == s
  {
    if s != [] {
      var n := HeadLen(s);
      EncodeDecodeHead(s);
      EncodeDecode(s[n..]);
      JoinPieces(s, n, DecodeHead(s), Decode(s[n..]));
    }
  }

  /** Every encoding of scalar values is valid UTF-8 and decodes to those
      values. */
  lemma {:induction false} DecodeEncode(rs: seq<int>)
    requires AllScalars(rs)
    ensures Valid(Encode(rs)) && Decode(Encode(rs)) == rs
  {
    if rs != [] {
      var head, rest := EncodeRune(rs[0]), Encode(rs[1..]);
      DecodeEncodeRune(rs[0], rest);
      assert (head + rest)[|head|..] == rest;
      DecodeEncode(rs[1..]);
    }
  }

  /** The encoding of the first `k` code points of a valid sequence is a byte
      prefix of it: truncating by code points never splits a UTF8-char. */
  lemma DecodedPrefix(s: seq<Byte>, k: nat)
    requires Valid(s) && k <= |Decode(s)|
    ensures Encode(Decode(s)[..k]) <= s
  {
    var rs := Decode(s);
    assert rs == rs[..k] + rs[k..];
    EncodeAppend(rs[..k], rs[k..]);
    EncodeDecode(s);
  }

  /** A sequence of ASCII bytes is valid UTF-8, one byte per UTF8-char. */
  lemma {:induction false} AsciiIsValid(s: seq<Byte>)
    requires forall i :: 0 <= i < |s| ==> s[i] < 0x80
    ensures Valid(s) && |Decode(s)| == |s|
    decreases |s|
  {
    if s != [] {
      AsciiIsValid(s[1..]);
    }
  }

  /** A UTF8-char at the head of `a` stays one at the head of `a + b`. */
  lemma HeadLenAppend(a: seq<Byte>, b: seq<Byte>)
    requires HeadLen(a) > 0
    ensures HeadLen(a + b) == HeadLen(a)
  {
    var n := HeadLen(a);
    assert forall k :: 0 <= k < n ==> (a + b)[k] == a[k];
  }

  /** After a valid prefix, the rest decides validity: a concatenation of
      valid sequences is valid, and a valid sequence followed by invalid bytes
      is invalid. */
  lemma {:induction false} ValidAppend(a: seq<Byte>, b: seq<Byte>)
    requires Valid(a)
    ensures Valid(a + b) <==> Valid(b)
    decreases |a|
  {
    if a == [] {
      assert a + b == b;
    } else {
      var n := HeadLen(a);
      HeadLenAppend(a, b);
      assert (a + b)[n..] == a[n..] + b;
      ValidAppend(a[n..], b);
    }
  }

  /** The byte sequences RFC 3629 excludes are rejected: a lone continuation
      byte, a truncated sequence, overlong forms, an encoded surrogate and
      code points above U+10FFFF; the largest scalar value and U+FFFD are
      accepted. */
  lemma ValidBoundaries()
    ensures !Valid([0x80]) && !Valid([0xE2, 0x82])
    ensures !Valid([0xC0, 0xAF]) && !Valid([0xC1, 0xBF]) && !Valid([0xE0, 0x9F, 0xBF]) && !Valid([0xF0, 0x8F, 0xBF, 0xBF])
    ensures !Valid([0xED, 0xA0, 0x80]) && !Valid([0xF4, 0x90, 0x80, 0x80]) && !Valid([0xF5, 0x80, 0x80, 0x80])
    ensures Valid([0xF4, 0x8F, 0xBF, 0xBF]) && Valid([0xEF, 0xBF, 0xBD])
  {
    var top: seq<Byte>, fffd: seq<Byte> := [0xF4, 0x8F, 0xBF, 0xBF], [0xEF, 0xBF, 0xBD];
    assert top[4..] == [] && fffd[3..] == [];
  }
}
