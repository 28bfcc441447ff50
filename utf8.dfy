/** UTF-8 as section 3 of RFC 3629 defines it: `str.encode('utf-8')` and
    `bytes.decode('utf-8')` with Python's default (strict) error handling. */
module Utf8 {
  import opened Wrappers
  import opened PyText

  /** The code points UTF-8 cannot encode (section 3 of RFC 3629). */
  predicate IsSurrogate(c: CodePoint) {
    0xD800 <= c <= 0xDFFF
  }

  predicate IsContinuation(b: Byte) {
    0x80 <= b < 0xC0
  }

  /** The one to four bytes of a code point: the leading byte carries the
      length and the top bits, each continuation byte six more bits. */
  function EncodeCodePoint(c: CodePoint): (r: seq<Byte>)
    requires !IsSurrogate(c)
    ensures |r| == if c < 0x80 then 1 else if c < 0x800 then 2 else if c < 0x1_0000 then 3 else 4
  {
    var q1, r0 := c / 64, c % 64;
    var q2, r1 := q1 / 64, q1 % 64;
    var q3, r2 := q2 / 64, q2 % 64;
    if c < 0x80 then [c]
    else if c < 0x800 then [0xC0 + q1, 0x80 + r0]
    else if c < 0x1_0000 then [0xE0 + q2, 0x80 + r1, 0x80 + r0]
    else [0xF0 + q3, 0x80 + r2, 0x80 + r1, 0x80 + r0]
  }

  /** `s.encode('utf-8')`, or None for the `UnicodeEncodeError` that a
      surrogate raises. */
  function Encode(s: Str): (r: Option<seq<Byte>>)
    ensures r.None? <==> exists i :: 0 <= i < |s| && IsSurrogate(s[i])
    ensures r.Some? ==> |s| <= |r.value| <= 4 * |s|
    decreases |s|
  {
    if s == [] then Some([])
    else if IsSurrogate(s[0]) then None
    else
      match Encode(s[1..])
      case None =>
        assert exists i :: 0 <= i < |s[1..]| && IsSurrogate(s[1..][i]);
        None
      case Some(rest) =>
        assert forall i :: 1 <= i < |s| ==> s[i] == s[1..][i - 1];
        Some(EncodeCodePoint(s[0]) + rest)
  }

  /** A text that holds a piece the encoder refuses is refused too. */
  lemma EncodeRefusesPiece(a: Str, s: Str, b: Str)
    requires Encode(s).None?
    ensures Encode(a + s + b).None?
  {
    var i :| 0 <= i < |s| && IsSurrogate(s[i]);
    assert (a + s + b)[|a| + i] == s[i];
  }

  /** The first code point of `b` and the number of bytes it takes, or None
      when `b` does not start with a well-formed UTF-8 sequence: a stray
      continuation byte, a truncated sequence, an overlong form, a
      surrogate or a value above U+10FFFF (section 4 of RFC 3629). */
  function DecodeFirst(b: seq<Byte>): (r: Option<(CodePoint, nat)>)
    requires b != []
    ensures r.Some? ==> 1 <= r.value.1 <= |b|
  {
    var b0: int := b[0];
    if b0 < 0x80 then Some((b0, 1))
    else if 0xC0 <= b0 < 0xE0 then
      if |b| >= 2 && IsContinuation(b[1]) then
        var c: int := (b0 - 0xC0) * 64 + (b[1] - 0x80);
        if 0x80 <= c then Some((c, 2)) else None
      else None
    else if 0xE0 <= b0 < 0xF0 then
      if |b| >= 3 && IsContinuation(b[1]) && IsContinuation(b[2]) then
        var c: int := ((b0 - 0xE0) * 64 + (b[1] - 0x80)) * 64 + (b[2] - 0x80);
        if 0x800 <= c && !IsSurrogate(c) then Some((c, 3)) else None
      else None
    else if 0xF0 <= b0 < 0xF8 then
      if |b| >= 4 && IsContinuation(b[1]) && IsContinuation(b[2]) && IsContinuation(b[3]) then
        var c: int := (((b0 - 0xF0) * 64 + (b[1] - 0x80)) * 64 + (b[2] - 0x80)) * 64 + (b[3] - 0x80);
        if 0x1_0000 <= c < 0x11_0000 then Some((c, 4)) else None
      else None
    else None
  }

  /** `b.decode('utf-8')`, or None for the `UnicodeDecodeError`. */
  function Decode(b: seq<Byte>): (r: Option<Str>)
    ensures r.Some? ==> |r.value| <= |b|
    decreases |b|
  {
    if b == [] then Some([])
    else
      match DecodeFirst(b)
      case None => None
      case Some((c, n)) =>
        match Decode(b[n..])
        case None => None
        case Some(rest) => Some([c] + rest)
  }

  /** Decoding reads back the code point that was encoded, and no more. */
  lemma DecodeFirstOfEncode(c: CodePoint, rest: seq<Byte>)
    requires !IsSurrogate(c)
    ensures DecodeFirst(EncodeCodePoint(c) + rest) == Some((c, |EncodeCodePoint(c)|))
  {
    var q1, r0 := c / 64, c % 64;
    var q2, r1 := q1 / 64, q1 % 64;
    var q3, r2 := q2 / 64, q2 % 64;
    assert c == q1 * 64 + r0;
    assert q1 == q2 * 64 + r1;
    assert q2 == q3 * 64 + r2;
  }

  /** Round trip: `s.encode('utf-8').decode('utf-8') == s`. */
  lemma {:induction false} DecodeOfEncode(s: Str)
    requires Encode(s).Some?
    ensures Decode(Encode(s).value) == Some(s)
    decreases |s|
  {
    if s != [] {
      var head := EncodeCodePoint(s[0]);
      var rest := Encode(s[1..]).value;
      var b := head + rest;
      assert Encode(s).value == b;
      DecodeFirstOfEncode(s[0], rest);
      assert b[|head|..] == rest;
      DecodeOfEncode(s[1..]);
      assert s == [s[0]] + s[1..];
    }
  }

  predicate IsAscii(b: seq<Byte>) {
    forall i :: 0 <= i < |b| ==> b[i] < 0x80
  }

  /** ASCII bytes decode to the code points with the same values. */
  lemma {:induction false} DecodeAscii(b: seq<Byte>)
    requires IsAscii(b)
    ensures Decode(b) == Some(b)
    decreases |b|
  {
    if b != [] {
      assert IsAscii(b[1..]);
      DecodeAscii(b[1..]);
      assert b == [b[0]] + b[1..];
    }
  }
}
