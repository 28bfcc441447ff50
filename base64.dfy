/** Base 64 encoding as section 4 of RFC 4648 defines it: what
    `base64.b64encode` computes, and a strict decoder that is its inverse. */
module Base64 {
  import opened Wrappers
  import opened PyText

  /** The pad character '=' (section 4 of RFC 4648). */
  const PAD: Byte := '=' as int

  /** The character of a 6-bit value in the alphabet of table 1 of RFC 4648. */
  function EncodeSextet(v: int): (r: Byte)
    requires 0 <= v < 64
  {
    if v < 26 then 'A' as int + v
    else if v < 52 then 'a' as int + (v - 26)
    else if v < 62 then '0' as int + (v - 52)
    else if v == 62 then '+' as int
    else '/' as int
  }

  /** The 6-bit value of an alphabet character, or None for any other. */
  function DecodeSextet(c: int): (r: Option<int>)
    ensures r.Some? ==> 0 <= r.value < 64 && EncodeSextet(r.value) == c
  {
    if 'A' as int <= c <= 'Z' as int then Some(c - 'A' as int)
    else if 'a' as int <= c <= 'z' as int then Some(c - 'a' as int + 26)
    else if '0' as int <= c <= '9' as int then Some(c - '0' as int + 52)
    else if c == '+' as int then Some(62)
    else if c == '/' as int then Some(63)
    else None
  }

  predicate InAlphabet(c: int) {
    DecodeSextet(c).Some?
  }

  lemma DecodeEncodeSextet(v: int)
    requires 0 <= v < 64
    ensures DecodeSextet(EncodeSextet(v)) == Some(v)
  {
  }

  /** The number of '=' that end the encoding of `n` bytes. */
  function PadCount(n: nat): nat {
    (3 - n % 3) % 3
  }

  /** Three bytes, 24 bits, as four characters of six bits each. */
  function EncodeQuantum(b0: Byte, b1: Byte, b2: Byte): seq<Byte> {
    [EncodeSextet(b0 / 4), EncodeSextet((b0 % 4) * 16 + b1 / 16),
     EncodeSextet((b1 % 16) * 4 + b2 / 64), EncodeSextet(b2 % 64)]
  }

  /** `base64.b64encode(b)`: each group of three bytes becomes four
      characters; a final group of one or two bytes is padded with zero
      bits and then with '=' up to four characters. */
  function Encode(b: seq<Byte>): (r: seq<Byte>)
    ensures |r| == 4 * ((|b| + 2) / 3)
    decreases |b|
  {
    if |b| == 0 then []
    else if |b| == 1 then
      [EncodeSextet(b[0] / 4), EncodeSextet((b[0] % 4) * 16), PAD, PAD]
    else if |b| == 2 then
      [EncodeSextet(b[0] / 4), EncodeSextet((b[0] % 4) * 16 + b[1] / 16),
       EncodeSextet((b[1] % 16) * 4), PAD]
    else
      EncodeQuantum(b[0], b[1], b[2]) + Encode(b[3..])
  }

  lemma EncodeQuantumAlphabet(b0: Byte, b1: Byte, b2: Byte)
    ensures var q := EncodeQuantum(b0, b1, b2);
            forall i :: 0 <= i < 4 ==> InAlphabet(q[i])
  {
    DecodeEncodeSextet(b0 / 4);
    DecodeEncodeSextet((b0 % 4) * 16 + b1 / 16);
    DecodeEncodeSextet((b1 % 16) * 4 + b2 / 64);
    DecodeEncodeSextet(b2 % 64);
  }

  /** `r` is alphabet characters followed by exactly `p` '='. */
  predicate AlphabetThenPad(r: seq<int>, p: nat) {
    forall i :: 0 <= i < |r| ==>
      (r[i] == PAD <==> i >= |r| - p) && (r[i] != PAD ==> InAlphabet(r[i]))
  }

  lemma ConcatAlphabetThenPad(q: seq<Byte>, rest: seq<Byte>, p: nat)
    requires forall i :: 0 <= i < |q| ==> InAlphabet(q[i])
    requires AlphabetThenPad(rest, p) && p <= |rest|
    ensures AlphabetThenPad(q + rest, p)
  {
    var r := q + rest;
    assert !InAlphabet(PAD);
    forall i | 0 <= i < |r|
      ensures (r[i] == PAD <==> i >= |r| - p) && (r[i] != PAD ==> InAlphabet(r[i]))
    {
      if i < |q| {
        assert r[i] == q[i];
      } else {
        assert r[i] == rest[i - |q|];
      }
    }
  }

  lemma PadCountStep(n: nat)
    requires n >= 3
    ensures PadCount(n) == PadCount(n - 3) <= 4 * ((n - 3 + 2) / 3)
  {
    assert n % 3 == (n - 3) % 3;
  }

  lemma EncodeOneAlphabetThenPad(b0: Byte)
    ensures AlphabetThenPad(Encode([b0]), 2)
  {
    DecodeEncodeSextet(b0 / 4);
    DecodeEncodeSextet((b0 % 4) * 16);
  }

  lemma EncodeTwoAlphabetThenPad(b0: Byte, b1: Byte)
    ensures AlphabetThenPad(Encode([b0, b1]), 1)
  {
    DecodeEncodeSextet(b0 / 4);
    DecodeEncodeSextet((b0 % 4) * 16 + b1 / 16);
    DecodeEncodeSextet((b1 % 16) * 4);
  }

  /** The output is made of alphabet characters followed by the padding:
      position `i` holds '=' exactly when it is among the last
      `PadCount(|b|)` positions, and an alphabet character otherwise. */
  lemma {:induction false} EncodeAlphabetThenPad(b: seq<Byte>)
    ensures AlphabetThenPad(Encode(b), PadCount(|b|))
    decreases |b|
  {
    if |b| == 1 {
      EncodeOneAlphabetThenPad(b[0]);
      assert b == [b[0]];
    } else if |b| == 2 {
      EncodeTwoAlphabetThenPad(b[0], b[1]);
      assert b == [b[0], b[1]];
    } else if |b| > 2 {
      var rest := Encode(b[3..]);
      EncodeQuantumAlphabet(b[0], b[1], b[2]);
      EncodeAlphabetThenPad(b[3..]);
      PadCountStep(|b|);
      ConcatAlphabetThenPad(EncodeQuantum(b[0], b[1], b[2]), rest, PadCount(|b|));
    }
  }

  /** Four alphabet characters back to three bytes. */
  function DecodeQuantum(c0: int, c1: int, c2: int, c3: int): Option<seq<Byte>> {
    match (DecodeSextet(c0), DecodeSextet(c1), DecodeSextet(c2), DecodeSextet(c3))
    case (Some(v0), Some(v1), Some(v2), Some(v3)) =>
      Some([v0 * 4 + v1 / 16, (v1 % 16) * 16 + v2 / 4, (v2 % 4) * 64 + v3])
    case _ => None
  }

  /** The last quantum, which may end in "==" (one byte) or "=" (two bytes).
      The bits that padding leaves over must be zero (section 3.5 of
      RFC 4648), so every byte string has exactly one encoding. */
  function DecodeLastQuantum(c0: int, c1: int, c2: int, c3: int): Option<seq<Byte>> {
    if c2 == PAD && c3 == PAD then
      match (DecodeSextet(c0), DecodeSextet(c1))
      case (Some(v0), Some(v1)) => if v1 % 16 == 0 then Some([v0 * 4 + v1 / 16]) else None
      case _ => None
    else if c3 == PAD then
      match (DecodeSextet(c0), DecodeSextet(c1), DecodeSextet(c2))
      case (Some(v0), Some(v1), Some(v2)) =>
        if v2 % 4 == 0 then Some([v0 * 4 + v1 / 16, (v1 % 16) * 16 + v2 / 4]) else None
      case _ => None
    else DecodeQuantum(c0, c1, c2, c3)
  }

  /** A strict decoder: whole quanta of four alphabet characters, '='
      allowed only as the last one or two characters, and no bits left
      over by the padding set. */
  function Decode(t: Str): (r: Option<seq<Byte>>)
    decreases |t|
  {
    if |t| == 0 then Some([])
    else if |t| < 4 then None
    else if |t| == 4 then DecodeLastQuantum(t[0], t[1], t[2], t[3])
    else
      match (DecodeQuantum(t[0], t[1], t[2], t[3]), Decode(t[4..]))
      case (Some(q), Some(rest)) => Some(q + rest)
      case _ => None
  }

  /** A final "xy==" whose second character carries bits that the one
      decoded byte does not use is refused ("QR==" beside "QQ=="). */
  lemma DecodeRefusesOnePadBits(c0: int, c1: int)
    requires InAlphabet(c0) && InAlphabet(c1) && DecodeSextet(c1).value % 16 != 0
    ensures Decode([c0, c1, PAD as int, PAD as int]) == None
  {
  }

  /** A final "xyz=" whose third character carries unused bits is refused. */
  lemma DecodeRefusesTwoPadBits(c0: int, c1: int, c2: int)
    requires InAlphabet(c0) && InAlphabet(c1) && InAlphabet(c2) && DecodeSextet(c2).value % 4 != 0
    ensures Decode([c0, c1, c2, PAD as int]) == None
  {
  }

  /** Six high bits of one byte and two of it carried into the next sextet
      put the byte back together. */
  lemma SplitFirst(b0: Byte, b1: Byte)
    ensures var v1 := (b0 % 4) * 16 + b1 / 16;
            (b0 / 4) * 4 + v1 / 16 == b0 && v1 % 16 == b1 / 16
  {
    var x, y := b0 % 4, b1 / 16;
    assert 0 <= y < 16;
    assert (x * 16 + y) / 16 == x && (x * 16 + y) % 16 == y;
  }

  lemma SplitSecond(b1: Byte, b2: Byte)
    ensures var v2 := (b1 % 16) * 4 + b2 / 64;
            (b1 / 16) * 16 + v2 / 4 == b1 && v2 % 4 == b2 / 64
  {
    var x, y := b1 % 16, b2 / 64;
    assert 0 <= y < 4;
    assert (x * 4 + y) / 4 == x && (x * 4 + y) % 4 == y;
  }

  lemma DecodeOfQuantum(b0: Byte, b1: Byte, b2: Byte)
    ensures var q := EncodeQuantum(b0, b1, b2);
            DecodeQuantum(q[0], q[1], q[2], q[3]) == Some([b0, b1, b2])
  {
    DecodeEncodeSextet(b0 / 4);
    DecodeEncodeSextet((b0 % 4) * 16 + b1 / 16);
    DecodeEncodeSextet((b1 % 16) * 4 + b2 / 64);
    DecodeEncodeSextet(b2 % 64);
    SplitFirst(b0, b1);
    SplitSecond(b1, b2);
  }

  lemma DecodeOfEncodeOne(b0: Byte)
    ensures Decode(Encode([b0])) == Some([b0])
  {
    DecodeEncodeSextet(b0 / 4);
    DecodeEncodeSextet((b0 % 4) * 16);
    SplitFirst(b0, 0);
    assert ((b0 % 4) * 16) % 16 == 0;
  }

  lemma DecodeOfEncodeTwo(b0: Byte, b1: Byte)
    ensures Decode(Encode([b0, b1])) == Some([b0, b1])
  {
    DecodeEncodeSextet(b0 / 4);
    DecodeEncodeSextet((b0 % 4) * 16 + b1 / 16);
    DecodeEncodeSextet((b1 % 16) * 4);
    SplitFirst(b0, b1);
    SplitSecond(b1, 0);
    assert ((b1 % 16) * 4) % 4 == 0;
  }

  /** A quantum followed by more text decodes to its three bytes followed
      by whatever the rest decodes to. */
  lemma DecodeOfQuantumThen(b0: Byte, b1: Byte, b2: Byte, rest: Str)
    requires |rest| >= 4
    ensures var q := EncodeQuantum(b0, b1, b2);
            Decode(q + rest) ==
              match Decode(rest)
              case Some(r) => Some([b0, b1, b2] + r)
              case None => None
  {
    var q := EncodeQuantum(b0, b1, b2);
    var t := q + rest;
    DecodeOfQuantum(b0, b1, b2);
    assert t[0] == q[0] && t[1] == q[1] && t[2] == q[2] && t[3] == q[3];
    assert t[4..] == rest;
  }

  lemma DecodeOfEncodeThree(b0: Byte, b1: Byte, b2: Byte)
    ensures Decode(EncodeQuantum(b0, b1, b2)) == Some([b0, b1, b2])
  {
    var q := EncodeQuantum(b0, b1, b2);
    DecodeOfQuantum(b0, b1, b2);
    assert q[2] != PAD && q[3] != PAD;
  }

  /** Round trip: decoding the encoding of `b` gives back `b`. */
  lemma {:induction false} DecodeOfEncode(b: seq<Byte>)
    ensures Decode(Encode(b)) == Some(b)
    decreases |b|
  {
    if |b| == 1 {
      DecodeOfEncodeOne(b[0]);
      assert b == [b[0]];
    } else if |b| == 2 {
      DecodeOfEncodeTwo(b[0], b[1]);
      assert b == [b[0], b[1]];
    } else if |b| == 3 {
      assert Encode(b) == EncodeQuantum(b[0], b[1], b[2]) + [];
      DecodeOfEncodeThree(b[0], b[1], b[2]);
      assert b == [b[0], b[1], b[2]];
    } else if |b| > 3 {
      var rest := Encode(b[3..]);
      assert Encode(b) == EncodeQuantum(b[0], b[1], b[2]) + rest;
      DecodeOfEncode(b[3..]);
      DecodeOfQuantumThen(b[0], b[1], b[2], rest);
      assert b == [b[0], b[1], b[2]] + b[3..];
    }
  }
}
