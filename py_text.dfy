/** The part of Python's `str` and `bytes` that both scripts rely on: code points,
    whitespace, `strip()`, `lower()`, `split()`, `splitlines()` and `int()`.
    Each function is stated on code points, the way CPython sees a `str`. */
module PyText {
  import opened Wrappers

  /** A Unicode code point. A Python `str` may hold a lone surrogate
      (U+D800..U+DFFF), which a Dafny `char` cannot, so text is modelled
      as a sequence of integers in [0, 0x110000). */
  type CodePoint = c: int | 0 <= c < 0x11_0000
  type Str = seq<CodePoint>

  /** An element of a Python `bytes` value. */
  type Byte = b: int | 0 <= b < 256

  const NEWLINE: CodePoint := 10
  const SPACE: CodePoint := 32

  /** The code points of a Dafny string literal. */
  function Lit(s: string): (r: Str)
    ensures |r| == |s|
  {
    seq(|s|, i requires 0 <= i < |s| => s[i] as int)
  }

  lemma LitExcludes(s: string, c: char)
    requires c !in s
    ensures c as int !in Lit(s)
  {
  }

  /** `c.isspace()`: the code points CPython treats as whitespace. */
  predicate IsSpace(c: CodePoint) {
    || 9 <= c <= 13 || 28 <= c <= 32 || c == 0x85 || c == 0xA0 || c == 0x1680
    || 0x2000 <= c <= 0x200A || c == 0x2028 || c == 0x2029 || c == 0x202F
    || c == 0x205F || c == 0x3000
  }

  predicate AllSpace(s: Str) {
    forall i :: 0 <= i < |s| ==> IsSpace(s[i])
  }

  predicate NoSpace(s: Str) {
    forall i :: 0 <= i < |s| ==> !IsSpace(s[i])
  }

  // ---------------------------------------------------------------------
  // strip()

  /** `s.lstrip()`: the suffix of `s` that remains once the leading
      whitespace is gone. */
  function StripLeft(s: Str): (r: Str)
    ensures |r| <= |s| && r == s[|s| - |r|..]
    ensures AllSpace(s[..|s| - |r|])
    ensures r == [] || !IsSpace(r[0])
    decreases |s|
  {
    if s != [] && IsSpace(s[0]) then StripLeft(s[1..]) else s
  }

  /** `s.rstrip()`: the prefix of `s` that remains once the trailing
      whitespace is gone. */
  function StripRight(s: Str): (r: Str)
    ensures |r| <= |s| && r == s[..|r|]
    ensures AllSpace(s[|r|..])
    ensures r == [] || !IsSpace(r[|r| - 1])
    decreases |s|
  {
    if s != [] && IsSpace(s[|s| - 1]) then
      var r := StripRight(s[..|s| - 1]);
      assert s[|r|..] == s[..|s| - 1][|r|..] + [s[|s| - 1]];
      r
    else s
  }

  /** `s.strip()`: `lstrip` then `rstrip`. */
  function Strip(s: Str): Str {
    StripRight(StripLeft(s))
  }

  /** A piece `r` taken from the front of a suffix `l` of `s`, with only
      whitespace cut off on either side, is a slice of `s` with whitespace
      around it. */
  lemma SliceBetweenSpaces(s: Str, l: Str, r: Str)
    requires |l| <= |s| && l == s[|s| - |l|..] && AllSpace(s[..|s| - |l|])
    requires |r| <= |l| && r == l[..|r|] && AllSpace(l[|r|..])
    ensures exists i :: 0 <= i <= |s| - |r| && r == s[i..i + |r|]
                        && AllSpace(s[..i]) && AllSpace(s[i + |r|..])
  {
    var i := |s| - |l|;
    assert s[i + |r|..] == l[|r|..];
    assert r == s[i..i + |r|];
  }

  /** `strip()` gives a contiguous piece of `s` with only whitespace cut
      off on either side. */
  lemma StripSlice(s: Str)
    ensures var r := Strip(s);
            exists i :: 0 <= i <= |s| - |r| && r == s[i..i + |r|]
                        && AllSpace(s[..i]) && AllSpace(s[i + |r|..])
  {
    SliceBetweenSpaces(s, StripLeft(s), Strip(s));
  }

  /** What `strip()` leaves neither starts nor ends with whitespace. */
  lemma StripEnds(s: Str)
    ensures var r := Strip(s);
            r == [] || (!IsSpace(r[0]) && !IsSpace(r[|r| - 1]))
  {
    var l := StripLeft(s);
    var r := StripRight(l);
    if r != [] {
      assert r[0] == l[0];
    }
  }

  /** Stripping leaves nothing exactly when the text is all whitespace. */
  lemma StripEmpty(s: Str)
    ensures Strip(s) == [] <==> AllSpace(s)
  {
    var l := StripLeft(s);
    var r := StripRight(l);
    if r == [] {
      assert l[|r|..] == l;
      assert l == [];
      assert s[..|s| - |l|] == s;
    }
    if AllSpace(s) {
      StripLeftAllSpace(s);
    }
  }

  lemma {:induction false} StripLeftAllSpace(s: Str)
    requires AllSpace(s)
    ensures StripLeft(s) == []
    decreases |s|
  {
    if s != [] {
      StripLeftAllSpace(s[1..]);
    }
  }

  lemma {:induction false} StripLeftSpaces(a: Str, x: Str)
    requires AllSpace(a)
    ensures StripLeft(a + x) == StripLeft(x)
    decreases |a|
  {
    if a != [] {
      var ax := a + x;
      assert ax[0] == a[0];
      assert ax[1..] == a[1..] + x;
      assert StripLeft(ax) == StripLeft(ax[1..]);
      assert AllSpace(a[1..]);
      StripLeftSpaces(a[1..], x);
    } else {
      assert a + x == x;
    }
  }

  lemma {:induction false} StripLeftAppend(s: Str, b: Str)
    requires !AllSpace(s)
    ensures StripLeft(s + b) == StripLeft(s) + b
    decreases |s|
  {
    if IsSpace(s[0]) {
      assert (s + b)[1..] == s[1..] + b;
      StripLeftAppend(s[1..], b);
    }
  }

  lemma {:induction false} StripRightSpaces(x: Str, b: Str)
    requires AllSpace(b)
    ensures StripRight(x + b) == StripRight(x)
    decreases |b|
  {
    if b != [] {
      var xb := x + b;
      assert xb[|xb| - 1] == b[|b| - 1];
      assert xb[..|xb| - 1] == x + b[..|b| - 1];
      StripRightSpaces(x, b[..|b| - 1]);
    } else {
      assert x + b == x;
    }
  }

  /** Whitespace added around a text does not change what `strip()` gives. */
  lemma StripSurrounded(a: Str, s: Str, b: Str)
    requires AllSpace(a) && AllSpace(b)
    ensures Strip(a + s + b) == Strip(s)
  {
    assert a + s + b == a + (s + b);
    StripLeftSpaces(a, s + b);
    if AllSpace(s) {
      StripEmpty(s);
      assert AllSpace(s + b);
      StripEmpty(s + b);
    } else {
      StripLeftAppend(s, b);
      StripRightSpaces(StripLeft(s), b);
    }
  }

  // ---------------------------------------------------------------------
  // lower()

  function LowerChar(c: CodePoint): CodePoint {
    if 'A' as int <= c <= 'Z' as int then c + 32 else c
  }

  /** `s.lower()`, for the ASCII letters. */
  function Lower(s: Str): (r: Str)
    ensures |r| == |s|
  {
    seq(|s|, i requires 0 <= i < |s| => LowerChar(s[i]))
  }

  predicate IsLowerWord(w: Str) {
    forall i :: 0 <= i < |w| ==> 'a' as int <= w[i] <= 'z' as int
  }

  /** A text lowers to a word of small letters exactly when it spells that
      word letter by letter in either case. */
  lemma LowerMatches(s: Str, w: Str)
    requires IsLowerWord(w)
    ensures Lower(s) == w <==>
              |s| == |w| && forall i :: 0 <= i < |s| ==> s[i] == w[i] || s[i] == w[i] - 32
  {
    if Lower(s) == w {
      forall i | 0 <= i < |s| ensures s[i] == w[i] || s[i] == w[i] - 32 {
        assert Lower(s)[i] == LowerChar(s[i]);
      }
    }
    if |s| == |w| && forall i :: 0 <= i < |s| ==> s[i] == w[i] || s[i] == w[i] - 32 {
      forall i | 0 <= i < |s| ensures Lower(s)[i] == w[i] {
        assert Lower(s)[i] == LowerChar(s[i]);
      }
    }
  }

  // ---------------------------------------------------------------------
  // split()

  /** Length of the run of non-whitespace that starts `s`. */
  function WordLength(s: Str): (k: nat)
    ensures k <= |s| && NoSpace(s[..k])
    ensures k == |s| || IsSpace(s[k])
    decreases |s|
  {
    if s == [] || IsSpace(s[0]) then 0 else 1 + WordLength(s[1..])
  }

  /** `s.split()` with no separator: the maximal runs of non-whitespace,
      in order; leading, trailing and repeated whitespace give no token. */
  function Tokens(s: Str): (r: seq<Str>)
    decreases |s|
  {
    if s == [] then []
    else if IsSpace(s[0]) then Tokens(s[1..])
    else
      var k := WordLength(s);
      [s[..k]] + Tokens(s[k..])
  }

  predicate IsWord(w: Str) {
    w != [] && NoSpace(w)
  }

  /** Words joined by single spaces, the inverse of `Tokens`. */
  function JoinWords(ws: seq<Str>): Str {
    if ws == [] then []
    else if |ws| == 1 then ws[0]
    else ws[0] + [SPACE] + JoinWords(ws[1..])
  }

  lemma {:induction false} WordLengthOfWord(w: Str, rest: Str)
    requires NoSpace(w)
    requires rest == [] || IsSpace(rest[0])
    ensures WordLength(w + rest) == |w|
    decreases |w|
  {
    if w != [] {
      assert (w + rest)[1..] == w[1..] + rest;
      WordLengthOfWord(w[1..], rest);
    }
  }

  /** A word followed by whitespace (or by nothing) is the first token. */
  lemma TokensOfWord(w: Str, rest: Str)
    requires IsWord(w)
    requires rest == [] || IsSpace(rest[0])
    ensures Tokens(w + rest) == [w] + Tokens(rest)
  {
    WordLengthOfWord(w, rest);
    assert (w + rest)[..|w|] == w;
    assert (w + rest)[|w|..] == rest;
  }

  lemma TokensOfSpace(c: CodePoint, rest: Str)
    requires IsSpace(c)
    ensures Tokens([c] + rest) == Tokens(rest)
  {
    assert ([c] + rest)[1..] == rest;
  }

  /** Three words separated by single whitespace characters. */
  lemma TokensOfThree(w1: Str, c1: CodePoint, w2: Str, c2: CodePoint, w3: Str)
    requires IsWord(w1) && IsWord(w2) && IsWord(w3) && IsSpace(c1) && IsSpace(c2)
    ensures |Tokens(w1 + ([c1] + (w2 + ([c2] + w3))))| == 3
  {
    var t2 := [c2] + w3;
    var t1 := [c1] + (w2 + t2);
    TokensOfWord(w1, t1);
    TokensOfSpace(c1, w2 + t2);
    TokensOfWord(w2, t2);
    TokensOfSpace(c2, w3);
    TokensOfWord(w3, []);
    assert w3 + [] == w3;
  }

  /** Every token is a non-empty run of non-whitespace. */
  lemma {:induction false} TokensAreWords(s: Str)
    ensures forall i :: 0 <= i < |Tokens(s)| ==> IsWord(Tokens(s)[i])
    decreases |s|
  {
    if s != [] {
      if IsSpace(s[0]) {
        TokensAreWords(s[1..]);
      } else {
        var k := WordLength(s);
        TokensAreWords(s[k..]);
      }
    }
  }

  /** `split()` gives back the words that were joined with single spaces. */
  lemma {:induction false} TokensOfJoin(ws: seq<Str>)
    requires forall i :: 0 <= i < |ws| ==> IsWord(ws[i])
    ensures Tokens(JoinWords(ws)) == ws
    decreases |ws|
  {
    if |ws| == 1 {
      TokensOfWord(ws[0], []);
      assert ws[0] + [] == ws[0];
    } else if |ws| > 1 {
      var rest := [SPACE] + JoinWords(ws[1..]);
      assert JoinWords(ws) == ws[0] + rest;
      TokensOfWord(ws[0], rest);
      TokensOfSpace(SPACE, JoinWords(ws[1..]));
      TokensOfJoin(ws[1..]);
      assert ws == [ws[0]] + ws[1..];
    }
  }

  // ---------------------------------------------------------------------
  // splitlines()

  /** Length of the longest prefix of `s` that does not hold `c`: the
      index of the first `c`, or `|s|` when there is none. */
  function SpanBefore(s: Str, c: CodePoint): (k: nat)
    ensures k <= |s| && c !in s[..k]
    ensures k == |s| || s[k] == c
    decreases |s|
  {
    if s == [] || s[0] == c then 0 else 1 + SpanBefore(s[1..], c)
  }

  /** `s.splitlines()` with the line feed as the only line boundary: the
      lines of `s` in order, without their terminators; a final line
      feed does not start an empty line. */
  function SplitLines(s: Str): (r: seq<Str>)
    ensures forall l :: l in r ==> NEWLINE !in l
    ensures |r| <= |s|
    decreases |s|
  {
    if s == [] then []
    else
      var k := SpanBefore(s, NEWLINE);
      [s[..k]] + (if k == |s| then [] else SplitLines(s[k + 1..]))
  }

  /** Lines each followed by a line feed. */
  function Terminated(ls: seq<Str>): Str {
    if ls == [] then [] else ls[0] + [NEWLINE] + Terminated(ls[1..])
  }

  lemma {:induction false} SpanBeforeOf(l: Str, c: CodePoint, rest: Str)
    requires c !in l
    ensures SpanBefore(l + [c] + rest, c) == |l|
    decreases |l|
  {
    if l != [] {
      assert (l + [c] + rest)[1..] == l[1..] + [c] + rest;
      SpanBeforeOf(l[1..], c, rest);
    }
  }

  /** A line and its line feed come out of `splitlines()` as its first line. */
  lemma SplitLinesOfLine(l: Str, rest: Str)
    requires NEWLINE !in l
    ensures SplitLines(l + [NEWLINE] + rest) == [l] + SplitLines(rest)
  {
    var s := l + [NEWLINE] + rest;
    SpanBeforeOf(l, NEWLINE, rest);
    assert s[..|l|] == l;
    assert s[|l| + 1..] == rest;
  }

  /** `splitlines()` gives back the lines of a text in which every line
      ends with a line feed. */
  lemma {:induction false} SplitLinesOfTerminated(ls: seq<Str>)
    requires forall i :: 0 <= i < |ls| ==> NEWLINE !in ls[i]
    ensures SplitLines(Terminated(ls)) == ls
    decreases |ls|
  {
    if ls != [] {
      SplitLinesOfLine(ls[0], Terminated(ls[1..]));
      SplitLinesOfTerminated(ls[1..]);
      assert ls == [ls[0]] + ls[1..];
    }
  }

  // ---------------------------------------------------------------------
  // int()

  predicate IsDigit(c: CodePoint) {
    '0' as int <= c <= '9' as int
  }

  predicate AllDigits(s: Str) {
    forall i :: 0 <= i < |s| ==> IsDigit(s[i])
  }

  /** The value of a run of decimal digits, most significant first. */
  function DigitsValue(s: Str): nat
    requires AllDigits(s)
    decreases |s|
  {
    if s == [] then 0 else DigitsValue(s[..|s| - 1]) * 10 + (s[|s| - 1] - '0' as int)
  }

  /** `int(s)`: an optional sign followed by at least one decimal digit;
      anything else is the `ValueError` branch. */
  function ParseInt(s: Str): (r: Option<int>)
    ensures r.Some? ==> IsWord(s)
  {
    if |s| > 0 && (s[0] == '-' as int || s[0] == '+' as int) then
      if |s| > 1 && AllDigits(s[1..]) then
        var v: int := DigitsValue(s[1..]);
        assert forall i :: 1 <= i < |s| ==> s[1..][i - 1] == s[i];
        Some(if s[0] == '-' as int then -v else v)
      else None
    else if |s| > 0 && AllDigits(s) then Some(DigitsValue(s))
    else None
  }

  predicate IsInt(s: Str) {
    ParseInt(s).Some?
  }

  /** Decimal digits of a natural number, without leading zeros. */
  function ShowNat(n: nat): (r: Str)
    ensures r != [] && AllDigits(r)
    decreases n
  {
    if n < 10 then [n + '0' as int] else ShowNat(n / 10) + [n % 10 + '0' as int]
  }

  /** `str(n)` for an integer. */
  function Show(n: int): (r: Str)
    ensures IsWord(r)
  {
    if n < 0 then ['-' as int] + ShowNat(-n) else ShowNat(n)
  }

  lemma {:induction false} DigitsValueOfShowNat(n: nat)
    ensures DigitsValue(ShowNat(n)) == n
    decreases n
  {
    if n >= 10 {
      var s := ShowNat(n);
      assert s[..|s| - 1] == ShowNat(n / 10);
      DigitsValueOfShowNat(n / 10);
    }
  }

  lemma ParseIntOfDigits(d: Str)
    requires d != [] && AllDigits(d)
    ensures ParseInt(d) == Some(DigitsValue(d))
  {
    assert IsDigit(d[0]);
  }

  lemma ParseIntOfNegative(d: Str)
    requires d != [] && AllDigits(d)
    ensures ParseInt(['-' as int] + d) == Some(0 - DigitsValue(d) as int)
  {
    assert (['-' as int] + d)[1..] == d;
  }

  /** `int(str(n)) == n`. */
  lemma ParseIntOfShow(n: int)
    ensures ParseInt(Show(n)) == Some(n)
  {
    if n < 0 {
      DigitsValueOfShowNat(-n);
      ParseIntOfNegative(ShowNat(-n));
    } else {
      DigitsValueOfShowNat(n);
      ParseIntOfDigits(ShowNat(n));
    }
  }
}
