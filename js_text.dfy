/** JavaScript strings as the validator sees them: sequences of UTF-16 code units,
    together with the string operations and the two `Buffer` encodings it uses. */
module JsText {

  /** One UTF-16 code unit; a JavaScript string is a sequence of these, and its
      `length` counts them. */
  newtype CodeUnit = x: int | 0 <= x < 0x1_0000

  type JsString = seq<CodeUnit>

  /** One octet of a Node `Buffer`. */
  newtype Byte = x: int | 0 <= x < 0x100

  /** The code units of a string literal written in this model (all of them ASCII). */
  function Lit(s: string): JsString
  {
    seq(|s|, i requires 0 <= i < |s| => if s[i] as int < 0x1_0000 then s[i] as int as CodeUnit else 0xFFFD)
  }

  /** `s.slice(start, end)` for non-negative arguments: both ends are clamped to the
      length, and an empty range gives the empty string. */
  function Slice(s: JsString, start: nat, end: nat): (r: JsString)
    ensures |r| == (if start < end && start < |s| then (if end < |s| then end else |s|) - start else 0)
    ensures forall i :: 0 <= i < |r| ==> start + i < end && start + i < |s| && r[i] == s[start + i]
  {
    var from := if start < |s| then start else |s|;
    var to := if end < |s| then end else |s|;
    if from < to then s[from..to] else []
  }

  /** `sep` occurs in `s` starting at index `i`. */
  ghost predicate OccursAt(s: JsString, sep: JsString, i: int)
  {
    0 <= i && i + |sep| <= |s| && forall j :: 0 <= j < |sep| ==> s[i + j] == sep[j]
  }

  lemma OccursAtTail(s: JsString, sep: JsString)
    requires |s| > 0
    ensures forall i :: 1 <= i ==> (OccursAt(s, sep, i) <==> OccursAt(s[1..], sep, i - 1))
  {
  }

  /** `s.split(sep)[0]` for a non-empty separator: the text before the first
      occurrence of `sep`, or the whole of `s` when `sep` does not occur in it. */
  function BeforeFirst(s: JsString, sep: JsString): (r: JsString)
    requires |sep| > 0
    ensures r <= s
    ensures forall i :: 0 <= i < |r| ==> !OccursAt(s, sep, i)
    ensures |r| < |s| ==> OccursAt(s, sep, |r|)
    decreases |s|
  {
    if |s| < |sep| then s
    else if s[..|sep|] == sep then []
    else
      OccursAtTail(s, sep);
      [s[0]] + BeforeFirst(s[1..], sep)
  }

  /** `Buffer.from(s, "latin1")`: one byte per code unit, its low eight bits, so the
      byte length is the string's `length`. */
  function Latin1(s: JsString): (r: seq<Byte>)
    ensures |r| == |s|
    ensures forall i :: 0 <= i < |s| && s[i] < 0x100 ==> r[i] as int == s[i] as int
  {
    seq(|s|, i requires 0 <= i < |s| => (s[i] as int % 0x100) as Byte)
  }

  predicate IsHighSurrogate(u: CodeUnit) { 0xD800 <= u < 0xDC00 }

  predicate IsLowSurrogate(u: CodeUnit) { 0xDC00 <= u < 0xE000 }

  /** A byte that carries six payload bits after a leading byte. */
  predicate IsContinuation(b: Byte) { 0x80 <= b < 0xC0 }

  /** The UTF-8 encoding of one Unicode code point (RFC 3629 section 3): the leading
      byte's range gives the length, every other byte is a continuation, and the
      payload bits, read most significant first, are the code point. */
  function CodePointUtf8(cp: int): (r: seq<Byte>)
    requires 0 <= cp < 0x11_0000
    ensures |r| == (if cp < 0x80 then 1 else if cp < 0x800 then 2 else if cp < 0x1_0000 then 3 else 4)
    ensures cp < 0x80 ==> r == [cp as Byte]
    ensures 0x80 <= cp < 0x800 ==>
      && 0xC0 <= r[0] < 0xE0 && IsContinuation(r[1])
      && (r[0] as int - 0xC0) * 0x40 + (r[1] as int - 0x80) == cp
    ensures 0x800 <= cp < 0x1_0000 ==>
      && 0xE0 <= r[0] < 0xF0 && IsContinuation(r[1]) && IsContinuation(r[2])
      && ((r[0] as int - 0xE0) * 0x40 + (r[1] as int - 0x80)) * 0x40 + (r[2] as int - 0x80) == cp
    ensures 0x1_0000 <= cp ==>
      && 0xF0 <= r[0] < 0xF5 && IsContinuation(r[1]) && IsContinuation(r[2]) && IsContinuation(r[3])
      && (((r[0] as int - 0xF0) * 0x40 + (r[1] as int - 0x80)) * 0x40 + (r[2] as int - 0x80)) * 0x40
         + (r[3] as int - 0x80) == cp
  {
    if cp < 0x80 then [cp as Byte]
    else if cp < 0x800 then TwoByteUtf8(cp)
    else if cp < 0x1_0000 then ThreeByteUtf8(cp)
    else FourByteUtf8(cp)
  }

  function TwoByteUtf8(cp: int): (r: seq<Byte>)
    requires 0x80 <= cp < 0x800
    ensures |r| == 2 && 0xC0 <= r[0] < 0xE0 && IsContinuation(r[1])
    ensures (r[0] as int - 0xC0) * 0x40 + (r[1] as int - 0x80) == cp
  {
    var low, high := cp % 0x40, cp / 0x40;
    [(0xC0 + high) as Byte, (0x80 + low) as Byte]
  }

  function ThreeByteUtf8(cp: int): (r: seq<Byte>)
    requires 0x800 <= cp < 0x1_0000
    ensures |r| == 3 && 0xE0 <= r[0] < 0xF0 && IsContinuation(r[1]) && IsContinuation(r[2])
    ensures ((r[0] as int - 0xE0) * 0x40 + (r[1] as int - 0x80)) * 0x40 + (r[2] as int - 0x80) == cp
  {
    var low, q := cp % 0x40, cp / 0x40;
    var mid, high := q % 0x40, q / 0x40;
    assert q * 0x40 + low == cp && high * 0x40 + mid == q;
    [(0xE0 + high) as Byte, (0x80 + mid) as Byte, (0x80 + low) as Byte]
  }

  function FourByteUtf8(cp: int): (r: seq<Byte>)
    requires 0x1_0000 <= cp < 0x11_0000
    ensures |r| == 4 && 0xF0 <= r[0] < 0xF5
    ensures IsContinuation(r[1]) && IsContinuation(r[2]) && IsContinuation(r[3])
    ensures (((r[0] as int - 0xF0) * 0x40 + (r[1] as int - 0x80)) * 0x40 + (r[2] as int - 0x80)) * 0x40
            + (r[3] as int - 0x80) == cp
  {
    var low, q := cp % 0x40, cp / 0x40;
    var mid, q2 := q % 0x40, q / 0x40;
    var upper, high := q2 % 0x40, q2 / 0x40;
    assert q * 0x40 + low == cp && q2 * 0x40 + mid == q && high * 0x40 + upper == q2;
    [(0xF0 + high) as Byte, (0x80 + upper) as Byte, (0x80 + mid) as Byte, (0x80 + low) as Byte]
  }

  /** The code point a high and a low surrogate stand for together. */
  function Supplementary(hi: CodeUnit, lo: CodeUnit): int
    requires IsHighSurrogate(hi) && IsLowSurrogate(lo)
  {
    0x1_0000 + (hi as int - 0xD800) * 0x400 + (lo as int - 0xDC00)
  }

  /** The Unicode code points a JavaScript string stands for, as `Buffer.from`
      reads them: a high surrogate followed by a low one is one supplementary code
      point, any other surrogate is U+FFFD. No surrogate is left in the result. */
  function CodePoints(s: JsString): (r: seq<int>)
    ensures forall i :: 0 <= i < |r| ==> 0 <= r[i] < 0x11_0000 && !(0xD800 <= r[i] < 0xE000)
    ensures |s| / 2 <= |r| <= |s|
    ensures (forall i :: 0 <= i < |s| ==> !(0xD800 <= s[i] < 0xE000)) ==>
              |r| == |s| && forall i :: 0 <= i < |s| ==> r[i] == s[i] as int
    decreases |s|
  {
    if s == [] then []
    else if |s| > 1 && IsHighSurrogate(s[0]) && IsLowSurrogate(s[1]) then
      [Supplementary(s[0], s[1])] + CodePoints(s[2..])
    else if IsHighSurrogate(s[0]) || IsLowSurrogate(s[0]) then
      [0xFFFD] + CodePoints(s[1..])
    else
      [s[0] as int] + CodePoints(s[1..])
  }

  /** A high surrogate followed by a low one is the one supplementary code point
      they stand for, in the range U+10000 to U+10FFFF. */
  lemma CodePointsOfPair(hi: CodeUnit, lo: CodeUnit, rest: JsString)
    requires IsHighSurrogate(hi) && IsLowSurrogate(lo)
    ensures CodePoints([hi, lo] + rest) == [Supplementary(hi, lo)] + CodePoints(rest)
    ensures 0x1_0000 <= Supplementary(hi, lo) < 0x11_0000
  {
    assert ([hi, lo] + rest)[2..] == rest;
  }

  /** A code unit that is not a surrogate is its own code point, whatever follows. */
  lemma CodePointsOfOther(u: CodeUnit, rest: JsString)
    requires !IsHighSurrogate(u) && !IsLowSurrogate(u)
    ensures CodePoints([u] + rest) == [u as int] + CodePoints(rest)
  {
    assert ([u] + rest)[1..] == rest;
  }

  /** A surrogate that is not the first half of a pair is replaced by U+FFFD. */
  lemma CodePointsOfLoneSurrogate(u: CodeUnit, rest: JsString)
    requires IsLowSurrogate(u) || (IsHighSurrogate(u) && (rest == [] || !IsLowSurrogate(rest[0])))
    ensures CodePoints([u] + rest) == [0xFFFD] + CodePoints(rest)
  {
    assert ([u] + rest)[1..] == rest;
  }

  /** Reads well-formed UTF-8 back into code points: the leading byte says how many
      bytes the code point takes, and their payload bits are put back together. */
  function Utf8Decode(b: seq<Byte>): seq<int>
    decreases |b|
  {
    if b == [] then []
    else if b[0] < 0x80 then [b[0] as int] + Utf8Decode(b[1..])
    else if b[0] < 0xE0 then
      if |b| < 2 then []
      else [(b[0] as int - 0xC0) * 0x40 + (b[1] as int - 0x80)] + Utf8Decode(b[2..])
    else if b[0] < 0xF0 then
      if |b| < 3 then []
      else [((b[0] as int - 0xE0) * 0x40 + (b[1] as int - 0x80)) * 0x40 + (b[2] as int - 0x80)]
           + Utf8Decode(b[3..])
    else
      if |b| < 4 then []
      else [(((b[0] as int - 0xF0) * 0x40 + (b[1] as int - 0x80)) * 0x40 + (b[2] as int - 0x80)) * 0x40
            + (b[3] as int - 0x80)] + Utf8Decode(b[4..])
  }

  /** The bytes of one code point decode to it, whatever follows them. */
  lemma Utf8DecodeCodePoint(cp: int, rest: seq<Byte>)
    requires 0 <= cp < 0x11_0000
    ensures Utf8Decode(CodePointUtf8(cp) + rest) == [cp] + Utf8Decode(rest)
  {
    var e := CodePointUtf8(cp);
    var b := e + rest;
    assert b[..|e|] == e && b[|e|..] == rest;
  }

  /** `Buffer.from(s)`: the UTF-8 bytes of a JavaScript string. They decode back to
      exactly the code points the string stands for. */
  function Utf8(s: JsString): (r: seq<Byte>)
    ensures Utf8Decode(r) == CodePoints(s)
    decreases |s|
  {
    if s == [] then []
    else if |s| > 1 && IsHighSurrogate(s[0]) && IsLowSurrogate(s[1]) then
      var rest := Utf8(s[2..]);
      Utf8DecodeCodePoint(Supplementary(s[0], s[1]), rest);
      CodePointUtf8(Supplementary(s[0], s[1])) + rest
    else if IsHighSurrogate(s[0]) || IsLowSurrogate(s[0]) then
      var rest := Utf8(s[1..]);
      Utf8DecodeCodePoint(0xFFFD, rest);
      CodePointUtf8(0xFFFD) + rest
    else
      var rest := Utf8(s[1..]);
      Utf8DecodeCodePoint(s[0] as int, rest);
      CodePointUtf8(s[0] as int) + rest
  }

  /** The UTF-8 bytes of a sequence of code points, one after the other. */
  function EncodeCodePoints(cps: seq<int>): seq<Byte>
    requires forall i :: 0 <= i < |cps| ==> 0 <= cps[i] < 0x11_0000
    decreases |cps|
  {
    if cps == [] then [] else CodePointUtf8(cps[0]) + EncodeCodePoints(cps[1..])
  }

  /** `Buffer.from(s)` depends on the string only through its code points: a lone
      surrogate gives the same bytes as U+FFFD. */
  lemma {:induction false} Utf8OfCodePoints(s: JsString)
    ensures Utf8(s) == EncodeCodePoints(CodePoints(s))
    decreases |s|
  {
    if s != [] {
      var cps := CodePoints(s);
      if |s| > 1 && IsHighSurrogate(s[0]) && IsLowSurrogate(s[1]) {
        assert cps[1..] == CodePoints(s[2..]);
        Utf8OfCodePoints(s[2..]);
      } else {
        assert cps[1..] == CodePoints(s[1..]);
        Utf8OfCodePoints(s[1..]);
      }
    }
  }

  /** The latin1 accounting never exceeds the UTF-8 size and undercounts it at most
      threefold: every code unit costs one to three UTF-8 bytes. */
  lemma {:induction false} Utf8LengthBounds(s: JsString)
    ensures |Latin1(s)| <= |Utf8(s)| <= 3 * |s|
    decreases |s|
  {
    if s == [] {
    } else if |s| > 1 && IsHighSurrogate(s[0]) && IsLowSurrogate(s[1]) {
      Utf8LengthBounds(s[2..]);
    } else {
      Utf8LengthBounds(s[1..]);
    }
  }

  /** The threefold bound is reached: a text of `n` copies of U+0800 has `n` code
      units and `3 * n` UTF-8 bytes. */
  lemma {:induction false} Utf8ThreeBytesPerUnit(n: nat)
    ensures |Latin1(seq(n, _ => 0x800))| == n
    ensures |Utf8(seq(n, _ => 0x800))| == 3 * n
  {
    if n > 0 {
      var s: JsString := seq(n, _ => 0x800);
      assert s[1..] == seq(n - 1, _ => 0x800);
      Utf8ThreeBytesPerUnit(n - 1);
    }
  }

  /** ASCII text is its own UTF-8 encoding. */
  lemma {:induction false} Utf8OfAscii(s: JsString)
    requires forall i :: 0 <= i < |s| ==> s[i] < 0x80
    ensures |Utf8(s)| == |s|
    ensures forall i :: 0 <= i < |s| ==> Utf8(s)[i] as int == s[i] as int
    decreases |s|
  {
    if s != [] {
      Utf8OfAscii(s[1..]);
    }
  }
}
