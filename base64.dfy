/** Base64 over JavaScript strings: the padded encoding with the standard alphabet
    of RFC 4648 section 4, what it means for a text to be its canonical output,
    and a lenient decoder that inverts it. */
module Base64 {
  import opened Wrappers
  import opened JsText

  /** The padding character "=". */
  const Pad: CodeUnit := 61

  /** A 6-bit value, carried by one character of the alphabet. */
  type Sextet = v: int | 0 <= v < 64

  /** The character for a 6-bit value (RFC 4648 section 4, Table 1). */
  function Char(v: int): CodeUnit
    requires 0 <= v < 64
  {
    if v < 26 then (65 + v) as CodeUnit        // 'A' .. 'Z'
    else if v < 52 then (97 + v - 26) as CodeUnit  // 'a' .. 'z'
    else if v < 62 then (48 + v - 52) as CodeUnit  // '0' .. '9'
    else if v == 62 then 43                      // '+'
    else 47                                      // '/'
  }

  /** The 6-bit value of a character of the standard alphabet; None for every other
      code unit, "=" included. */
  function Value(c: CodeUnit): (r: Option<int>)
    ensures r.Some? ==> 0 <= r.value < 64 && Char(r.value) == c
    ensures c == Pad ==> r == None
  {
    if 65 <= c <= 90 then Some(c as int - 65)
    else if 97 <= c <= 122 then Some(c as int - 97 + 26)
    else if 48 <= c <= 57 then Some(c as int - 48 + 52)
    else if c == 43 then Some(62)
    else if c == 47 then Some(63)
    else None
  }

  /** Every character of the alphabet reads back as the value it encodes. */
  lemma ValueOfChar(v: int)
    requires 0 <= v < 64
    ensures Value(Char(v)) == Some(v)
  {
    if v < 26 {
    } else if v < 52 {
    } else if v < 62 {
    }
  }

  /** The four characters for three bytes; `Encode` uses a prefix of them, padded,
      for the last one or two bytes. */
  function Group(b0: int, b1: int, b2: int): seq<CodeUnit>
    requires 0 <= b0 < 256 && 0 <= b1 < 256 && 0 <= b2 < 256
  {
    [Char(b0 / 4), Char(b0 % 4 * 16 + b1 / 16), Char(b1 % 16 * 4 + b2 / 64), Char(b2 % 64)]
  }

  /** `Buffer.prototype.toString("base64")`: padded base64 with the standard alphabet. */
  function Encode(b: seq<Byte>): (s: JsString)
    ensures |s| == 4 * ((|b| + 2) / 3)
    decreases |b|
  {
    if |b| == 0 then []
    else if |b| == 1 then Group(b[0] as int, 0, 0)[..2] + [Pad, Pad]
    else if |b| == 2 then Group(b[0] as int, b[1] as int, 0)[..3] + [Pad]
    else Group(b[0] as int, b[1] as int, b[2] as int) + Encode(b[3..])
  }

  /** Four characters of the standard alphabet. */
  predicate FullGroup(g: seq<CodeUnit>)
    requires |g| == 4
  {
    Value(g[0]).Some? && Value(g[1]).Some? && Value(g[2]).Some? && Value(g[3]).Some?
  }

  /** The last group of a canonical encoding: four characters of the alphabet, or
      three and one "=" with the two pad bits zero, or two and "==" with the four pad
      bits zero (RFC 4648 sections 3.5 and 4). */
  predicate LastGroup(g: seq<CodeUnit>)
    requires |g| == 4
  {
    || FullGroup(g)
    || (Value(g[0]).Some? && Value(g[1]).Some? && Value(g[2]).Some? && g[3] == Pad
        && Value(g[2]).value % 4 == 0)
    || (Value(g[0]).Some? && Value(g[1]).Some? && g[2] == Pad && g[3] == Pad
        && Value(g[1]).value % 16 == 0)
  }

  /** Canonical padded base64: whole groups of four characters, "=" only as padding
      of the last group, and no stray bits in a padded group. */
  predicate Canonical(s: JsString)
    decreases |s|
  {
    if |s| == 0 then true
    else if |s| < 4 then false
    else if |s| == 4 then LastGroup(s)
    else FullGroup(s[..4]) && Canonical(s[4..])
  }

  /** The value a lenient decoder gives a character: the standard alphabet and the
      URL-safe "-" and "_" of RFC 4648 section 5. */
  function LenientValue(c: CodeUnit): (r: Option<int>)
    ensures r.Some? ==> 0 <= r.value < 64
  {
    if c == 45 then Some(62) else if c == 95 then Some(63) else Value(c)
  }

  /** The 6-bit values a lenient decoder reads: it skips characters outside both
      alphabets and stops at the first "=". */
  function Sextets(s: JsString): (r: seq<Sextet>)
    ensures |r| <= |s|
    decreases |s|
  {
    if s == [] || s[0] == Pad then []
    else match LenientValue(s[0])
      case None => Sextets(s[1..])
      case Some(v) => [v] + Sextets(s[1..])
  }

  /** The bytes a group of 6-bit values carries: the first from the first two values,
      the second from the second and third, the third from the last two. */
  function Byte0(x0: Sextet, x1: Sextet): Byte
  {
    (x0 * 4 + x1 / 16) as Byte
  }

  function Byte1(x1: Sextet, x2: Sextet): Byte
  {
    (x1 % 16 * 16 + x2 / 4) as Byte
  }

  function Byte2(x2: Sextet, x3: Sextet): Byte
  {
    (x2 % 4 * 64 + x3) as Byte
  }

  /** Bytes from 6-bit values: three per four, two from a trailing three, one from a
      trailing two, none from a trailing one. */
  function FromSextets(x: seq<Sextet>): (r: seq<Byte>)
    ensures 4 * |r| <= 3 * |x|
    decreases |x|
  {
    if |x| < 2 then []
    else if |x| == 2 then [Byte0(x[0], x[1])]
    else if |x| == 3 then [Byte0(x[0], x[1]), Byte1(x[1], x[2])]
    else [Byte0(x[0], x[1]), Byte1(x[1], x[2]), Byte2(x[2], x[3])] + FromSextets(x[4..])
  }

  /** A lenient decoder in the manner of Node's `Buffer.from(s, "base64")`. The
      validator's verdicts do not depend on how it treats non-canonical text
      (`RoundTripIffCanonical`); this one serves to show that a decoder with the
      required law exists. */
  function Decode(s: JsString): (r: seq<Byte>)
    ensures 4 * |r| <= 3 * |s|
  {
    FromSextets(Sextets(s))
  }

  lemma SextetsCons(c: CodeUnit, t: JsString)
    requires Value(c).Some?
    ensures Sextets([c] + t) == [Value(c).value] + Sextets(t)
  {
    assert ([c] + t)[1..] == t;
  }

  lemma SextetsPad(t: JsString)
    ensures Sextets([Pad] + t) == []
  {
  }

  /** Four characters of the alphabet decode to their values, whatever follows. */
  lemma SextetsOfGroup(g: JsString, rest: JsString)
    requires |g| == 4 && FullGroup(g)
    ensures Sextets(g + rest)
      == [Value(g[0]).value, Value(g[1]).value, Value(g[2]).value, Value(g[3]).value] + Sextets(rest)
  {
    assert g + rest == [g[0]] + ([g[1]] + ([g[2]] + ([g[3]] + rest)));
    SextetsCons(g[3], rest);
    SextetsCons(g[2], [g[3]] + rest);
    SextetsCons(g[1], [g[2]] + ([g[3]] + rest));
    SextetsCons(g[0], [g[1]] + ([g[2]] + ([g[3]] + rest)));
  }

  lemma FromSextetsGroup(x0: Sextet, x1: Sextet, x2: Sextet, x3: Sextet, rest: seq<Sextet>)
    ensures FromSextets([x0, x1, x2, x3] + rest)
      == [Byte0(x0, x1), Byte1(x1, x2), Byte2(x2, x3)] + FromSextets(rest)
  {
    var x := [x0, x1, x2, x3] + rest;
    assert x[0] == x0 && x[1] == x1 && x[2] == x2 && x[3] == x3;
    assert x[4..] == rest;
  }

  lemma GroupBytes(b0: int, b1: int, b2: int)
    requires 0 <= b0 < 256 && 0 <= b1 < 256 && 0 <= b2 < 256
    ensures var x0, x1, x2, x3 := b0 / 4, b0 % 4 * 16 + b1 / 16, b1 % 16 * 4 + b2 / 64, b2 % 64;
      Byte0(x0, x1) as int == b0 && Byte1(x1, x2) as int == b1 && Byte2(x2, x3) as int == b2
  {
  }

  lemma GroupSextets(x0: int, x1: int, x2: int, x3: int)
    requires 0 <= x0 < 64 && 0 <= x1 < 64 && 0 <= x2 < 64 && 0 <= x3 < 64
    ensures var b0, b1, b2 := Byte0(x0, x1) as int, Byte1(x1, x2) as int, Byte2(x2, x3) as int;
      b0 / 4 == x0 && b0 % 4 * 16 + b1 / 16 == x1 && b1 % 16 * 4 + b2 / 64 == x2 && b2 % 64 == x3
  {
  }

  lemma GroupValues(b0: int, b1: int, b2: int)
    requires 0 <= b0 < 256 && 0 <= b1 < 256 && 0 <= b2 < 256
    ensures var g := Group(b0, b1, b2);
      && Value(g[0]) == Some(b0 / 4) && Value(g[1]) == Some(b0 % 4 * 16 + b1 / 16)
      && Value(g[2]) == Some(b1 % 16 * 4 + b2 / 64) && Value(g[3]) == Some(b2 % 64)
  {
    ValueOfChar(b0 / 4);
    ValueOfChar(b0 % 4 * 16 + b1 / 16);
    ValueOfChar(b1 % 16 * 4 + b2 / 64);
    ValueOfChar(b2 % 64);
  }

  /** A full group decodes to its three bytes. */
  lemma DecodeGroup(b0: int, b1: int, b2: int, rest: JsString)
    requires 0 <= b0 < 256 && 0 <= b1 < 256 && 0 <= b2 < 256
    ensures Decode(Group(b0, b1, b2) + rest) == [b0 as Byte, b1 as Byte, b2 as Byte] + Decode(rest)
  {
    GroupValues(b0, b1, b2);
    GroupBytes(b0, b1, b2);
    SextetsOfGroup(Group(b0, b1, b2), rest);
    FromSextetsGroup(b0 / 4, b0 % 4 * 16 + b1 / 16, b1 % 16 * 4 + b2 / 64, b2 % 64, Sextets(rest));
  }

  /** A single trailing byte is encoded as two characters and "==". */
  lemma DecodeEncodeOne(x0: Byte)
    ensures Decode(Group(x0 as int, 0, 0)[..2] + [Pad, Pad]) == [x0]
  {
    var g := Group(x0 as int, 0, 0);
    var v0, v1 := x0 as int / 4, x0 as int % 4 * 16;
    GroupValues(x0 as int, 0, 0);
    GroupBytes(x0 as int, 0, 0);
    var s := g[..2] + [Pad, Pad];
    assert s == [g[0]] + ([g[1]] + ([Pad] + [Pad]));
    SextetsPad([Pad]);
    SextetsCons(g[1], [Pad] + [Pad]);
    SextetsCons(g[0], [g[1]] + ([Pad] + [Pad]));
    assert Sextets(s) == [v0, v1];
    assert FromSextets([v0, v1]) == [Byte0(v0, v1)];
  }

  /** Two trailing bytes are encoded as three characters and "=". */
  lemma DecodeEncodeTwo(x0: Byte, x1: Byte)
    ensures Decode(Group(x0 as int, x1 as int, 0)[..3] + [Pad]) == [x0, x1]
  {
    var g := Group(x0 as int, x1 as int, 0);
    var v0, v1, v2 := x0 as int / 4, x0 as int % 4 * 16 + x1 as int / 16, x1 as int % 16 * 4;
    GroupValues(x0 as int, x1 as int, 0);
    GroupBytes(x0 as int, x1 as int, 0);
    assert g[..3] + [Pad] == [g[0]] + ([g[1]] + ([g[2]] + [Pad]));
    SextetsPad([]);
    SextetsCons(g[2], [Pad]);
    SextetsCons(g[1], [g[2]] + [Pad]);
    SextetsCons(g[0], [g[1]] + ([g[2]] + [Pad]));
    assert Sextets(g[..3] + [Pad]) == [v0, v1, v2];
    assert FromSextets([v0, v1, v2]) == [Byte0(v0, v1), Byte1(v1, v2)];
  }

  /** Decoding inverts encoding: `Buffer.from(Encode(b), "base64")` gives back `b`. */
  lemma {:induction false} DecodeEncode(b: seq<Byte>)
    ensures Decode(Encode(b)) == b
    decreases |b|
  {
    if |b| == 1 {
      DecodeEncodeOne(b[0]);
    } else if |b| == 2 {
      DecodeEncodeTwo(b[0], b[1]);
    } else if |b| > 2 {
      DecodeGroup(b[0] as int, b[1] as int, b[2] as int, Encode(b[3..]));
      DecodeEncode(b[3..]);
      assert b == [b[0], b[1], b[2]] + b[3..];
    }
  }

  /** Every encoding is canonical. */
  lemma {:induction false} EncodeIsCanonical(b: seq<Byte>)
    ensures Canonical(Encode(b))
    decreases |b|
  {
    if |b| > 0 {
      var b0, b1, b2 := b[0] as int, if |b| > 1 then b[1] as int else 0, if |b| > 2 then b[2] as int else 0;
      GroupValues(b0, b1, b2);
      if |b| > 2 {
        var s := Encode(b);
        assert s[..4] == Group(b0, b1, b2);
        assert s[4..] == Encode(b[3..]);
        EncodeIsCanonical(b[3..]);
      }
    }
  }

  lemma GroupOfSextets(x0: int, x1: int, x2: int, x3: int)
    requires 0 <= x0 < 64 && 0 <= x1 < 64 && 0 <= x2 < 64 && 0 <= x3 < 64
    ensures Group(Byte0(x0, x1) as int, Byte1(x1, x2) as int, Byte2(x2, x3) as int)
      == [Char(x0), Char(x1), Char(x2), Char(x3)]
  {
    GroupSextets(x0, x1, x2, x3);
  }

  /** The three bytes a full group of the alphabet decodes to encode back to it. */
  lemma EncodeOfGroup(g: JsString, rest: seq<Byte>)
    requires |g| == 4 && FullGroup(g)
    ensures var x0, x1, x2, x3 := Value(g[0]).value, Value(g[1]).value, Value(g[2]).value, Value(g[3]).value;
      Encode([Byte0(x0, x1), Byte1(x1, x2), Byte2(x2, x3)] + rest) == g + Encode(rest)
  {
    var x0, x1, x2, x3 := Value(g[0]).value, Value(g[1]).value, Value(g[2]).value, Value(g[3]).value;
    GroupOfSextets(x0, x1, x2, x3);
    var b := [Byte0(x0, x1), Byte1(x1, x2), Byte2(x2, x3)] + rest;
    assert b[0] == Byte0(x0, x1) && b[1] == Byte1(x1, x2) && b[2] == Byte2(x2, x3);
    assert b[3..] == rest;
    assert g == [Char(x0), Char(x1), Char(x2), Char(x3)];
  }

  /** A full group of the alphabet decodes to three bytes, whatever follows. */
  lemma DecodeFullGroup(g: JsString, rest: JsString)
    requires |g| == 4 && FullGroup(g)
    ensures var x0, x1, x2, x3 := Value(g[0]).value, Value(g[1]).value, Value(g[2]).value, Value(g[3]).value;
      Decode(g + rest) == [Byte0(x0, x1), Byte1(x1, x2), Byte2(x2, x3)] + Decode(rest)
  {
    var x0, x1, x2, x3 := Value(g[0]).value, Value(g[1]).value, Value(g[2]).value, Value(g[3]).value;
    SextetsOfGroup(g, rest);
    FromSextetsGroup(x0, x1, x2, x3, Sextets(rest));
  }

  /** A last group with one "=" and zero pad bits decodes and re-encodes to itself. */
  lemma EncodeDecodeOnePad(g: JsString)
    requires |g| == 4 && Value(g[0]).Some? && Value(g[1]).Some? && Value(g[2]).Some? && g[3] == Pad
    requires Value(g[2]).value % 4 == 0
    ensures Encode(Decode(g)) == g
  {
    var x0, x1, x2 := Value(g[0]).value, Value(g[1]).value, Value(g[2]).value;
    GroupOfSextets(x0, x1, x2, 0);
    GroupSextets(x0, x1, x2, 0);
    assert g == [g[0]] + ([g[1]] + ([g[2]] + [Pad]));
    SextetsCons(g[0], [g[1]] + ([g[2]] + [Pad]));
    SextetsCons(g[1], [g[2]] + [Pad]);
    SextetsCons(g[2], [Pad]);
    assert Decode(g) == [Byte0(x0, x1), Byte1(x1, x2)];
  }

  /** A last group with "==" and zero pad bits decodes and re-encodes to itself. */
  lemma EncodeDecodeTwoPads(g: JsString)
    requires |g| == 4 && Value(g[0]).Some? && Value(g[1]).Some? && g[2] == Pad && g[3] == Pad
    requires Value(g[1]).value % 16 == 0
    ensures Encode(Decode(g)) == g
  {
    var x0, x1 := Value(g[0]).value, Value(g[1]).value;
    GroupOfSextets(x0, x1, 0, 0);
    GroupSextets(x0, x1, 0, 0);
    assert g == [g[0]] + ([g[1]] + ([Pad] + [Pad]));
    SextetsCons(g[0], [g[1]] + ([Pad] + [Pad]));
    SextetsCons(g[1], [Pad] + [Pad]);
    assert Decode(g) == [Byte0(x0, x1)];
  }

  /** A canonical text is the encoding of what the decoder makes of it. */
  lemma {:induction false} EncodeDecodeCanonical(s: JsString)
    requires Canonical(s)
    ensures Encode(Decode(s)) == s
    decreases |s|
  {
    if |s| > 0 {
      var g, rest := s[..4], s[4..];
      assert s == g + rest;
      if FullGroup(g) {
        var x0, x1, x2, x3 := Value(g[0]).value, Value(g[1]).value, Value(g[2]).value, Value(g[3]).value;
        DecodeFullGroup(g, rest);
        assert Decode(s) == [Byte0(x0, x1), Byte1(x1, x2), Byte2(x2, x3)] + Decode(rest);
        EncodeOfGroup(g, Decode(rest));
        assert Encode(Decode(s)) == g + Encode(Decode(rest));
        if |s| > 4 {
          EncodeDecodeCanonical(rest);
        } else {
          assert rest == [];
        }
      } else {
        assert |s| == 4 && LastGroup(s);
        if g[2] != Pad {
          EncodeDecodeOnePad(s);
        } else {
          EncodeDecodeTwoPads(s);
        }
      }
    }
  }

  /** Canonical texts are exactly the outputs of `Encode`. */
  lemma CanonicalIffEncoding(s: JsString)
    ensures Canonical(s) <==> exists b :: Encode(b) == s
  {
    if Canonical(s) {
      EncodeDecodeCanonical(s);
    } else if b :| Encode(b) == s {
      EncodeIsCanonical(b);
    }
  }

  /** For any decoder that inverts `Encode`, a text survives decoding and
      re-encoding exactly when it is canonical; how the decoder treats other text
      does not matter. */
  lemma RoundTripIffCanonical(decode: JsString -> seq<Byte>, s: JsString)
    requires forall b :: decode(Encode(b)) == b
    ensures Encode(decode(s)) == s <==> Canonical(s)
  {
    if Canonical(s) {
      EncodeDecodeCanonical(s);
      assert decode(Encode(Decode(s))) == Decode(s);
    } else if Encode(decode(s)) == s {
      EncodeIsCanonical(decode(s));
    }
  }
}
