/** A host that meets both laws the proofs assume, and an entry it validates: the
    lemmas that assume `Lawful`, `StringifyShowsKeys` or `DecoderInvertsEncode`, or
    a valid entry, are about something. */
module Witness {
  import opened Wrappers
  import opened JsText
  import opened Json
  import Base64
  import opened Validator
  import opened Properties

  /** A key written out so that where it ends can be read back: each code unit
      after a 1, and a 0 at the end. */
  function KeyText(k: JsString): (r: JsString)
    ensures |r| > 0 && r[0] == (if k == [] then 0 else 1)
    decreases |k|
  {
    if k == [] then [0] else [1, k[0]] + KeyText(k[1..])
  }

  function KeysText(ks: seq<JsString>): (r: JsString)
    ensures r == [] <==> ks == []
    decreases |ks|
  {
    if ks == [] then [] else KeyText(ks[0]) + KeysText(ks[1..])
  }

  /** A compact serialiser that spells out an object's keys and nothing else, and
      prints every other value as the empty text. */
  function KeysOnly(v: Json): JsString
  {
    if v.Obj? then [2] + KeysText(Keys(v.members)) else []
  }

  /** A written key is read back unambiguously, whatever follows it. */
  lemma {:induction false} KeyTextPrefix(k1: JsString, k2: JsString, r1: JsString, r2: JsString)
    requires KeyText(k1) + r1 == KeyText(k2) + r2
    ensures k1 == k2 && r1 == r2
    decreases |k1|
  {
    var t1, t2 := KeyText(k1) + r1, KeyText(k2) + r2;
    assert t1[0] == KeyText(k1)[0] && t2[0] == KeyText(k2)[0];
    if k1 == [] {
      assert t1[1..] == r1 && t2[1..] == r2;
    } else {
      assert t1[1] == k1[0] && t2[1] == k2[0];
      assert t1[2..] == KeyText(k1[1..]) + r1;
      assert t2[2..] == KeyText(k2[1..]) + r2;
      KeyTextPrefix(k1[1..], k2[1..], r1, r2);
      assert k1 == [k1[0]] + k1[1..];
      assert k2 == [k2[0]] + k2[1..];
    }
  }

  /** Different key sequences are written differently. */
  lemma {:induction false} KeysTextInjective(a: seq<JsString>, b: seq<JsString>)
    requires KeysText(a) == KeysText(b)
    ensures a == b
    decreases |a|
  {
    if a != [] {
      KeyTextPrefix(a[0], b[0], KeysText(a[1..]), KeysText(b[1..]));
      KeysTextInjective(a[1..], b[1..]);
      assert a == [a[0]] + a[1..];
      assert b == [b[0]] + b[1..];
    }
  }

  /** The witness host: `KeysOnly` for the compact text, the empty text for the
      indented one, the lenient decoder of `Base64`, and sodium stand-ins that
      accept. */
  function LawfulHost(): Host
  {
    Host(KeysOnly, _ => [], Base64.Decode,
         (m: seq<Byte>, k: seq<Byte>) => Normal([]),
         (s: seq<Byte>, p: seq<Byte>, k: seq<Byte>) => Normal(true))
  }

  lemma LawfulHostIsLawful()
    ensures Lawful(LawfulHost())
  {
    var h := LawfulHost();
    forall a, b | h.stringify(Obj(a)) == h.stringify(Obj(b))
      ensures Keys(a) == Keys(b)
    {
      assert KeysOnly(Obj(a))[1..] == KeysText(Keys(a));
      assert KeysOnly(Obj(b))[1..] == KeysText(Keys(b));
      KeysTextInjective(Keys(a), Keys(b));
    }
    forall b
      ensures h.base64Decode(Base64.Encode(b)) == b
    {
      Base64.DecodeEncode(b);
    }
  }

  /** An entry with all seven fields in canonical order, a "sha256" hash, string
      `author` and `signature`, and object content of type "post". */
  lemma WitnessEntry() returns (ms: seq<Member>, fields: seq<Member>, t: JsString)
    ensures Keys(ms) == AuthorFirst
    ensures Lookup(ms, KeyHash) == Some(Str(Sha256))
    ensures Lookup(ms, KeyContent) == Some(Obj(fields))
    ensures t == Lit("post")
    ensures Lookup(fields, KeyType) == Some(Str(t)) && MinTypeLength <= |t| <= MaxTypeLength
    ensures HasString(ms, KeyAuthor) && HasString(ms, KeySignature)
  {
    t := Lit("post");
    fields := [Member(KeyType, Str(t))];
    ms := [Member(KeyPrevious, Null), Member(KeyAuthor, Str([])), Member(KeySequence, Number(1.0)),
           Member(KeyTimestamp, Number(0.0)), Member(KeyHash, Str(Sha256)),
           Member(KeyContent, Obj(fields)), Member(KeySignature, Str([]))];
    assert Keys(ms) == AuthorFirst;
    FieldNamesDistinct();
    LookupMember(ms, 1);
    LookupMember(ms, 4);
    LookupMember(ms, 5);
    LookupMember(ms, 6);
  }

  /** A lawful host and an entry it validates. */
  lemma ValidWitness() returns (h: Host, input: Json)
    ensures Lawful(h) && Validate(h, input, None)
  {
    h := LawfulHost();
    LawfulHostIsLawful();
    var ms, fields, t := WitnessEntry();
    ValidUnderAcceptingVerifier(h, ms, fields, t);
    input := Obj(ms);
  }

  /** Some lawful host validates some entry. */
  lemma ValidateIsSatisfiable()
    ensures exists h: Host, input: Json :: Lawful(h) && Validate(h, input, None)
  {
    var h, input := ValidWitness();
  }
}
