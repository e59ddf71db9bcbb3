/** What the validator of index.js accepts and rejects: which key orders, which
    content, what the signature check reads and what the verifier is asked, and what
    a valid entry is, check by check. */
module Properties {
  import opened Wrappers
  import opened JsText
  import opened Json
  import opened Validator

  // ---------------------------------------------------------------------------
  // every, and the try/catch around it

  /** `every` stops at the first check that does not return true: the run's outcome
      is that check's (false, or an exception), so no later check is consulted. */
  lemma {:induction false} EveryStopsAtFirstFailure(h: Host, cs: seq<Check>, input: Json, hmacKey: Option<JsString>, i: int)
    requires 0 <= i < |cs|
    requires forall j :: 0 <= j < i ==> Run(h, cs[j], input, hmacKey) == Normal(true)
    requires Run(h, cs[i], input, hmacKey) != Normal(true)
    ensures Every(h, cs, input, hmacKey) == Run(h, cs[i], input, hmacKey)
    decreases i
  {
    if i > 0 {
      EveryStopsAtFirstFailure(h, cs[1..], input, hmacKey, i - 1);
    }
  }

  /** An exception in a check makes the whole validation `false`, once every check
      before it has passed. */
  lemma ThrowMeansInvalid(h: Host, input: Json, hmacKey: Option<JsString>, i: int)
    requires 0 <= i < |Checks|
    requires forall j :: 0 <= j < i ==> Run(h, Checks[j], input, hmacKey) == Normal(true)
    requires Run(h, Checks[i], input, hmacKey) == Throw
    ensures Every(h, Checks, input, hmacKey) == Throw
    ensures !Validate(h, input, hmacKey)
  {
    EveryStopsAtFirstFailure(h, Checks, input, hmacKey, i);
  }

  // ---------------------------------------------------------------------------
  // The order check

  lemma {:induction false} PresentAll(names: seq<JsString>, ks: seq<JsString>)
    requires forall n :: n in names ==> n in ks
    ensures Present(names, ks) == names
    decreases |names|
  {
    if names != [] {
      PresentAll(names[1..], ks);
    }
  }

  lemma {:induction false} PresentOfDrop(names: seq<JsString>, name: JsString)
    requires Distinct(names)
    ensures Present(names, Drop(names, name)) == Drop(names, name)
    decreases |names|
  {
    if names != [] {
      var rest := names[1..];
      assert Distinct(rest);
      assert names[0] !in rest;
      PresentOfDrop(rest, name);
      if names[0] != name {
        PresentFrom(rest, Drop(rest, name), names[0]);
      } else {
        PresentFrom(rest, Drop(rest, name), name);
      }
    }
  }

  /** Adding to the keys a name that is not among the names changes nothing. */
  lemma {:induction false} PresentFrom(names: seq<JsString>, ks: seq<JsString>, extra: JsString)
    requires extra !in names
    ensures Present(names, [extra] + ks) == Present(names, ks)
    decreases |names|
  {
    if names != [] {
      PresentFrom(names[1..], ks, extra);
    }
  }

  lemma {:induction false} DropDistinct(names: seq<JsString>, name: JsString)
    requires Distinct(names)
    ensures Distinct(Drop(names, name))
    decreases |names|
  {
    if names != [] {
      assert Distinct(names[1..]);
      assert names[0] !in names[1..];
      DropDistinct(names[1..], name);
    }
  }

  /** Both accepted orders pass, whatever the serialiser. */
  lemma OrderCheckAcceptsBothOrders(h: Host, ms: seq<Member>)
    requires Keys(ms) == AuthorFirst || Keys(ms) == SequenceFirst
    ensures OrderCheck(h, Obj(ms)) == Normal(true)
  {
    FieldNamesDistinct();
    if Keys(ms) == AuthorFirst {
      PresentAll(AuthorFirst, Keys(ms));
      PickIsIdentity(ms, AuthorFirst);
    } else {
      PresentAll(SequenceFirst, Keys(ms));
      PickIsIdentity(ms, SequenceFirst);
    }
  }

  /** A missing field is not caught: the seven names in canonical order with any one
      of them left out pass, since the copies leave the same one out. */
  lemma OrderCheckAcceptsMissingField(h: Host, ms: seq<Member>, missing: JsString)
    requires Keys(ms) == Drop(AuthorFirst, missing)
    ensures OrderCheck(h, Obj(ms)) == Normal(true)
  {
    FieldNamesDistinct();
    DropDistinct(AuthorFirst, missing);
    PresentOfDrop(AuthorFirst, missing);
    PickIsIdentity(ms, AuthorFirst);
  }

  /** A key other than the seven names fails the order check. */
  lemma OrderCheckRejectsUnknownKey(h: Host, ms: seq<Member>, k: JsString)
    requires StringifyShowsKeys(h) && DistinctKeys(ms)
    requires k in Keys(ms) && k !in AuthorFirst
    ensures OrderCheck(h, Obj(ms)) == Normal(false)
  {
    assert k !in Present(AuthorFirst, Keys(ms));
    assert k !in Present(SequenceFirst, Keys(ms));
  }

  /** An entry with all seven fields passes only in the two accepted orders. */
  lemma OrderCheckRejectsOtherOrders(h: Host, ms: seq<Member>)
    requires StringifyShowsKeys(h) && DistinctKeys(ms)
    requires forall n :: n in AuthorFirst ==> n in Keys(ms)
    requires Keys(ms) != AuthorFirst && Keys(ms) != SequenceFirst
    ensures OrderCheck(h, Obj(ms)) == Normal(false)
  {
    PresentAll(AuthorFirst, Keys(ms));
    PresentAll(SequenceFirst, Keys(ms));
  }

  // ---------------------------------------------------------------------------
  // The content check

  /** Encrypted content with nothing before ".box" passes: the empty text is the
      encoding of no bytes. */
  lemma EmptyBoxPrefixPasses(h: Host, ms: seq<Member>, rest: JsString)
    requires DecoderInvertsEncode(h)
    requires Lookup(ms, KeyContent) == Some(Str(BoxMarker + rest))
    ensures ContentCheck(h, Obj(ms)) == Normal(true)
  {
    assert OccursAt(BoxMarker + rest, BoxMarker, 0);
    assert BeforeFirst(BoxMarker + rest, BoxMarker) == [];
  }

  // ---------------------------------------------------------------------------
  // The signature check

  /** Only the text before the first "." of `signature` is read: its suffix (the
      ".sig.ed25519" tag) is not checked, and the signature is not part of what is
      signed. */
  lemma SignatureSuffixIgnored(h: Host, ms: seq<Member>, t1: JsString, t2: JsString, hmacKey: Option<JsString>)
    requires Lookup(ms, KeySignature) == Some(Str(t1))
    requires BeforeFirst(t1, Dot) == BeforeFirst(t2, Dot)
    ensures SignatureCheck(h, Obj(Update(ms, KeySignature, Str(t2))), hmacKey) == SignatureCheck(h, Obj(ms), hmacKey)
  {
    var ms2 := Update(ms, KeySignature, Str(t2));
    ReplaceSignature(ms, t1, t2);
    UnsignedAfterUpdate(ms, Str(t2));
    SignatureCheckCongruence(h, ms2, ms, t2, t1, hmacKey);
  }

  /** Overwriting `signature` does not change the entry without it. */
  lemma UnsignedAfterUpdate(ms: seq<Member>, v: Json)
    ensures Unsigned(Obj(Update(ms, KeySignature, v))) == Unsigned(Obj(ms))
  {
    WithoutUpdate(ms, KeySignature, v);
  }

  /** The signature check reads only `author`, the part of `signature` before the
      first ".", and the payload made from the signed text. */
  lemma SignatureCheckCongruence(h: Host, ms1: seq<Member>, ms2: seq<Member>, s1: JsString, s2: JsString, hmacKey: Option<JsString>)
    requires Lookup(ms1, KeyAuthor) == Lookup(ms2, KeyAuthor)
    requires Lookup(ms1, KeySignature) == Some(Str(s1)) && Lookup(ms2, KeySignature) == Some(Str(s2))
    requires BeforeFirst(s1, Dot) == BeforeFirst(s2, Dot)
    requires Payload(h, h.stringifyIndented(Unsigned(Obj(ms1))), hmacKey)
          == Payload(h, h.stringifyIndented(Unsigned(Obj(ms2))), hmacKey)
    ensures SignatureCheck(h, Obj(ms1), hmacKey) == SignatureCheck(h, Obj(ms2), hmacKey)
  {
  }

  /** Without a network key, two entries whose signed texts stand for the same code
      points get the same verdict: what is verified is their UTF-8 bytes, so a lone
      surrogate in the text signs as U+FFFD would. */
  lemma SignatureSameCodePoints(h: Host, ms1: seq<Member>, ms2: seq<Member>, s1: JsString, s2: JsString)
    requires Lookup(ms1, KeyAuthor) == Lookup(ms2, KeyAuthor)
    requires Lookup(ms1, KeySignature) == Some(Str(s1)) && Lookup(ms2, KeySignature) == Some(Str(s2))
    requires BeforeFirst(s1, Dot) == BeforeFirst(s2, Dot)
    requires CodePoints(h.stringifyIndented(Unsigned(Obj(ms1)))) == CodePoints(h.stringifyIndented(Unsigned(Obj(ms2))))
    ensures SignatureCheck(h, Obj(ms1), None) == SignatureCheck(h, Obj(ms2), None)
  {
    Utf8OfCodePoints(h.stringifyIndented(Unsigned(Obj(ms1))));
    Utf8OfCodePoints(h.stringifyIndented(Unsigned(Obj(ms2))));
    SignatureCheckCongruence(h, ms1, ms2, s1, s2, None);
  }

  /** With a network key, the signed text matters only through its `crypto_auth`
      tag: two entries whose texts give the same tag under the decoded key get the
      same verdict. */
  lemma SignatureKeyedByTag(h: Host, ms1: seq<Member>, ms2: seq<Member>, s1: JsString, s2: JsString, key: JsString)
    requires Lookup(ms1, KeyAuthor) == Lookup(ms2, KeyAuthor)
    requires Lookup(ms1, KeySignature) == Some(Str(s1)) && Lookup(ms2, KeySignature) == Some(Str(s2))
    requires BeforeFirst(s1, Dot) == BeforeFirst(s2, Dot)
    requires h.cryptoAuth(Utf8(h.stringifyIndented(Unsigned(Obj(ms1)))), h.base64Decode(key))
          == h.cryptoAuth(Utf8(h.stringifyIndented(Unsigned(Obj(ms2)))), h.base64Decode(key))
    ensures SignatureCheck(h, Obj(ms1), Some(key)) == SignatureCheck(h, Obj(ms2), Some(key))
  {
    SignatureCheckCongruence(h, ms1, ms2, s1, s2, Some(key));
  }

  /** A network key on which `crypto_auth` throws (sodium-native refuses a key of
      the wrong length) makes every entry invalid. */
  lemma KeyedAuthFailureRejects(h: Host, input: Json, key: JsString)
    requires h.cryptoAuth(Utf8(h.stringifyIndented(Unsigned(input))), h.base64Decode(key)) == Throw
    ensures !Validate(h, input, Some(key))
  {
    assert SignatureCheck(h, input, Some(key)) == Throw;
    assert Run(h, Checks[4], input, Some(key)) != Normal(true);
  }

  /** Overwriting `signature` leaves `author` as it was. */
  lemma ReplaceSignature(ms: seq<Member>, t1: JsString, t2: JsString)
    requires Lookup(ms, KeySignature) == Some(Str(t1))
    ensures Lookup(Update(ms, KeySignature, Str(t2)), KeyAuthor) == Lookup(ms, KeyAuthor)
    ensures Lookup(Update(ms, KeySignature, Str(t2)), KeySignature) == Some(Str(t2))
  {
    assert |KeyAuthor| != |KeySignature|;
    LookupUpdateOther(ms, KeySignature, Str(t2), KeyAuthor);
    LookupUpdateSame(ms, KeySignature, Str(t2));
  }

  // ---------------------------------------------------------------------------
  // The exported predicate

  /** A valid entry passes check `c`: `every` returned true, so no check failed. */
  lemma PassesCheck(h: Host, input: Json, hmacKey: Option<JsString>, c: Check)
    requires Validate(h, input, hmacKey)
    ensures Run(h, c, input, hmacKey) == Normal(true)
  {
    assert c in Checks;
  }

  /** A valid entry is an object whose `hash` is the string "sha256". */
  lemma ValidHash(h: Host, input: Json, hmacKey: Option<JsString>)
    requires Validate(h, input, hmacKey)
    ensures input.Obj? && Lookup(input.members, KeyHash) == Some(Str(Sha256))
  {
    PassesCheck(h, input, hmacKey, HashIsSha256);
  }

  /** A valid entry's indented text has at most 8192 code units. */
  lemma ValidSize(h: Host, input: Json, hmacKey: Option<JsString>)
    requires Validate(h, input, hmacKey)
    ensures |h.stringifyIndented(input)| <= MaxSize
  {
    PassesCheck(h, input, hmacKey, SizeBound);
  }

  /** A valid entry's keys come in an accepted order. */
  lemma ValidOrder(h: Host, ms: seq<Member>, hmacKey: Option<JsString>)
    requires StringifyShowsKeys(h) && DistinctKeys(ms) && Validate(h, Obj(ms), hmacKey)
    ensures AcceptedOrder(Keys(ms))
  {
    PassesCheck(h, Obj(ms), hmacKey, KeyOrder);
  }

  /** A valid entry has acceptable `content`. */
  lemma ValidContent(h: Host, input: Json, hmacKey: Option<JsString>)
    requires DecoderInvertsEncode(h) && Validate(h, input, hmacKey)
    ensures input.Obj? && Lookup(input.members, KeyContent).Some?
    ensures AcceptableContent(Lookup(input.members, KeyContent).value)
  {
    ContentShapePasses(h, input, hmacKey);
    ContentPassed(h, input);
  }

  /** A valid entry passes the content check. */
  lemma ContentShapePasses(h: Host, input: Json, hmacKey: Option<JsString>)
    requires Validate(h, input, hmacKey)
    ensures ContentCheck(h, input) == Normal(true)
  {
    PassesCheck(h, input, hmacKey, ContentShape);
    RunContentShape(h, input, hmacKey);
  }

  /** The content closure of `checks` is the content check. */
  lemma RunContentShape(h: Host, input: Json, hmacKey: Option<JsString>)
    ensures Run(h, ContentShape, input, hmacKey) == ContentCheck(h, input)
  {
  }

  /** Passing the content check means acceptable content, for a decoder that
      inverts the encoding. */
  lemma ContentPassed(h: Host, input: Json)
    requires DecoderInvertsEncode(h) && ContentCheck(h, input) == Normal(true)
    ensures input.Obj? && Lookup(input.members, KeyContent).Some?
    ensures AcceptableContent(Lookup(input.members, KeyContent).value)
  {
  }

  /** A valid entry has string `author` and `signature`. */
  lemma ValidSignatureFields(h: Host, input: Json, hmacKey: Option<JsString>)
    requires Validate(h, input, hmacKey)
    ensures input.Obj? && HasString(input.members, KeyAuthor) && HasString(input.members, KeySignature)
  {
    PassesCheck(h, input, hmacKey, SignatureValid);
    SignaturePassed(h, input, hmacKey);
  }

  /** A passing signature check means string `author` and `signature`. */
  lemma SignaturePassed(h: Host, input: Json, hmacKey: Option<JsString>)
    requires Run(h, SignatureValid, input, hmacKey) == Normal(true)
    ensures input.Obj? && HasString(input.members, KeyAuthor) && HasString(input.members, KeySignature)
  {
  }

  /** The Ed25519 verifier accepts the entry: the bytes base64-decoded from the text
      of `signature` before its first ".", checked over the payload of the entry's
      unsigned indented text, under the key base64-decoded from characters 1 to 44
      of `author`. A payload that throws is not accepted. */
  ghost predicate SignatureVerifies(h: Host, input: Json, hmacKey: Option<JsString>)
    requires input.Obj? && HasString(input.members, KeyAuthor) && HasString(input.members, KeySignature)
  {
    var author := Lookup(input.members, KeyAuthor).value.s;
    var signature := Lookup(input.members, KeySignature).value.s;
    var payload := Payload(h, h.stringifyIndented(Unsigned(input)), hmacKey);
    payload.Normal? &&
    h.signVerifyDetached(h.base64Decode(BeforeFirst(signature, Lit("."))), payload.value,
                         h.base64Decode(Slice(author, 1, 45))) == Normal(true)
  }

  /** On an object with string `author` and `signature`, the signature check passes
      exactly when the verifier accepts. */
  lemma SignatureCheckVerdict(h: Host, input: Json, hmacKey: Option<JsString>)
    requires input.Obj? && HasString(input.members, KeyAuthor) && HasString(input.members, KeySignature)
    ensures SignatureCheck(h, input, hmacKey) == Normal(true) <==> SignatureVerifies(h, input, hmacKey)
  {
  }

  /** A valid entry's signature is accepted by the verifier. */
  lemma ValidSignature(h: Host, input: Json, hmacKey: Option<JsString>)
    requires Validate(h, input, hmacKey)
    ensures input.Obj? && HasString(input.members, KeyAuthor) && HasString(input.members, KeySignature)
    ensures SignatureVerifies(h, input, hmacKey)
  {
    ValidSignatureFields(h, input, hmacKey);
    PassesCheck(h, input, hmacKey, SignatureValid);
    SignatureCheckVerdict(h, input, hmacKey);
  }

  /** Conversely, an entry whose signature the verifier does not accept is invalid,
      whatever else it passes. */
  lemma UnverifiedRejected(h: Host, input: Json, hmacKey: Option<JsString>)
    requires input.Obj? && HasString(input.members, KeyAuthor) && HasString(input.members, KeySignature)
    requires !SignatureVerifies(h, input, hmacKey)
    ensures !Validate(h, input, hmacKey)
  {
    SignatureCheckVerdict(h, input, hmacKey);
    assert Run(h, SignatureValid, input, hmacKey) != Normal(true);
  }

  /** What a valid entry is: an object whose `hash` is "sha256", whose indented
      JSON text has at most 8192 code units, whose keys come in one of the two
      accepted orders, whose content is acceptable, and whose string signature
      verifies under the key taken from its string `author`. */
  lemma ValidEntry(h: Host, input: Json, hmacKey: Option<JsString>)
    requires Lawful(h) && Validate(h, input, hmacKey)
    ensures input.Obj?
    ensures Lookup(input.members, KeyHash) == Some(Str(Sha256))
    ensures |h.stringifyIndented(input)| <= MaxSize
    ensures DistinctKeys(input.members) ==> AcceptedOrder(Keys(input.members))
    ensures Lookup(input.members, KeyContent).Some? && AcceptableContent(Lookup(input.members, KeyContent).value)
    ensures HasString(input.members, KeyAuthor) && HasString(input.members, KeySignature)
    ensures SignatureVerifies(h, input, hmacKey)
  {
    ValidHash(h, input, hmacKey);
    ValidSize(h, input, hmacKey);
    if DistinctKeys(input.members) {
      ValidOrder(h, input.members, hmacKey);
    }
    ValidContent(h, input, hmacKey);
    ValidSignature(h, input, hmacKey);
  }

  /** With a signature binding that accepts everything and no network key, an entry
      with all seven fields, in canonical order or with `author` and `sequence`
      swapped, with a "sha256" hash, string `author` and `signature`,
      an object content whose `type` has 3 to 52 code units and a short indented
      text is valid, whatever the serialisers and the decoder. */
  lemma ValidUnderAcceptingVerifier(h: Host, ms: seq<Member>, fields: seq<Member>, t: JsString)
    requires Keys(ms) == AuthorFirst || Keys(ms) == SequenceFirst
    requires Lookup(ms, KeyHash) == Some(Str(Sha256))
    requires Lookup(ms, KeyContent) == Some(Obj(fields))
    requires Lookup(fields, KeyType) == Some(Str(t)) && MinTypeLength <= |t| <= MaxTypeLength
    requires HasString(ms, KeyAuthor) && HasString(ms, KeySignature)
    requires |h.stringifyIndented(Obj(ms))| <= MaxSize
    requires forall s, p, k :: h.signVerifyDetached(s, p, k) == Normal(true)
    ensures Validate(h, Obj(ms), None)
  {
    HashPasses(ms);
    ObjectContentPasses(h, Obj(ms), fields, t);
    OrderCheckAcceptsBothOrders(h, ms);
    AcceptingVerifierPasses(h, ms);
    ValidWhenEveryCheckPasses(h, Obj(ms), None);
  }

  /** An object whose `hash` is "sha256" passes the hash check. */
  lemma HashPasses(ms: seq<Member>)
    requires Lookup(ms, KeyHash) == Some(Str(Sha256))
    ensures HashCheck(Obj(ms)) == Normal(true)
  {
  }

  /** With no HMAC key and a signature binding that accepts everything, the
      signature check passes whenever `author` and `signature` are strings. */
  lemma AcceptingVerifierPasses(h: Host, ms: seq<Member>)
    requires HasString(ms, KeyAuthor) && HasString(ms, KeySignature)
    requires forall s, p, k :: h.signVerifyDetached(s, p, k) == Normal(true)
    ensures SignatureCheck(h, Obj(ms), None) == Normal(true)
  {
  }

  /** Object content passes when its `type` is a string of 3 to 52 code units,
      whatever the host. */
  lemma ObjectContentPasses(h: Host, input: Json, fields: seq<Member>, t: JsString)
    requires Property(input, KeyContent) == Normal(Some(Obj(fields)))
    requires Lookup(fields, KeyType) == Some(Str(t)) && MinTypeLength <= |t| <= MaxTypeLength
    ensures ContentCheck(h, input) == Normal(true)
  {
  }

  /** An entry that passes each of the five checks is valid. */
  lemma ValidWhenEveryCheckPasses(h: Host, input: Json, hmacKey: Option<JsString>)
    requires HashCheck(input) == Normal(true) && SizeCheck(h, input) == Normal(true)
    requires OrderCheck(h, input) == Normal(true) && ContentCheck(h, input) == Normal(true)
    requires SignatureCheck(h, input, hmacKey) == Normal(true)
    ensures Validate(h, input, hmacKey)
  {
    forall c | c in Checks
      ensures Run(h, c, input, hmacKey) == Normal(true)
    {
      match c
      case HashIsSha256 =>
      case SizeBound =>
      case KeyOrder =>
      case ContentShape =>
      case SignatureValid =>
    }
  }

  /** An entry whose `hash` is anything but the string "sha256" is rejected. */
  lemma WrongHashRejected(h: Host, input: Json, hmacKey: Option<JsString>)
    requires !input.Obj? || Lookup(input.members, KeyHash) != Some(Str(Sha256))
    ensures !Validate(h, input, hmacKey)
  {
    assert Run(h, Checks[0], input, hmacKey) != Normal(true);
  }
}
