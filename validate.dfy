/** The message validator of index.js: five checks over a parsed log entry, run in
    order by `every` inside a try/catch that turns any exception into `false`. */
module Validator {
  import opened Wrappers
  import opened JsText
  import opened Json
  import Base64

  const KeyPrevious: JsString := Lit("previous")
  const KeyAuthor: JsString := Lit("author")
  const KeySequence: JsString := Lit("sequence")
  const KeyTimestamp: JsString := Lit("timestamp")
  const KeyHash: JsString := Lit("hash")
  const KeyContent: JsString := Lit("content")
  const KeySignature: JsString := Lit("signature")
  const KeyType: JsString := Lit("type")

  /** The only accepted value of `hash`. */
  const Sha256: JsString := Lit("sha256")
  /** What ends the base64 part of encrypted (string) content. */
  const BoxMarker: JsString := Lit(".box")
  /** What ends the base64 part of a signature. */
  const Dot: JsString := Lit(".")

  /** Upper bound on the latin1 byte count of the indented JSON text of an entry. */
  const MaxSize := 8192
  const MinTypeLength := 3
  const MaxTypeLength := 52
  /** `author.slice(1, 45)`: past the sigil, the 44 characters of the key's base64. */
  const PublicKeyStart := 1
  const PublicKeyEnd := 45

  /** The two key orders the order check rebuilds an entry in. */
  const AuthorFirst: seq<JsString> :=
    [KeyPrevious, KeyAuthor, KeySequence, KeyTimestamp, KeyHash, KeyContent, KeySignature]
  const SequenceFirst: seq<JsString> :=
    [KeyPrevious, KeySequence, KeyAuthor, KeyTimestamp, KeyHash, KeyContent, KeySignature]

  /** What the validator calls outside its own code: `JSON.stringify` without and
      with 2-space indentation, Node's base64 decoder, and the libsodium bindings
      `crypto_auth` (the keyed tag) and `crypto_sign_verify_detached` (Ed25519, RFC
      8032 section 5.1.7). A binding that throws, as sodium-native does for a key or
      signature of the wrong length, completes with `Throw`. */
  datatype Host = Host(
    stringify: Json -> JsString,
    stringifyIndented: Json -> JsString,
    base64Decode: JsString -> seq<Byte>,
    cryptoAuth: (seq<Byte>, seq<Byte>) -> Completion<seq<Byte>>,
    signVerifyDetached: (seq<Byte>, seq<Byte>, seq<Byte>) -> Completion<bool>)

  /** What the order check relies on from `JSON.stringify`: an object's compact text
      spells out its keys in order, so two objects with the same text have the same
      key sequence; and no other value prints as `{}`. (Equal texts need not mean
      equal values: numbers are printed to finitely many digits.) */
  ghost predicate StringifyShowsKeys(h: Host)
  {
    && (forall a, b :: h.stringify(Obj(a)) == h.stringify(Obj(b)) ==> Keys(a) == Keys(b))
    && (forall v :: v != Null && !v.Obj? ==> h.stringify(v) != h.stringify(Obj([])))
  }

  /** What the content check relies on from `Buffer.from(…, "base64")`: decoding the
      standard encoding of some bytes gives those bytes back. */
  ghost predicate DecoderInvertsEncode(h: Host)
  {
    forall b :: h.base64Decode(Base64.Encode(b)) == b
  }

  /** Both host laws. */
  ghost predicate Lawful(h: Host)
  {
    StringifyShowsKeys(h) && DecoderInvertsEncode(h)
  }

  lemma FieldNamesDistinct()
    ensures Distinct(AuthorFirst) && Distinct(SequenceFirst)
  {
    assert |KeyPrevious| == 8 && |KeyAuthor| == 6 && |KeySequence| == 8 && |KeyTimestamp| == 9;
    assert |KeyHash| == 4 && |KeyContent| == 7 && |KeySignature| == 9;
    assert KeyPrevious[0] != KeySequence[0];
    assert KeyTimestamp[0] != KeySignature[0];
  }

  // ---------------------------------------------------------------------------
  // The five checks

  /** The entry's `hash` is the string "sha256". Reading a property of null throws. */
  function HashCheck(input: Json): (r: Completion<bool>)
    ensures r == Throw <==> input == Null
    ensures r == Normal(true) <==> input.Obj? && Lookup(input.members, KeyHash) == Some(Str(Sha256))
  {
    match Property(input, KeyHash)
    case Throw => Throw
    case Normal(hash) => Normal(hash == Some(Str(Sha256)))
  }

  /** The latin1 byte length of the 2-space-indented JSON text is at most 8192. */
  function SizeCheck(h: Host, input: Json): (r: Completion<bool>)
    ensures r == Normal(|h.stringifyIndented(input)| <= MaxSize)
  {
    Normal(|Latin1(h.stringifyIndented(input))| <= MaxSize)
  }

  /** Keys in one of the two accepted orders: those of the seven field names that
      are present, in canonical order or with `author` and `sequence` swapped, and
      no other key. */
  ghost predicate AcceptedOrder(ks: seq<JsString>)
  {
    ks == Present(AuthorFirst, ks) || ks == Present(SequenceFirst, ks)
  }

  /** With a serialiser whose text shows the keys, an object's text equals that of
      its copy rebuilt in the order of `names` exactly when its keys are the
      present names in that order. */
  lemma SameTextIffPick(h: Host, ms: seq<Member>, names: seq<JsString>)
    ensures StringifyShowsKeys(h) && DistinctKeys(ms) ==>
      (h.stringify(Obj(ms)) == h.stringify(Obj(Pick(ms, names))) <==> Keys(ms) == Present(names, Keys(ms)))
  {
    if StringifyShowsKeys(h) && DistinctKeys(ms) {
      PickIsIdentity(ms, names);
      if h.stringify(Obj(ms)) == h.stringify(Obj(Pick(ms, names))) {
        assert Keys(ms) == Keys(Pick(ms, names));
      }
    }
  }

  /** The compact JSON text of the entry equals that of one of its two rebuilt
      copies: the seven fields destructured out of it, put back in canonical order
      or with `author` and `sequence` swapped. Because the copies carry the entry's
      own values, comparing texts compares key sequences: an object passes exactly
      when its keys come in an accepted order, and any other value but null (which
      throws) fails, since its copies are `{}`. */
  function OrderCheck(h: Host, input: Json): (r: Completion<bool>)
    ensures r == Throw <==> input == Null
    ensures input.Obj? && StringifyShowsKeys(h) && DistinctKeys(input.members) ==>
      r == Normal(AcceptedOrder(Keys(input.members)))
    ensures input != Null && !input.Obj? && StringifyShowsKeys(h) ==> r == Normal(false)
  {
    if input == Null then Throw
    else
      var fields := if input.Obj? then input.members else [];
      PickOfEmpty(AuthorFirst);
      PickOfEmpty(SequenceFirst);
      SameTextIffPick(h, fields, AuthorFirst);
      SameTextIffPick(h, fields, SequenceFirst);
      var text := h.stringify(input);
      Normal(text == h.stringify(Obj(Pick(fields, AuthorFirst)))
             || text == h.stringify(Obj(Pick(fields, SequenceFirst))))
  }

  /** Content the content check accepts: an object with a string `type` of 3 to 52
      code units, or a string whose part before the first ".box" is canonical base64. */
  ghost predicate AcceptableContent(c: Json)
  {
    match c
    case Obj(ms) => HasString(ms, KeyType) && MinTypeLength <= |Lookup(ms, KeyType).value.s| <= MaxTypeLength
    case Str(s) => Base64.Canonical(BeforeFirst(s, BoxMarker))
    case _ => false
  }

  /** With a decoder that inverts the encoding, the decode-and-re-encode comparison
      holds exactly on canonical text. */
  lemma RoundTripUnderHost(h: Host, s: JsString)
    ensures DecoderInvertsEncode(h) ==> (Base64.Encode(h.base64Decode(s)) == s <==> Base64.Canonical(s))
  {
    if DecoderInvertsEncode(h) {
      Base64.RoundTripIffCanonical(h.base64Decode, s);
    }
  }

  /** `content` is an object (not null, not an array) with a string `type` of 3 to 52
      code units, or a string whose part before the first ".box" survives base64
      decoding and re-encoding; anything else fails. With a decoder that inverts
      the encoding, the check passes exactly on acceptable content, however the
      decoder treats other text. */
  function ContentCheck(h: Host, input: Json): (r: Completion<bool>)
    ensures r == Throw <==> input == Null
    ensures DecoderInvertsEncode(h) ==>
      (r == Normal(true) <==>
        input.Obj? && Lookup(input.members, KeyContent).Some? && AcceptableContent(Lookup(input.members, KeyContent).value))
  {
    match Property(input, KeyContent)
    case Throw => Throw
    case Normal(None) => Normal(false)
    case Normal(Some(content)) =>
      match content
      case Obj(ms) =>
        Normal(match Lookup(ms, KeyType)
               case Some(Str(t)) => MinTypeLength <= |t| <= MaxTypeLength
               case _ => false)
      case Str(s) =>
        var base64 := BeforeFirst(s, BoxMarker);
        RoundTripUnderHost(h, base64);
        Normal(Base64.Encode(h.base64Decode(base64)) == base64)
      case _ => Normal(false)
  }

  /** The entry without its signature, whose indented JSON is the signed text. The
      copy `JSON.parse(JSON.stringify(input))` is taken to be the entry itself (it
      prints the same text, which is all that is signed), and
      `delete copy.signature` removes that one member. Every other member keeps its
      place and its value. */
  function Unsigned(input: Json): (r: Json)
    ensures input.Obj? ==> r.Obj? && Keys(r.members) == Drop(Keys(input.members), KeySignature)
    ensures input.Obj? ==> forall n :: Lookup(r.members, n) == if n == KeySignature then None else Lookup(input.members, n)
    ensures !input.Obj? ==> r == input
  {
    match input
    case Obj(ms) => LookupWithout(ms, KeySignature); Obj(Without(ms, KeySignature))
    case _ => input
  }

  /** What the signature is checked against: the UTF-8 bytes of the message, or,
      when a network key is given, the `crypto_auth` tag of those bytes under the
      base64-decoded key. */
  function Payload(h: Host, message: JsString, hmacKey: Option<JsString>): (r: Completion<seq<Byte>>)
    ensures hmacKey.None? ==> r == Normal(Utf8(message))
    ensures hmacKey.None? ==> r.Normal? && Utf8Decode(r.value) == CodePoints(message)
    ensures hmacKey.Some? ==> r == h.cryptoAuth(Utf8(message), h.base64Decode(hmacKey.value))
  {
    match hmacKey
    case None => Normal(Utf8(message))
    case Some(key) => h.cryptoAuth(Utf8(message), h.base64Decode(key))
  }

  /** The Ed25519 detached signature decoded from the text before the first "." of
      `signature` verifies the payload under the key decoded from characters 1 to 44
      of `author`. A missing or non-string `author` or `signature` throws. */
  function SignatureCheck(h: Host, input: Json, hmacKey: Option<JsString>): (r: Completion<bool>)
    ensures r != Throw ==> input.Obj? && HasString(input.members, KeyAuthor) && HasString(input.members, KeySignature)
  {
    match (Property(input, KeyAuthor), Property(input, KeySignature))
    case (Normal(Some(Str(author))), Normal(Some(Str(signature)))) =>
      var publicKey := h.base64Decode(Slice(author, PublicKeyStart, PublicKeyEnd));
      var signatureBytes := h.base64Decode(BeforeFirst(signature, Dot));
      (match Payload(h, h.stringifyIndented(Unsigned(input)), hmacKey)
       case Throw => Throw
       case Normal(payload) => h.signVerifyDetached(signatureBytes, payload, publicKey))
    case _ => Throw
  }

  ghost predicate HasString(ms: seq<Member>, name: JsString)
  {
    Lookup(ms, name).Some? && Lookup(ms, name).value.Str?
  }

  // ---------------------------------------------------------------------------
  // The exported predicate

  datatype Check = HashIsSha256 | SizeBound | KeyOrder | ContentShape | SignatureValid

  /** The `checks` array, in order. */
  const Checks: seq<Check> := [HashIsSha256, SizeBound, KeyOrder, ContentShape, SignatureValid]

  /** One closure of `checks` applied to the entry. The hash, order and content
      closures throw exactly on null; the size closure never throws; only the
      signature closure can throw on a value other than null. */
  function Run(h: Host, c: Check, input: Json, hmacKey: Option<JsString>): (r: Completion<bool>)
    ensures c != SignatureValid && c != SizeBound ==> (r == Throw <==> input == Null)
    ensures c == SizeBound ==> r.Normal?
  {
    match c
    case HashIsSha256 => HashCheck(input)
    case SizeBound => SizeCheck(h, input)
    case KeyOrder => OrderCheck(h, input)
    case ContentShape => ContentCheck(h, input)
    case SignatureValid => SignatureCheck(h, input, hmacKey)
  }

  /** The checks run in order, each given the entry and the network key; the first
      one that does not return true ends the run with its outcome. */
  function Every(h: Host, cs: seq<Check>, input: Json, hmacKey: Option<JsString>): (r: Completion<bool>)
    ensures r == Normal(true) <==> forall i :: 0 <= i < |cs| ==> Run(h, cs[i], input, hmacKey) == Normal(true)
    decreases |cs|
  {
    if cs == [] then Normal(true)
    else match Run(h, cs[0], input, hmacKey)
      case Normal(true) => Every(h, cs[1..], input, hmacKey)
      case failed => failed
  }

  /** The exported function: `every` inside try/catch. An exception from any check
      becomes `false` and never reaches the caller. */
  function Validate(h: Host, input: Json, hmacKey: Option<JsString>): (valid: bool)
    ensures valid <==> forall c :: c in Checks ==> Run(h, c, input, hmacKey) == Normal(true)
  {
    match Every(h, Checks, input, hmacKey)
    case Normal(b) => b
    case Throw => false
  }
}
