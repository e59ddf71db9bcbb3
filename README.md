# Validating one entry of a replicated log

`index.js` exports `validate(input, hmacKey = null)`. It takes one parsed log entry
and an optional network key. It returns `true` only when all five checks pass, in
this order:

1. `hash` is the string `"sha256"`;
2. the 2-space-indented JSON text of the entry, counted one byte per UTF-16 code
   unit (`latin1`), is at most 8192 bytes;
3. the compact JSON text of the entry equals that of one of two copies rebuilt
   from its seven fields. One copy puts them in canonical order (`previous`,
   `author`, `sequence`, `timestamp`, `hash`, `content`, `signature`); the other
   swaps `author` and `sequence`;
4. `content` is either:
   - an object with a string `type` of 3 to 52 code units, or
   - a string whose text before the first `.box` survives a base64 decode and
     re-encode;
5. the Ed25519 detached signature verifies against the public key:
   - the signature is the text of `signature` before the first `.`, base64-decoded;
   - the public key is characters 1 to 44 of `author`, base64-decoded;
   - what is verified is the entry without `signature`, as indented JSON, in
     UTF-8. With a network key, it is instead the `crypto_auth` tag of those bytes
     under the decoded key.

The checks run under `every` inside a `try`/`catch`. An exception in any check
makes the result `false`.

The model is written in the form of `index.js`: pure functions over values, with
no state.

- `JsText`:
  - JavaScript strings as sequences of UTF-16 code units;
  - `slice`, `split(sep)[0]`, and the `latin1` and UTF-8 `Buffer` encodings;
  - a UTF-8 reader that takes the bytes back to the string's code points.
- `Base64`:
  - Node's base64 encoding, with a lenient decoder;
  - `Canonical`, an independent definition of "text that is some encoding".
- `Json`:
  - parsed values, with objects as ordered member lists;
  - property reads (`null` throws);
  - the destructure-and-rebuild copy and `delete`;
  - overwriting a property, which `index.js` never does. It serves only to state
    that the signature check ignores the text after the first `.` of `signature`.
- `Validator`:
  - the five checks, the `checks` array, `every` and the exported function;
  - the `Host` datatype, which carries what the validator calls but does not
    define: the two `JSON.stringify` forms, the base64 decoder, `crypto_auth` and
    `crypto_sign_verify_detached`.
- `Properties`: what the checks accept and reject, and what a valid entry is.
- `Witness`: a host that meets both host laws below, and an entry it validates.
  It shows that the lemmas assuming those laws, or a valid entry, are about
  something.

Exceptions are the `Throw` outcome of `Completion`.

Two host laws state what is assumed of the host. Each lemma requires only the one
it uses:

- `StringifyShowsKeys`: the compact JSON text of an object spells out its keys in
  order, so two objects with the same text have the same key sequence. No other
  value prints as `{}`. Equal texts are not taken to mean equal values: numbers
  print to finitely many digits.
- `DecoderInvertsEncode`: decoding the standard base64 encoding of some bytes
  gives those bytes back.

`Lawful` is both laws together. `Witness.LawfulHost` meets both: its serialiser
writes only the keys, and its decoder is the lenient `Base64.Decode`.

The order check compares texts of the entry and of copies that carry the entry's
own values. Under `StringifyShowsKeys`, that comparison is exactly a condition on
the key sequence (`Validator.OrderCheck`). The content check's base64 comparison is
exactly canonicity, for any decoder that meets `DecoderInvertsEncode`
(`Validator.ContentCheck`).

Some descriptions of this protocol require more than `index.js` checks. The model
follows `index.js`:

- there is no chain-state comparison of `previous` and `sequence`. The exported
  function takes only `input` and `hmacKey`;
- `author` and `signature` are not required to end in their type suffixes;
- the decoded key and signature lengths are not checked, except where the
  signature binding itself throws;
- `timestamp` is not checked to be a number;
- a missing field passes the order check, because both copies leave it out too.

## Model

| member | source | states |
|---|---|---|
| JsText.Slice | index.js:77 | `slice(1, 45)` clamps both ends to the length, so the result has `min(45, n) - 1` characters for a string of `n > 1` characters. Each character is the source character at the same offset past `start`. An empty range gives the empty string. |
| JsText.BeforeFirst | index.js:60-61 | `split(sep)[0]` is a prefix of the string. `sep` does not occur anywhere before the prefix ends. When the prefix is shorter than the string, `sep` occurs right where it ends. |
| JsText.Latin1 | index.js:9 | `Buffer.from(text, "latin1")` has one byte per UTF-16 code unit, so its `byteLength` is the string's `length`. A code unit below 256 is its own byte. |
| JsText.CodePointUtf8 | index.js:84 | The UTF-8 bytes of one code point follow the layout of RFC 3629 section 3. The leading byte's range gives the length, and the other bytes are continuation bytes. The payload bits, read most significant first, are the code point. |
| JsText.CodePoints | index.js:84 | The code points a string stands for are all valid Unicode scalar values: no surrogates, nothing above U+10FFFF. There are at least half as many as code units and at most as many. A string without surrogates stands for its own code units. |
| JsText.CodePointsOfPair | index.js:84 | A high surrogate followed by a low one is one supplementary code point, between U+10000 and U+10FFFF. |
| JsText.CodePointsOfOther | index.js:84 | A code unit that is not a surrogate is its own code point, whatever follows it. |
| JsText.CodePointsOfLoneSurrogate | index.js:84 | A low surrogate, or a high one not followed by a low one, is replaced by U+FFFD. |
| JsText.Utf8DecodeCodePoint | index.js:84 | The bytes of one code point read back as that code point, whatever follows them. |
| JsText.Utf8 | index.js:84-87 | `Buffer.from(message)` gives bytes that read back as exactly the code points of the message. |
| JsText.Utf8OfCodePoints | index.js:84-87 | `Buffer.from(message)` depends only on the message's code points: a lone surrogate gives the same bytes as U+FFFD. |
| JsText.Utf8LengthBounds | index.js:6-9 | The `latin1` count used by the size check never exceeds the UTF-8 byte count of the same text. The UTF-8 count is at most three times the `latin1` count. |
| JsText.Utf8ThreeBytesPerUnit | index.js:7-9 | The factor of three is reached: `n` copies of U+0800 count `n` under `latin1` and are `3n` bytes of UTF-8. |
| JsText.Utf8OfAscii | index.js:84 | For ASCII text, the `Buffer.from(message)` bytes are the text's code units. |
| Base64.Value | index.js:62 | A character has a 6-bit value only if it is the alphabet character for that value. `=` has none. |
| Base64.ValueOfChar | index.js:62 | Every alphabet character reads back as the value it encodes. |
| Base64.Encode | index.js:62 | `toString("base64")` has 4 characters for every 3 bytes or part of 3. |
| Base64.Decode | index.js:62 | The lenient decoder standing in for `Buffer.from(text, "base64")` gives at most three bytes for every four characters. |
| Base64.DecodeEncode | index.js:62 | Decoding an encoding gives back the bytes. |
| Base64.DecodeEncodeOne | index.js:62 | A single final byte, written as two characters and `==`, decodes to that byte. |
| Base64.DecodeEncodeTwo | index.js:62 | Two final bytes, written as three characters and `=`, decode to those bytes. |
| Base64.FromSextetsGroup | index.js:62 | Four 6-bit values decode to three bytes, whatever follows them. |
| Base64.EncodeIsCanonical | index.js:62-63 | Every encoding is canonical: full alphabet groups, padding only at the end, zero padding bits. |
| Base64.EncodeDecodeCanonical | index.js:62-63 | A canonical text is the re-encoding of its own decoding. |
| Base64.CanonicalIffEncoding | index.js:62-63 | A text is canonical if and only if it is the encoding of some bytes. |
| Base64.RoundTripIffCanonical | index.js:62-63 | For any decoder that inverts encoding, the decode-and-re-encode comparison holds exactly on canonical text. This holds however lenient the decoder is with other text. |
| Json.Lookup | index.js:71 | A property is absent exactly when its name is not a key. A property that is found is a member of the object. |
| Json.LookupMember | index.js:71 | In an object without repeated keys, each member is what a lookup of its key finds. |
| Json.Property | index.js:4 | Reading a property throws exactly on `null`. A value read is a member of an object. |
| Json.Present | index.js:24-42 | A name is kept exactly when it is both one of the names and one of the keys. |
| Json.Pick | index.js:13-42 | The rebuilt copy's keys are the entry's fields, in the copy's order. Its members are the entry's own members. |
| Json.PickOfEmpty | index.js:13-42 | A value with no members gives a copy with no members. |
| Json.PickIsIdentity | index.js:43-46 | An object without repeated keys equals a rebuilt copy if and only if its keys are the present names in the copy's order. |
| Json.SameKeysSameMembers | index.js:43-46 | Members drawn from an object without repeated keys, with that object's key sequence, are exactly its members. |
| Json.Drop | index.js:74 | A name survives exactly when it is a key other than the one dropped. |
| Json.Without | index.js:73-74 | `delete copy.signature` leaves the other keys, in order. |
| Json.LookupWithout | index.js:74 | After the delete, the deleted property reads as absent. Every other property keeps its value. |
| Json.Update | index.js:71-78 | A helper for stating that the signature check reads only part of `signature`. Overwriting a property keeps the keys, in order. |
| Json.LookupUpdateSame | index.js:71-78 | A helper for the same statement. After overwriting a property the object has, that property reads as the new value. |
| Json.LookupUpdateOther | index.js:71-78 | A helper for the same statement. Overwriting a property leaves every other property as it was. |
| Json.WithoutUpdate | index.js:73-74 | Deleting a property after overwriting it is the same as deleting it. |
| Validator.FieldNamesDistinct | index.js:24-42 | The seven field names of each rebuilt copy are pairwise distinct. |
| Validator.HashCheck | index.js:4 | The check throws exactly on `null`. It passes exactly when the entry is an object whose `hash` is the string `"sha256"`. |
| Validator.SizeCheck | index.js:8-9 | The check's verdict is whether the indented text has at most 8192 code units. So 8192 passes and 8193 fails. |
| Validator.SameTextIffPick | index.js:43-46 | Under `StringifyShowsKeys`, an object without repeated keys has the same text as its rebuilt copy if and only if its keys are the present names in the copy's order. |
| Validator.OrderCheck | index.js:12-48 | The check throws exactly on `null`. Under `StringifyShowsKeys`, an object without repeated keys passes exactly when its keys are the fields it has, in canonical order or with `author` and `sequence` swapped. Any other non-null value fails. |
| Validator.RoundTripUnderHost | index.js:60-63 | Under `DecoderInvertsEncode`, the decode-and-re-encode comparison holds exactly on canonical text. |
| Validator.ContentCheck | index.js:49-68 | The check throws exactly on `null`. Under `DecoderInvertsEncode`, it passes exactly when `content` is either an object with a string `type` of 3 to 52 code units, or a string whose text before `.box` is canonical base64. Anything else fails. |
| Validator.Unsigned | index.js:73-76 | The copy without `signature`, whose indented JSON is signed, keeps the entry's other keys in order. `signature` reads as absent, and every other property keeps its value. A non-object is copied as it is. |
| Validator.Payload | index.js:80-87 | Without a network key, the payload is `Buffer.from(message)`, the UTF-8 bytes of the message (pinned by `JsText.Utf8OfCodePoints` and `JsText.CodePointUtf8`). They read back as exactly the message's code points. With a key, it is whatever `crypto_auth` gives for those bytes under the decoded key, a throw included. |
| Validator.SignatureCheck | index.js:70-94 | The check can complete only on an object whose `author` and `signature` are both strings. Anything else throws. Its verdict is stated by `Properties.SignatureCheckVerdict`. |
| Validator.Run | index.js:3-95 | The hash, order and content closures throw exactly on `null`. The size closure never throws: on `null` it measures the text `null`. |
| Validator.Every | index.js:99 | `every` returns true exactly when each check in the list returns true. |
| Validator.Validate | index.js:97-104 | The exported function returns true exactly when every one of the five checks returns true. Exceptions count as failure. |
| Properties.EveryStopsAtFirstFailure | index.js:99 | When the checks before `i` pass and check `i` does not, the run's outcome is check `i`'s. No later check is consulted. |
| Properties.ThrowMeansInvalid | index.js:98-103 | An exception in a check reached by `every` makes the exported function return false. |
| Properties.PresentAll | index.js:13-42 | When every name is a key, the present names are all the names. |
| Properties.PresentOfDrop | index.js:13-42 | With one field name dropped, the present names are exactly the remaining ones. |
| Properties.PresentFrom | index.js:13-42 | A key that is not a field name does not change the present names. |
| Properties.DropDistinct | index.js:24-32 | Dropping a name from distinct names leaves them distinct. |
| Properties.OrderCheckAcceptsBothOrders | index.js:23-47 | Both the canonical order and the order with `author` and `sequence` swapped pass, whatever the serialiser. |
| Properties.OrderCheckAcceptsMissingField | index.js:13-47 | The canonical order with any one field left out still passes, whatever the serialiser. |
| Properties.OrderCheckRejectsUnknownKey | index.js:12-48 | Under `StringifyShowsKeys`, a key outside the seven field names fails the order check. |
| Properties.OrderCheckRejectsOtherOrders | index.js:12-48 | Under `StringifyShowsKeys`, an entry with all seven fields passes only in the two accepted orders. |
| Properties.EmptyBoxPrefixPasses | index.js:59-63 | Under `DecoderInvertsEncode`, string content that starts with `.box` passes, because the empty text is the encoding of no bytes. |
| Properties.SignatureSuffixIgnored | index.js:71-78 | Replacing `signature` with a text that has the same part before the first `.` does not change the signature check. |
| Properties.UnsignedAfterUpdate | index.js:73-76 | Overwriting `signature` does not change the copy that is signed. |
| Properties.SignatureCheckCongruence | index.js:70-94 | Two entries that agree on `author`, on the part of `signature` before the first `.`, and on the payload get the same signature verdict. |
| Properties.SignatureSameCodePoints | index.js:84-93 | Without a network key, two entries whose signed texts have the same code points get the same verdict. A lone surrogate signs as U+FFFD would. |
| Properties.SignatureKeyedByTag | index.js:80-93 | With a network key, the signed text matters only through its `crypto_auth` tag. Two entries whose texts give the same tag get the same verdict. |
| Properties.KeyedAuthFailureRejects | index.js:80-104 | A network key on which `crypto_auth` throws makes every entry invalid. |
| Properties.SignatureCheckVerdict | index.js:70-94 | On an object with string `author` and `signature`, the check passes exactly when the Ed25519 verifier accepts three arguments: the bytes base64-decoded from `signature` before its first `.`; the payload, which must not throw; and the key base64-decoded from `author.slice(1, 45)`. |
| Properties.ValidSignature | index.js:70-104 | A valid entry has string `author` and `signature`, and the verifier accepts its signature on exactly those arguments. |
| Properties.UnverifiedRejected | index.js:70-104 | Conversely, an entry whose signature the verifier does not accept on those arguments is invalid, whatever else it passes. |
| Properties.ReplaceSignature | index.js:71-77 | Overwriting `signature` keeps `author` and makes `signature` read as the new value. |
| Properties.PassesCheck | index.js:99 | A valid entry passes each check in the list. |
| Properties.ValidHash | index.js:4 | A valid entry is an object whose `hash` is `"sha256"`. |
| Properties.ValidSize | index.js:8-9 | A valid entry's indented text has at most 8192 code units. |
| Properties.ValidOrder | index.js:12-48 | Under `StringifyShowsKeys`, a valid entry without repeated keys has its keys in an accepted order. |
| Properties.ValidContent | index.js:49-68 | Under `DecoderInvertsEncode`, a valid entry has acceptable `content`. |
| Properties.ContentShapePasses | index.js:49-68 | A valid entry passes the content check. |
| Properties.RunContentShape | index.js:49-68 | The content closure of `checks` is the content check. |
| Properties.ContentPassed | index.js:49-68 | Under `DecoderInvertsEncode`, passing the content check means acceptable `content`. |
| Properties.ValidSignatureFields | index.js:70-78 | A valid entry has string `author` and `signature`. |
| Properties.SignaturePassed | index.js:71-77 | A passing signature check implies string `author` and `signature`. |
| Properties.ValidEntry | index.js:3-104 | Under both host laws, a valid entry satisfies all of the above at once, including that the verifier accepts its signature. |
| Properties.WrongHashRejected | index.js:4 | An entry whose `hash` is not `"sha256"` is invalid. |
| Properties.ValidWhenEveryCheckPasses | index.js:97-104 | Conversely, an entry on which each of the five checks returns `true` without throwing is valid. |
| Properties.HashPasses | index.js:4 | An object whose `hash` is `"sha256"` passes the hash check. |
| Properties.ObjectContentPasses | index.js:51-58 | Object content whose `type` is a string of 3 to 52 code units passes the content check, whatever the host. |
| Properties.AcceptingVerifierPasses | index.js:70-94 | With no HMAC key and a signature primitive that accepts everything, the signature check passes when `author` and `signature` are strings. |
| Properties.ValidUnderAcceptingVerifier | index.js:3-104 | Under such a host, an entry with all seven fields, in the canonical order or with `author` and `sequence` swapped, is valid when it has a `"sha256"` hash, string `author` and `signature`, object content with a 3-to-52-unit `type`, and a short indented text. |
| Witness.KeyText | index.js:43-46 | The witness serialiser writes a key so that where it ends can be read back. |
| Witness.KeyTextPrefix | index.js:43-46 | A written key is read back unambiguously, whatever follows it. |
| Witness.KeysTextInjective | index.js:43-46 | Different key sequences are written differently. |
| Witness.LawfulHostIsLawful | index.js:43-63 | The witness host meets `StringifyShowsKeys` and `DecoderInvertsEncode`. |
| Witness.WitnessEntry | index.js:3-95 | Returns an entry with all seven fields in canonical order, a `"sha256"` hash, string `author` and `signature`, and object content whose `type` is `"post"`, which has 3 to 52 code units. |
| Witness.ValidWitness | index.js:97-104 | Returns a host that meets both laws and an entry that `validate` accepts under it. |
| Witness.ValidateIsSatisfiable | index.js:97-104 | Some host that meets both laws makes `validate` return `true`. So the lemmas that assume a valid entry, or either law, are not vacuous. |

## Left out

- Ed25519 verification and `crypto_auth` (libsodium): these are host functions. Their internals and key lengths are not modelled.
- `JSON.stringify` formatting and escaping: these are host functions. The order-check facts assume only `StringifyShowsKeys`. Nothing is assumed of the indented form.
- `JSON.parse(JSON.stringify(input))`: the model takes the copy to be the entry itself. The copy can differ: a number too large for a double, such as `1e400`, parses as `Infinity`, and the copy holds `null` in its place. Numbers here are reals, so `Infinity` is not representable. The copy prints the same indented text as the entry, and only that text goes into the signed payload (index.js:73-87).
- Node's treatment of non-canonical base64: it is not pinned down. The content check is proved for any decoder that inverts encoding. `Base64.Decode` is one such lenient decoder.
- `console.error` in the catch block: it is output only and is left out.
- Validator.SignatureCheck: an `author` that is an array is treated as a throw. The source would call the array's own `slice` and then `Buffer.from` on it.
- Validator.Validate: `hmacKey` is a string or absent. A non-string key reaching `Buffer.from` is not modelled.
- Properties on the prototype chain are not modelled. None of the names the validator reads is on a prototype.
- Numbers are mathematical reals. Floating-point formatting by `JSON.stringify` belongs to the host.
- The repository's test fixtures are not part of this model.
