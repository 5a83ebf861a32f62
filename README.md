# A Dafny model of `jws`: HS256 JSON Web Signatures in compact form

The Go package `jws` issues and checks tamper-evident tokens. `Encode` turns a payload
into `header.payload.signature`: the header is the base64 of `{"alg":"HS256"}`, the
payload is the base64 of the payload's JSON text, and the signature is the base64 of the
HMAC-SHA256 tag of `header + "." + payload` under a shared key. `Decode` splits a token on
`.`, requires three parts, recomputes the signature over the first two, compares it with
the third as a string, and only then base64-decodes the payload segment and unmarshals
it into the caller's value. The draft the package follows became RFC 7515 (compact
serialization: section 7.1; signing input: section 5.1).

The model has five modules:

- `Wrappers` (wrappers.dfy): the `Option` and `Result` types used for Go's `error` results.
- `GoBytes` (bytes.dfy): Go strings and byte slices as `seq<byte>`, and a count of one byte.
- `Base64` (base64.dfy): Go's `base64.StdEncoding`, the padded alphabet of section 4 of
  RFC 4648. The encoder turns three bytes into four characters and pads a final one or two
  bytes. The decoder is Go's non-strict decoder: CR and LF are skipped wherever they occur
  (the model drops them first), padding bits are ignored, and on malformed input the bytes
  of the quanta decoded before the fault are returned with the error.
- `GoStrings` (strings.dfy): `strings.Split` and `strings.Join` for a one-byte separator.
  Split keeps empty pieces and maps `""` to `[""]`.
- `Jws` (jws.dfy): `jwsHeader`, `jwsPayload`, `sign`, `Encode` and `Decode`, the error
  kinds, and the properties. `Decode` is a function returning the caller's payload value
  after the call together with the error; `DecodeInto` is the same operation as Go writes
  it, filling a caller-owned `Target` in place.

HMAC-SHA256 and `encoding/json` are code the package calls but does not contain. They
enter as a `Library` value of three functions: `hmac`, whose tag is always 32 bytes and is
otherwise unknown; `marshal`, which may fail; and `unmarshal`, which returns the target as
it leaves it (possibly partly filled) and an optional error.

Where jws.go departs from RFC 7515 or from what a reader might expect, the model follows jws.go:

- Segments are padded standard base64, not the unpadded base64url of section 2 of RFC 7515.
- The signature is compared with ordinary string equality (jws.go:61), not in constant time
  as section 3.2 of RFC 7518 requires for HMAC values.
- Empty segments pass the structural check (jws.go:49-50): `"a..b"` has three parts.
- The structural check (jws.go:50) comes before the key check (jws.go:93), so `Decode` with an empty key and the
  token `"a.b"` reports the incomplete token, not the empty key.
- The error of `base64.StdEncoding.DecodeString` at jws.go:66 is overwritten at jws.go:67
  and never reported. Whatever bytes the decoder produced go to `json.Unmarshal`, so there
  is no separate decode-error kind.
- The check of `mac.Write`'s error at jws.go:100-103 can never fail: a Go hash never returns
  an error from `Write`. The model has no error for it.

## Model

| member | source | states |
|---|---|---|
| `Base64.Encode` | jws.go:105 | `EncodeToString` output is 4·⌈n/3⌉ characters long, and each one is an alphabet character or `=` |
| `Base64.EncodeHasNo` | jws.go:39 | no byte outside the alphabet and `=` (in particular `.`) occurs in any encoding |
| `Base64.RoundTrip` | jws.go:66 | `DecodeString(EncodeToString(s))` gives back exactly `s`, with a nil error |
| `Base64.QuantaRoundTrip` | jws.go:66 | the quantum-by-quantum decoder inverts the encoder on every input, by induction over groups of three bytes |
| `Base64.DecodeQuanta` | jws.go:66 | the decoder reports no error only on a whole number of four-character quanta, and returns at most three bytes for every four characters |
| `Base64.Decode` | jws.go:66 | `DecodeString` returns at most three bytes per four characters, and a nil error only when the characters other than CR and LF make whole quanta; with `RoundTrip` it inverts `EncodeToString` |
| `Base64.StripNewlines` | jws.go:66 | the CR and LF that `DecodeString` skips are dropped: the result is no longer than the input and holds neither (that every other character is kept, in order, is `StripNewlinesOne` with `StripNewlinesAppend`) |
| `Base64.StripNewlinesOne` | jws.go:66 | one character is dropped by the decoder's newline skipping exactly when it is CR or LF |
| `Base64.StripNewlinesAppend` | jws.go:66 | newline skipping works piecewise on a concatenation, so with `StripNewlinesOne` every other character survives, in order |
| `Base64.PadBitsIgnored` | jws.go:66 | the decoder ignores the unused bits of a padded quantum: `"AB=="` decodes to the byte 0 with no error, while the encoding of that byte is `"AA=="` |
| `GoStrings.Split` | jws.go:49 | `strings.Split` returns one more piece than there are separators, and no piece contains the separator |
| `GoStrings.Join` | jws.go:39 | `strings.Join` adds one separator between each pair of neighbouring parts and no other |
| `GoStrings.SplitJoin` | jws.go:39 | splitting a join of separator-free parts gives back exactly those parts |
| `GoStrings.JoinSplit` | jws.go:49 | joining the pieces of a split gives back the string |
| `Jws.Header` | jws.go:75-79 | `jwsHeader` is always `eyJhbGciOiJIUzI1NiJ9`, whatever the key or payload |
| `Jws.HeaderText` | jws.go:76-78 | `eyJhbGciOiJIUzI1NiJ9` is the RFC 4648 base64 of `{"alg":"HS256"}` |
| `Jws.HeaderHasNoDot` | jws.go:75-79 | the header segment holds no `.` and decodes back to `{"alg":"HS256"}` |
| `Jws.Payload` | jws.go:81-89 | a `json.Marshal` error is returned as is; otherwise the segment is exactly `EncodeToString` of the JSON text, holds no `.`, and decodes back to that text |
| `Jws.SigningInput` | jws.go:98 | the signed text is the header, one `.` and the payload, in that order: when neither segment holds a `.`, it splits on `.` into exactly `[header, payload]`; its length and its count of `.` are those of the two segments plus one |
| `Jws.Sign` | jws.go:92-107 | an empty key, and only an empty key, gives the empty-key error; otherwise the signature is exactly `EncodeToString` of the HMAC-SHA256 tag of `header + "." + payload`: 44 base64 characters, no `.`, and it decodes back to the tag |
| `Jws.SignEmptyKeyComputesNoTag` | jws.go:93-96 | with an empty key the result does not depend on the MAC at all: no tag is computed |
| `Jws.Encode` | jws.go:17-42 | a `json.Marshal` error wins over an empty key; an empty key gives the empty-key error; otherwise the token splits on `.` into exactly the header, the payload segment and the signature of those two |
| `Jws.Authentic` | jws.go:49-61 | a token passes both checks of `Decode` when it splits into three parts and the third is the signature of the first two; such a token has two `.`, a non-empty key and a 44-character signature |
| `Jws.Decode` | jws.go:45-73 | the incomplete-token error comes exactly when the token does not have two `.`; with two `.` an empty key gives the empty-key error; the authentication error comes exactly when the key is non-empty and the third part is not the signature of the first two; before authentication succeeds the caller's payload is untouched; after it, `json.Unmarshal` receives whatever bytes `DecodeString` produced from the payload segment, and the caller's payload and the error are exactly what it leaves and reports |
| `Jws.Target.constructor` | jws.go:45 | the caller-owned value that `Decode` fills through its `payload` pointer starts as the value given |
| `Jws.DecodeInto` | jws.go:45-73 | filling the caller's payload in place leaves it and returns the error exactly as `Decode` describes |
| `Jws.RoundTrip` | jws_test.go:57-68 | a token from `Encode` with a non-empty key passes both checks of `Decode`, and `json.Unmarshal` receives exactly the JSON text that `Encode` signed |
| `Jws.RoundTripValue` | jws_test.go:63-73 | if `json.Unmarshal` inverts `json.Marshal`, decoding an encoded payload yields that payload with no error |
| `Jws.ForgedSignatureRejected` | jws.go:60-63 | a token of three `.`-free segments whose third is not the signature of the first two, under a non-empty key, gets the authentication error and leaves the payload untouched |
| `Jws.NonCanonicalSignatureRejected` | jws.go:61 | a signature segment that decodes to the right tag but is not its exact encoding is rejected, because the comparison is on strings |
| `Jws.PayloadDecodeErrorIgnored` | jws.go:66-67 | for an authentic token whose payload segment is not valid base64, the decode error is dropped and only `json.Unmarshal`'s verdict on the bytes decoded so far is reported |
| `Jws.LoneCharacterPayload` | jws.go:66-67 | an authentic token with payload segment `"A"` hands `json.Unmarshal` the empty input and returns exactly what it leaves and reports |
| `Jws.TwoPartsIsIncomplete` | jws.go:49-52 | `"a.b"` is an incomplete token even with an empty key |
| `Jws.FourPartsIsIncomplete` | jws.go:49-52 | `"a.b.c.d"` is an incomplete token |
| `Jws.EmptySegmentPassesStructure` | jws.go:49-58 | `"a..b"` passes the structural check and reaches the key check |

## Left out

- HMAC-SHA256 (`crypto/hmac`, `crypto/sha256`, jws.go:99-104) is an unknown function whose tag is 32 bytes. Nothing is proved that needs its security: that a wrong key or a changed header or payload is rejected would need collision resistance, which cannot be stated here.
- `encoding/json` (jws.go:67, 83) is an abstract pair of functions. Its reflection over `interface{}`, the JSON grammar and the concrete `Token` record of jws_test.go are not modelled.
- Error messages are replaced by the error kinds `EmptyKey`, `IncompleteSignature`, `SignatureAuthFailed` and `Json`. jws_test.go:95 looks for the text `"jws signature:"`, which jws.go never produces (jws.go:62 says `"jws: signature authentication failed"`); that expectation is not a property of the model.
- The test scaffolding of jws_test.go (`NewToken`, `Token.String`) reads the clock and environment variables and is not part of this model. The concrete scenario with keys `"abcd"` and `"efgh"` needs real HMAC values and is not stated.
- Byte offsets carried by Go's `CorruptInputError` are not modelled; only whether the decode error is nil.
