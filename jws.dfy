/**
 * The JWS compact serialization of jws.go, fixed to HS256: a header segment, a payload
 * segment and a signature segment, each standard padded base64, joined with '.'.
 * HMAC-SHA256 and encoding/json are foreign code and enter as function values.
 */
module Jws {
  import opened Wrappers
  import opened GoBytes
  import Base64
  import GoStrings

  const Dot: byte := 46  // '.'

  /** HMAC-SHA256 of a message under a key: an unknown function whose tag is always 32 bytes. */
  type Hmac = f: (Bytes, Bytes) -> Bytes | forall key, msg :: |f(key, msg)| == 32
    witness (key: Bytes, msg: Bytes) => seq(32, i => 0 as byte)

  /** An error returned by encoding/json, passed through unchanged. */
  datatype JsonError = JsonError(message: string)

  /** What `json.Unmarshal(data, payload)` leaves behind: the (possibly partly) filled target and its error. */
  datatype Unmarshaled<V> = Unmarshaled(target: V, err: Option<JsonError>)

  /** The library code jws.go calls: crypto/hmac with crypto/sha256, `json.Marshal`, `json.Unmarshal`. */
  datatype Library<!V> = Library(
    hmac: Hmac,
    marshal: V -> Result<Bytes, JsonError>,
    unmarshal: (Bytes, V) -> Unmarshaled<V>)

  /** The errors jws.go returns, by kind. */
  datatype JwsError =
    | EmptyKey             // "jws: key can not be empty"
    | IncompleteSignature  // "jws: incomplete signature does not contain 3 parts, ..."
    | SignatureAuthFailed  // "jws: signature authentication failed"
    | Json(cause: JsonError)

  /** The JSON text of the only header this package writes. */
  const HeaderJson: Bytes := Ascii("{\"alg\":\"HS256\"}")

  /** `jwsHeader`: the base64 of `{"alg":"HS256"}`, the same on every call. */
  function Header(): (h: Bytes)
    ensures h == Ascii("eyJhbGciOiJIUzI1NiJ9")
  {
    HeaderText();
    Base64.Encode(HeaderJson)
  }

  /** RFC 4648 base64 of `{"alg":"HS256"}`, one three-byte group at a time. */
  lemma HeaderText()
    ensures Base64.Encode(HeaderJson) == Ascii("eyJhbGciOiJIUzI1NiJ9")
  {
    var text: Bytes := [101, 121, 74, 104, 98, 71, 99, 105, 79, 105, 74, 73, 85, 122, 73, 49, 78, 105, 74, 57];
    assert Ascii("eyJhbGciOiJIUzI1NiJ9") == text;
    assert text == [101, 121, 74, 104] + [98, 71, 99, 105] + [79, 105, 74, 73] + [85, 122, 73, 49] + [78, 105, 74, 57];
    HeaderGroups();
    FirstHeaderQuanta();
    LastHeaderQuanta();
  }

  /** `{"alg":"HS256"}` is fifteen bytes, five whole groups, so its encoding has no padding. */
  lemma HeaderGroups()
    ensures Base64.Encode(HeaderJson)
         == Base64.Quad(123, 34, 97) + Base64.Quad(108, 103, 34) + Base64.Quad(58, 34, 72)
          + Base64.Quad(83, 50, 53) + Base64.Quad(54, 34, 125)
  {
    var j: Bytes := [123, 34, 97, 108, 103, 34, 58, 34, 72, 83, 50, 53, 54, 34, 125];
    assert HeaderJson == j;
    LastHeaderGroups();
    assert j[3..] == [108, 103, 34, 58, 34, 72, 83, 50, 53, 54, 34, 125];
    Base64.EncodeGroup(j);
  }

  /** The last four groups of the header JSON, `lg":"HS256"}`. */
  lemma LastHeaderGroups()
    ensures Base64.Encode([108, 103, 34, 58, 34, 72, 83, 50, 53, 54, 34, 125])
         == Base64.Quad(108, 103, 34) + Base64.Quad(58, 34, 72) + Base64.Quad(83, 50, 53) + Base64.Quad(54, 34, 125)
  {
    var j: Bytes := [108, 103, 34, 58, 34, 72, 83, 50, 53, 54, 34, 125];
    Base64.EncodeGroup(j);
    Base64.EncodeGroup(j[3..]);
    Base64.EncodeGroup(j[6..]);
    Base64.EncodeGroup(j[9..]);
    assert |j[12..]| == 0;
  }

  lemma FirstHeaderQuanta()
    ensures Base64.Quad(123, 34, 97) == [101, 121, 74, 104]   // "{\"a" is "eyJh"
    ensures Base64.Quad(108, 103, 34) == [98, 71, 99, 105]    // "lg\"" is "bGci"
    ensures Base64.Quad(58, 34, 72) == [79, 105, 74, 73]      // ":\"H" is "OiJI"
  {
  }

  lemma LastHeaderQuanta()
    ensures Base64.Quad(83, 50, 53) == [85, 122, 73, 49]      // "S25" is "UzI1"
    ensures Base64.Quad(54, 34, 125) == [78, 105, 74, 57]     // "6\"}" is "NiJ9"
  {
  }

  /** `jwsPayload`: the base64 of the payload's JSON text, or json.Marshal's error. */
  function Payload<V>(lib: Library<V>, v: V): (r: Result<Bytes, JwsError>)
    ensures lib.marshal(v).Err? ==> r == Err(Json(lib.marshal(v).error))
    ensures lib.marshal(v).Ok? ==>
              && r.Ok?
              && Count(r.value, Dot) == 0
              && Base64.Decode(r.value) == Base64.Decoding(lib.marshal(v).value, true)
    ensures lib.marshal(v).Ok? ==> r == Ok(Base64.Encode(lib.marshal(v).value))
  {
    match lib.marshal(v)
    case Err(e) => Err(Json(e))
    case Ok(json) =>
      Base64.EncodeHasNo(json, Dot);
      Base64.RoundTrip(json);
      Ok(Base64.Encode(json))
  }

  /** The bytes that are signed: the header and payload segments with one '.' between them. */
  function SigningInput(header: Bytes, payload: Bytes): (r: Bytes)
    ensures |r| == |header| + 1 + |payload|
    ensures Count(r, Dot) == Count(header, Dot) + 1 + Count(payload, Dot)
    ensures Count(header, Dot) == 0 && Count(payload, Dot) == 0 ==> GoStrings.Split(r, Dot) == [header, payload]
  {
    GoStrings.CountAppend(header + [Dot], payload, Dot);
    GoStrings.CountAppend(header, [Dot], Dot);
    if Count(header, Dot) == 0 && Count(payload, Dot) == 0 then
      GoStrings.SplitAfterPlain(header, payload, Dot);
      GoStrings.SplitPlain(payload, Dot);
      header + [Dot] + payload
    else
      header + [Dot] + payload
  }

  /**
   * `sign`: an empty key is refused before any tag is computed; otherwise the base64 of
   * the HMAC-SHA256 tag of the signing input.
   */
  function Sign(hmac: Hmac, key: Bytes, header: Bytes, payload: Bytes): (r: Result<Bytes, JwsError>)
    ensures r.Err? <==> key == []
    ensures r.Err? ==> r.error == EmptyKey
    ensures r.Ok? ==>
              && |r.value| == 44
              && (forall i :: 0 <= i < |r.value| ==> Base64.IsEncodedChar(r.value[i]))
              && Count(r.value, Dot) == 0
              && Base64.Decode(r.value) == Base64.Decoding(hmac(key, SigningInput(header, payload)), true)
    ensures r.Ok? ==> r.value == Base64.Encode(hmac(key, SigningInput(header, payload)))
  {
    if key == [] then Err(EmptyKey)
    else
      var tag := hmac(key, SigningInput(header, payload));
      TagSegment(tag);
      Ok(Base64.Encode(tag))
  }

  /** The base64 of a 32-byte tag: 44 characters, no '.', and it decodes back to the tag. */
  lemma TagSegment(tag: Bytes)
    requires |tag| == 32
    ensures var e := Base64.Encode(tag);
            && |e| == 44
            && (forall i :: 0 <= i < |e| ==> Base64.IsEncodedChar(e[i]))
            && Count(e, Dot) == 0
            && Base64.Decode(e) == Base64.Decoding(tag, true)
  {
    assert (|tag| + 2) / 3 == 11;
    Base64.EncodeHasNo(tag, Dot);
    Base64.RoundTrip(tag);
  }

  /**
   * `Encode`: the payload is serialized first, so a json.Marshal error wins over an empty
   * key; on success the token splits on '.' into exactly header, payload and signature.
   */
  function Encode<V>(lib: Library<V>, key: Bytes, payload: V): (r: Result<Bytes, JwsError>)
    ensures lib.marshal(payload).Err? ==> r == Err(Json(lib.marshal(payload).error))
    ensures lib.marshal(payload).Ok? && key == [] ==> r == Err(EmptyKey)
    ensures lib.marshal(payload).Ok? && key != [] ==>
              var p := Base64.Encode(lib.marshal(payload).value);
              r.Ok? && GoStrings.Split(r.value, Dot) == [Header(), p, Sign(lib.hmac, key, Header(), p).value]
  {
    var header := Header();
    match Payload(lib, payload)
    case Err(e) => Err(e)
    case Ok(p) =>
      match Sign(lib.hmac, key, header, p)
      case Err(e) => Err(e)
      case Ok(signature) =>
        HeaderHasNoDot();
        GoStrings.SplitJoin3(header, p, signature, Dot);
        Ok(GoStrings.Join([header, p, signature], Dot))
  }

  /** What `Decode` leaves in the caller's payload and what it returns. */
  datatype Decoded<V> = Decoded(payload: V, err: Option<JwsError>)

  /** The token has three segments and the third is the signature of the first two under `key`. */
  predicate Authentic(hmac: Hmac, key: Bytes, jws: Bytes)
    ensures Authentic(hmac, key, jws) ==> key != [] && Count(jws, Dot) == 2
    ensures Authentic(hmac, key, jws) ==> |GoStrings.Split(jws, Dot)[2]| == 44
  {
    var parts := GoStrings.Split(jws, Dot);
    |parts| == 3 && Sign(hmac, key, parts[0], parts[1]) == Ok(parts[2])
  }

  /**
   * `Decode`: split into three parts, recompute the signature, compare it as a string,
   * then base64-decode the payload segment (its decode error is discarded) and unmarshal
   * the result into the caller's payload.
   */
  function Decode<V>(lib: Library<V>, key: Bytes, jws: Bytes, payload: V): (r: Decoded<V>)
    ensures r.err == Some(IncompleteSignature) <==> Count(jws, Dot) != 2
    ensures Count(jws, Dot) == 2 && key == [] ==> r == Decoded(payload, Some(EmptyKey))
    ensures r.err == Some(SignatureAuthFailed) <==> Count(jws, Dot) == 2 && key != [] && !Authentic(lib.hmac, key, jws)
    ensures !Authentic(lib.hmac, key, jws) ==> r.payload == payload && r.err.Some? && !r.err.value.Json?
    ensures Authentic(lib.hmac, key, jws) ==>
              var u := lib.unmarshal(Base64.Decode(GoStrings.Split(jws, Dot)[1]).data, payload);
              r == Decoded(u.target, if u.err.Some? then Some(Json(u.err.value)) else None)
  {
    var parts := GoStrings.Split(jws, Dot);
    if |parts| != 3 then Decoded(payload, Some(IncompleteSignature))
    else
      match Sign(lib.hmac, key, parts[0], parts[1])
      case Err(e) => Decoded(payload, Some(e))
      case Ok(signature) =>
        if signature != parts[2] then Decoded(payload, Some(SignatureAuthFailed))
        else
          var data := Base64.Decode(parts[1]).data;
          var u := lib.unmarshal(data, payload);
          Decoded(u.target, if u.err.Some? then Some(Json(u.err.value)) else None)
  }

  /** The caller-owned value that `Decode` fills through its `payload interface{}` pointer. */
  class Target<V> {
    var value: V

    constructor (v: V)
      ensures value == v
    {
      value := v;
    }
  }

  /** `Decode` as written: fills the caller's payload in place and returns the error. */
  method DecodeInto<V>(lib: Library<V>, key: Bytes, jws: Bytes, payload: Target<V>) returns (err: Option<JwsError>)
    modifies payload
    ensures Decoded(payload.value, err) == Decode(lib, key, jws, old(payload.value))
  {
    var parts := GoStrings.Split(jws, Dot);
    if |parts| != 3 {
      return Some(IncompleteSignature);
    }
    var signature := Sign(lib.hmac, key, parts[0], parts[1]);
    if signature.Err? {
      return Some(signature.error);
    }
    if signature.value != parts[2] {
      return Some(SignatureAuthFailed);
    }
    var data := Base64.Decode(parts[1]).data;
    var u := lib.unmarshal(data, payload.value);
    payload.value := u.target;
    err := if u.err.Some? then Some(Json(u.err.value)) else None;
  }

  // ---------------------------------------------------------------- properties

  /** The header segment holds no '.' and decodes back to `{"alg":"HS256"}`. */
  lemma HeaderHasNoDot()
    ensures Count(Header(), Dot) == 0
    ensures Base64.Decode(Header()) == Base64.Decoding(HeaderJson, true)
  {
    Base64.EncodeHasNo(HeaderJson, Dot);
    Base64.RoundTrip(HeaderJson);
  }

  /** With an empty key, `sign` gives the same error whatever the MAC: no tag is computed. */
  lemma SignEmptyKeyComputesNoTag(h1: Hmac, h2: Hmac, header: Bytes, payload: Bytes)
    ensures Sign(h1, [], header, payload) == Sign(h2, [], header, payload) == Err(EmptyKey)
  {
  }

  /**
   * A token made by `Encode` with a non-empty key passes both checks of `Decode`, and
   * the bytes handed to json.Unmarshal are exactly the JSON text `Encode` signed.
   */
  lemma RoundTrip<V>(lib: Library<V>, key: Bytes, v: V, prior: V)
    requires key != [] && lib.marshal(v).Ok?
    ensures Encode(lib, key, v).Ok?
    ensures var jws := Encode(lib, key, v).value;
            var u := lib.unmarshal(lib.marshal(v).value, prior);
            && Authentic(lib.hmac, key, jws)
            && Decode(lib, key, jws, prior) == Decoded(u.target, if u.err.Some? then Some(Json(u.err.value)) else None)
  {
    var json := lib.marshal(v).value;
    var p := Base64.Encode(json);
    Base64.RoundTrip(json);
    var jws := Encode(lib, key, v).value;
    assert GoStrings.Split(jws, Dot)[1] == p;
  }

  /** json.Unmarshal inverts json.Marshal and fully overwrites its target. */
  ghost predicate JsonRoundTrips<V(!new)>(lib: Library<V>)
  {
    forall v, prior :: lib.marshal(v).Ok? ==> lib.unmarshal(lib.marshal(v).value, prior) == Unmarshaled(v, None)
  }

  /** When JSON round-trips, decoding an encoded payload under the same key yields that payload. */
  lemma RoundTripValue<V(!new)>(lib: Library<V>, key: Bytes, v: V, prior: V)
    requires JsonRoundTrips(lib)
    requires key != [] && lib.marshal(v).Ok?
    ensures Encode(lib, key, v).Ok?
    ensures Decode(lib, key, Encode(lib, key, v).value, prior) == Decoded(v, None)
  {
    RoundTrip(lib, key, v, prior);
  }

  /**
   * A token whose three dot-free segments do not carry the signature of the first two
   * (a forged or altered signature, or a header or payload changed after signing) makes
   * `Decode` fail the signature check and leave the payload untouched.
   */
  lemma ForgedSignatureRejected<V>(lib: Library<V>, key: Bytes, header: Bytes, payload: Bytes, forged: Bytes, prior: V)
    requires key != []
    requires Count(header, Dot) == 0 && Count(payload, Dot) == 0 && Count(forged, Dot) == 0
    requires Sign(lib.hmac, key, header, payload) != Ok(forged)
    ensures Decode(lib, key, GoStrings.Join([header, payload, forged], Dot), prior)
         == Decoded(prior, Some(SignatureAuthFailed))
  {
    GoStrings.SplitJoin3(header, payload, forged, Dot);
  }

  /**
   * The error of decoding the payload segment is dropped: for an authentic token whose
   * payload segment is not valid base64, `Decode` reports only what `json.Unmarshal` says
   * about the bytes decoded before the fault, and no error at all when it accepts them.
   */
  lemma PayloadDecodeErrorIgnored<V>(lib: Library<V>, key: Bytes, header: Bytes, segment: Bytes, prior: V)
    requires key != []
    requires Count(header, Dot) == 0 && Count(segment, Dot) == 0
    requires !Base64.Decode(segment).ok
    ensures var jws := GoStrings.Join([header, segment, Sign(lib.hmac, key, header, segment).value], Dot);
            var u := lib.unmarshal(Base64.Decode(segment).data, prior);
            Decode(lib, key, jws, prior).err == (if u.err.Some? then Some(Json(u.err.value)) else None)
  {
    GoStrings.SplitJoin3(header, segment, Sign(lib.hmac, key, header, segment).value, Dot);
  }

  /**
   * A one-character payload segment such as "A" is malformed base64, yet an authentic token
   * carrying it hands `json.Unmarshal` the empty input and reports only its verdict.
   */
  lemma LoneCharacterPayload<V>(lib: Library<V>, key: Bytes, header: Bytes, prior: V)
    requires key != [] && Count(header, Dot) == 0
    ensures var jws := GoStrings.Join([header, [65], Sign(lib.hmac, key, header, [65]).value], Dot);
            var u := lib.unmarshal([], prior);
            Decode(lib, key, jws, prior) == Decoded(u.target, if u.err.Some? then Some(Json(u.err.value)) else None)
  {
    assert Base64.StripNewlines([65]) == [65];
    assert Count([65], Dot) == 0;
    GoStrings.SplitJoin3(header, [65], Sign(lib.hmac, key, header, [65]).value, Dot);
  }

  /**
   * A signature segment that decodes to the right tag but is not its canonical encoding
   * (different unused pad bits) is rejected, because the signature is compared as a string.
   */
  lemma NonCanonicalSignatureRejected<V>(lib: Library<V>, key: Bytes, header: Bytes, payload: Bytes, forged: Bytes, prior: V)
    requires key != []
    requires Count(header, Dot) == 0 && Count(payload, Dot) == 0 && Count(forged, Dot) == 0
    requires Base64.Decode(forged) == Base64.Decoding(lib.hmac(key, SigningInput(header, payload)), true)
    requires forged != Base64.Encode(lib.hmac(key, SigningInput(header, payload)))
    ensures Decode(lib, key, GoStrings.Join([header, payload, forged], Dot), prior)
         == Decoded(prior, Some(SignatureAuthFailed))
  {
    ForgedSignatureRejected(lib, key, header, payload, forged, prior);
  }

  /** "a.b" has two parts: a structural error even with an empty key. */
  lemma TwoPartsIsIncomplete<V>(lib: Library<V>, prior: V)
    ensures Decode(lib, [], Ascii("a.b"), prior) == Decoded(prior, Some(IncompleteSignature))
  {
    var t: Bytes := [97, 46, 98];
    assert Ascii("a.b") == t;
    assert Count(t[2..], Dot) == 0;
    assert Count(t[1..], Dot) == 1;
  }

  /** "a.b.c.d" has four parts: a structural error. */
  lemma FourPartsIsIncomplete<V>(lib: Library<V>, key: Bytes, prior: V)
    ensures Decode(lib, key, Ascii("a.b.c.d"), prior) == Decoded(prior, Some(IncompleteSignature))
  {
    var t: Bytes := [97, 46, 98, 46, 99, 46, 100];
    assert Ascii("a.b.c.d") == t;
    assert Count(t[6..], Dot) == 0;
    assert Count(t[5..], Dot) == 1;
    assert Count(t[4..], Dot) == 1;
    assert Count(t[3..], Dot) == 2;
    assert Count(t[2..], Dot) == 2;
    assert Count(t[1..], Dot) == 3;
  }

  /** "a..b" has an empty middle segment yet passes the structural check. */
  lemma EmptySegmentPassesStructure<V>(lib: Library<V>, prior: V)
    ensures Decode(lib, [], Ascii("a..b"), prior) == Decoded(prior, Some(EmptyKey))
  {
    var t: Bytes := [97, 46, 46, 98];
    assert Ascii("a..b") == t;
    assert Count(t[3..], Dot) == 0;
    assert Count(t[2..], Dot) == 1;
    assert Count(t[1..], Dot) == 2;
  }
}
