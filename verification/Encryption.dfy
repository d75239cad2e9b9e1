/** Encrypted requests (nats-micro/src/encryption): building and signing one on the client, accepting it on
    the server, and encrypting the response. Primitives are parameters with the laws of `Lawful`. */
module Encryption {
  import opened Text
  import opened Transcript

  type Headers = map<Str, seq<Str>>

  const EPH_PUB_LEN: nat := 32
  const NONCE_LEN: nat := 24
  const TAG_LEN: nat := 16

  const RESPONSE_PUB_KEY_NAME := Ascii("x-ephemeral-pub-key")
  const ENCRYPTED_HEADERS_NAME := Ascii("x-encrypted-headers")
  const SIGNATURE_NAME := Ascii("x-signature")
  const REQUEST_ID_NAME := Ascii("x-request-id")
  const CLIENT_VERSION_NAME := Ascii("x-client-version")

  const KEY_DERIVATION_SALT := Ascii("nats-micro encryption v1")
  const ENCRYPTION_KEY_INFO := Ascii("nats-micro aead key v1")
  const SIGNATURE_KEY_INFO := Ascii("nats-micro signature key v1")

  type Nonce = n: Str | |n| == 24 witness seq(24, _ => 0)

  /** The primitives: X25519, HMAC-SHA256, XChaCha20-Poly1305, base64, JSON for string maps, the order in
      which a hash map lists its entries, and the header names and values async-nats accepts. */
  datatype Crypto = Crypto(
    publicOf: Str -> Str,
    dh: (Str, Str) -> Str,
    hmac: (Str, Str) -> Str,
    seal: (Str, Str, Str) -> Option<Str>,
    open: (Str, Str, Str) -> Option<Str>,
    base64: Str -> Str,
    unbase64: Str -> Option<Str>,
    toJson: map<Str, Str> -> Str,
    fromJson: Str -> Option<map<Str, Str>>,
    listing: map<Str, Str> -> seq<(Str, Str)>,
    validName: Str -> bool,
    validValue: Str -> bool)

  ghost predicate Agreement(c: Crypto) {
    && (forall a, b :: c.dh(a, c.publicOf(b)) == c.dh(b, c.publicOf(a)))
    && (forall secret :: |c.publicOf(secret)| == EPH_PUB_LEN)
  }

  ghost predicate Sealing(c: Crypto) {
    forall key, nonce, plaintext | c.seal(key, nonce, plaintext).Some? ::
      && |c.seal(key, nonce, plaintext).value| == |plaintext| + TAG_LEN
      && c.open(key, nonce, c.seal(key, nonce, plaintext).value) == Some(plaintext)
  }

  ghost predicate Codecs(c: Crypto) {
    && (forall bytes :: c.unbase64(c.base64(bytes)) == Some(bytes))
    && c.base64([]) == []
    && (forall m :: c.fromJson(c.toJson(m)) == Some(m))
    && (forall m :: Lists(c.listing(m), m))
  }

  /** The sequence lists the entries of the map, each once. */
  ghost predicate Lists(entries: seq<(Str, Str)>, m: map<Str, Str>) {
    && (forall i | 0 <= i < |entries| :: entries[i].0 in m && m[entries[i].0] == entries[i].1)
    && (forall key | key in m :: exists i | 0 <= i < |entries| :: entries[i].0 == key)
    && (forall i, j | 0 <= i < j < |entries| :: entries[i].0 != entries[j].0)
  }

  ghost predicate Lawful(c: Crypto) {
    Agreement(c) && Sealing(c) && Codecs(c)
  }

  /** The MAC does not collide on these two texts: with equal tags, the texts are equal. */
  ghost predicate TellsApart(c: Crypto, key0: Str, text0: Str, key1: Str, text1: Str) {
    c.hmac(key0, text0) == c.hmac(key1, text1) ==> text0 == text1
  }

  // ----- header names

  function Lower(b: Byte): Byte {
    if 0x41 <= b <= 0x5A then b + 0x20 else b
  }

  predicate EqIgnoreCase(a: Str, b: Str) {
    |a| == |b| && forall i | 0 <= i < |a| :: Lower(a[i]) == Lower(b[i])
  }

  /** `is_reserved_encryption_header_name`. */
  predicate Reserved(name: Str) {
    || EqIgnoreCase(name, ENCRYPTED_HEADERS_NAME)
    || EqIgnoreCase(name, RESPONSE_PUB_KEY_NAME)
    || EqIgnoreCase(name, SIGNATURE_NAME)
  }

  lemma NamesDiffer()
    ensures RESPONSE_PUB_KEY_NAME != ENCRYPTED_HEADERS_NAME
    ensures |RESPONSE_PUB_KEY_NAME| == 19 && |ENCRYPTED_HEADERS_NAME| == 19 && |SIGNATURE_NAME| == 11
    ensures |REQUEST_ID_NAME| == 12 && |CLIENT_VERSION_NAME| == 16
  {
    assert RESPONSE_PUB_KEY_NAME[3] == 0x70 && ENCRYPTED_HEADERS_NAME[3] == 0x6E;
  }

  // ----- header maps

  /** `HeaderMap::get`: the first value of exactly this name. */
  function Get(headers: Headers, name: Str): Option<Str> {
    if name in headers && headers[name] != [] then Some(headers[name][0]) else None
  }

  /** `HeaderMap::insert`: replaces all values of the name. */
  function Insert(headers: Headers, name: Str, value: Str): Headers {
    headers[name := [value]]
  }

  function InsertAll(headers: Headers, pairs: seq<(Str, Str)>): Headers {
    if pairs == [] then headers
    else
      var n := |pairs| - 1;
      Insert(InsertAll(headers, pairs[..n]), pairs[n].0, pairs[n].1)
  }

  /** The last value given to exactly this name. */
  function LastValue(pairs: seq<(Str, Str)>, name: Str): Option<Str> {
    if pairs == [] then None
    else if pairs[|pairs| - 1].0 == name then Some(pairs[|pairs| - 1].1)
    else LastValue(pairs[..|pairs| - 1], name)
  }

  lemma {:induction false} InsertAllGet(headers: Headers, pairs: seq<(Str, Str)>, name: Str)
    ensures Get(InsertAll(headers, pairs), name) ==
            if LastValue(pairs, name).Some? then LastValue(pairs, name) else Get(headers, name)
  {
    if pairs != [] {
      InsertAllGet(headers, pairs[..|pairs| - 1], name);
    }
  }

  /** Collecting pairs into a hash map: the last value of a name stays. */
  function Collected(pairs: seq<(Str, Str)>): map<Str, Str> {
    if pairs == [] then map[]
    else Collected(pairs[..|pairs| - 1])[pairs[|pairs| - 1].0 := pairs[|pairs| - 1].1]
  }

  lemma {:induction false} CollectedGet(pairs: seq<(Str, Str)>, name: Str)
    ensures name in Collected(pairs) <==> LastValue(pairs, name).Some?
    ensures name in Collected(pairs) ==> Collected(pairs)[name] == LastValue(pairs, name).value
    ensures name in Collected(pairs) ==> exists i | 0 <= i < |pairs| :: pairs[i].0 == name
  {
    if pairs != [] {
      CollectedGet(pairs[..|pairs| - 1], name);
    }
  }

  // ----- keys and envelopes

  datatype Keys = Keys(encryption: Str, signature: Str)

  /** `hkdf_expand_one`: one output block. */
  function ExpandOne(c: Crypto, prk: Str, info: Str): Str {
    c.hmac(prk, info + [1])
  }

  function DeriveKeys(c: Crypto, shared: Str, ephemeralPub: Str): Keys {
    var prk := c.hmac(KEY_DERIVATION_SALT, shared + ephemeralPub);
    Keys(ExpandOne(c, prk, ENCRYPTION_KEY_INFO), ExpandOne(c, prk, SIGNATURE_KEY_INFO))
  }

  /** `EphemeralContext`. */
  datatype Context = Context(ephemeralPub: Str, keys: Keys)

  /** `ServiceRecipient::begin`, with the ephemeral secret given. */
  function Begin(c: Crypto, recipient: Str, ephemeralSecret: Str): Context {
    var ephemeralPub := c.publicOf(ephemeralSecret);
    Context(ephemeralPub, DeriveKeys(c, c.dh(ephemeralSecret, recipient), ephemeralPub))
  }

  /** `ServiceKeyPair::derive_keys`. */
  function ServerKeys(c: Crypto, secret: Str, ephemeralPub: Str): Keys {
    DeriveKeys(c, c.dh(secret, ephemeralPub), ephemeralPub)
  }

  datatype EncryptionError =
    | DecryptFailed
    | TooShort(expected: nat, actual: nat)
    | EncryptFailed
    | InvalidHeader(name: Str)
    | ReservedHeader(name: Str)

  /** `EphemeralContext::encrypt`: the ephemeral key, the nonce and the ciphertext. */
  function Encrypt(c: Crypto, ctx: Context, nonce: Nonce, plaintext: Str): Result<Str, EncryptionError> {
    match c.seal(ctx.keys.encryption, nonce, plaintext)
    case None => Err(EncryptFailed)
    case Some(ciphertext) => Ok(ctx.ephemeralPub + nonce + ciphertext)
  }

  /** `decrypt_with_encryption_key`. */
  function DecryptRequest(c: Crypto, key: Str, data: Str): Result<Str, EncryptionError> {
    if |data| < EPH_PUB_LEN + NONCE_LEN + TAG_LEN then Err(TooShort(EPH_PUB_LEN + NONCE_LEN + TAG_LEN, |data|))
    else
      match c.open(key, data[EPH_PUB_LEN..EPH_PUB_LEN + NONCE_LEN], data[EPH_PUB_LEN + NONCE_LEN..])
      case None => Err(DecryptFailed)
      case Some(plaintext) => Ok(plaintext)
  }

  /** `ServiceKeyPair::encrypt_response`: the nonce and the ciphertext. */
  function EncryptForClient(c: Crypto, key: Str, nonce: Nonce, plaintext: Str): Result<Str, EncryptionError> {
    match c.seal(key, nonce, plaintext)
    case None => Err(EncryptFailed)
    case Some(ciphertext) => Ok(nonce + ciphertext)
  }

  /** `EphemeralContext::decrypt_response`. */
  function DecryptResponse(c: Crypto, ctx: Context, data: Str): Result<Str, EncryptionError> {
    if |data| < NONCE_LEN + TAG_LEN then Err(TooShort(NONCE_LEN + TAG_LEN, |data|))
    else
      match c.open(ctx.keys.encryption, data[..NONCE_LEN], data[NONCE_LEN..])
      case None => Err(DecryptFailed)
      case Some(plaintext) => Ok(plaintext)
  }

  /** Client and server derive the same keys from each other's public keys. */
  lemma KeysAgree(c: Crypto, secret: Str, ephemeralSecret: Str)
    requires Agreement(c)
    ensures Begin(c, c.publicOf(secret), ephemeralSecret).keys == ServerKeys(c, secret, c.publicOf(ephemeralSecret))
    ensures |Begin(c, c.publicOf(secret), ephemeralSecret).ephemeralPub| == EPH_PUB_LEN
  {
    assert c.dh(ephemeralSecret, c.publicOf(secret)) == c.dh(secret, c.publicOf(ephemeralSecret));
  }

  /** A request envelope opens to what was put in, and starts with the ephemeral key. */
  lemma RequestEnvelopeOpens(c: Crypto, ctx: Context, nonce: Nonce, plaintext: Str)
    requires Sealing(c) && |ctx.ephemeralPub| == EPH_PUB_LEN && Encrypt(c, ctx, nonce, plaintext).Ok?
    ensures
      var data := Encrypt(c, ctx, nonce, plaintext).value;
      && |data| >= EPH_PUB_LEN && data[..EPH_PUB_LEN] == ctx.ephemeralPub
      && DecryptRequest(c, ctx.keys.encryption, data) == Ok(plaintext)
  {
    var data := Encrypt(c, ctx, nonce, plaintext).value;
    var ciphertext := c.seal(ctx.keys.encryption, nonce, plaintext).value;
    assert data[EPH_PUB_LEN..EPH_PUB_LEN + NONCE_LEN] == nonce;
    assert data[EPH_PUB_LEN + NONCE_LEN..] == ciphertext;
  }

  /** A response envelope opens to what was put in. */
  lemma ResponseEnvelopeOpens(c: Crypto, ctx: Context, nonce: Nonce, plaintext: Str)
    requires Sealing(c) && EncryptForClient(c, ctx.keys.encryption, nonce, plaintext).Ok?
    ensures DecryptResponse(c, ctx, EncryptForClient(c, ctx.keys.encryption, nonce, plaintext).value) == Ok(plaintext)
  {
    var data := EncryptForClient(c, ctx.keys.encryption, nonce, plaintext).value;
    var ciphertext := c.seal(ctx.keys.encryption, nonce, plaintext).value;
    assert data[..NONCE_LEN] == nonce && data[NONCE_LEN..] == ciphertext;
  }

  // ----- building a request

  /** `BuiltRequest`, and a request as it arrives at the server. */
  datatype Built = Built(headers: Headers, payload: Str)

  /** The encrypted headers as they go into their header, if there are any. */
  function HeaderBlob(c: Crypto, ctx: Context, encrypted: seq<(Str, Str)>, nonce: Nonce): Result<Option<Str>, EncryptionError> {
    if encrypted == [] then Ok(None)
    else
      match Encrypt(c, ctx, nonce, c.toJson(Collected(encrypted)))
      case Err(error) => Err(error)
      case Ok(data) => Ok(Some(c.base64(data)))
  }

  function FinalPayload(c: Crypto, ctx: Context, payload: Option<Str>, encryptPayload: bool, nonce: Nonce): Result<Str, EncryptionError> {
    if payload.None? then Ok([])
    else if encryptPayload then Encrypt(c, ctx, nonce, payload.value)
    else Ok(payload.value)
  }

  /** The headers before signing. */
  function Unsigned(c: Crypto, ctx: Context, plaintext: seq<(Str, Str)>, blob: Option<Str>): Headers {
    var headers := InsertAll(map[RESPONSE_PUB_KEY_NAME := [c.base64(ctx.ephemeralPub)]], plaintext);
    if blob.Some? then Insert(headers, ENCRYPTED_HEADERS_NAME, blob.value) else headers
  }

  /** What the client signs. */
  function SignedTranscript(ctx: Context, headers: Headers, blob: Option<Str>, subject: Str, payload: Str): SignatureTranscript {
    SignatureTranscript(subject, ctx.ephemeralPub, Get(headers, REQUEST_ID_NAME), Get(headers, CLIENT_VERSION_NAME), blob, payload)
  }

  function Sign(c: Crypto, key: Str, t: SignatureTranscript): Str {
    c.hmac(key, Encode(t))
  }

  function BuildForSubject(c: Crypto, ctx: Context, plaintext: seq<(Str, Str)>, encrypted: seq<(Str, Str)>,
                           payload: Option<Str>, encryptPayload: bool, subject: Str,
                           headerNonce: Nonce, payloadNonce: Nonce): Result<Built, EncryptionError> {
    var blob := HeaderBlob(c, ctx, encrypted, headerNonce);
    if blob.Err? then Err(blob.error)
    else
      var final := FinalPayload(c, ctx, payload, encryptPayload, payloadNonce);
      if final.Err? then Err(final.error)
      else
        var headers := Unsigned(c, ctx, plaintext, blob.value);
        var t := SignedTranscript(ctx, headers, blob.value, subject, final.value);
        Ok(Built(Insert(headers, SIGNATURE_NAME, c.base64(Sign(c, ctx.keys.signature, t))), final.value))
  }

  /** No encrypted header has a reserved name. */
  predicate NoneReserved(pairs: seq<(Str, Str)>) {
    forall i | 0 <= i < |pairs| :: !Reserved(pairs[i].0)
  }

  class RequestBuilder {
    const c: Crypto
    const ctx: Context
    var plaintextHeaders: seq<(Str, Str)>
    var encryptedHeaders: seq<(Str, Str)>
    var payload: Option<Str>
    var encryptPayload: bool

    predicate Valid()
      reads this
    {
      NoneReserved(encryptedHeaders)
    }

    constructor (c: Crypto, recipient: Str, ephemeralSecret: Str)
      ensures Valid() && this.c == c && ctx == Begin(c, recipient, ephemeralSecret)
      ensures plaintextHeaders == [] && encryptedHeaders == [] && payload == None && !encryptPayload
    {
      this.c, ctx := c, Begin(c, recipient, ephemeralSecret);
      plaintextHeaders, encryptedHeaders, payload, encryptPayload := [], [], None, false;
    }

    /** `try_header`. */
    method TryHeader(name: Str, value: Str) returns (r: Result<(), EncryptionError>)
      requires Valid()
      modifies this`plaintextHeaders
      ensures Valid()
      ensures r == if c.validName(name) && c.validValue(value) then Ok(()) else Err(InvalidHeader(name))
      ensures plaintextHeaders == if r.Ok? then old(plaintextHeaders) + [(name, value)] else old(plaintextHeaders)
    {
      if !c.validName(name) || !c.validValue(value) {
        return Err(InvalidHeader(name));
      }
      plaintextHeaders := plaintextHeaders + [(name, value)];
      return Ok(());
    }

    /** `try_encrypted_header`. */
    method TryEncryptedHeader(name: Str, value: Str) returns (r: Result<(), EncryptionError>)
      requires Valid()
      modifies this`encryptedHeaders
      ensures Valid()
      ensures r == if !c.validName(name) || !c.validValue(value) then Err(InvalidHeader(name))
                   else if Reserved(name) then Err(ReservedHeader(name)) else Ok(())
      ensures encryptedHeaders == if r.Ok? then old(encryptedHeaders) + [(name, value)] else old(encryptedHeaders)
    {
      if !c.validName(name) || !c.validValue(value) {
        return Err(InvalidHeader(name));
      }
      if Reserved(name) {
        return Err(ReservedHeader(name));
      }
      encryptedHeaders := encryptedHeaders + [(name, value)];
      return Ok(());
    }

    method Payload(data: Str)
      requires Valid()
      modifies this`payload, this`encryptPayload
      ensures Valid() && payload == Some(data) && !encryptPayload
    {
      payload, encryptPayload := Some(data), false;
    }

    method EncryptedPayload(data: Str)
      requires Valid()
      modifies this`payload, this`encryptPayload
      ensures Valid() && payload == Some(data) && encryptPayload
    {
      payload, encryptPayload := Some(data), true;
    }

    /** `build_for_subject`; the nonces are given. */
    method Build(subject: Str, headerNonce: Nonce, payloadNonce: Nonce) returns (r: Result<Built, EncryptionError>)
      ensures r == BuildForSubject(c, ctx, plaintextHeaders, encryptedHeaders, payload, encryptPayload, subject,
                                   headerNonce, payloadNonce)
    {
      hide Encrypt, Encode;
      var headers: Headers := map[RESPONSE_PUB_KEY_NAME := [c.base64(ctx.ephemeralPub)]];
      ghost var base := headers;
      for i := 0 to |plaintextHeaders|
        invariant headers == InsertAll(base, plaintextHeaders[..i])
      {
        assert plaintextHeaders[..i + 1][..i] == plaintextHeaders[..i];
        headers := Insert(headers, plaintextHeaders[i].0, plaintextHeaders[i].1);
      }
      assert plaintextHeaders[..|plaintextHeaders|] == plaintextHeaders;
      var encryptedHeadersValue: Option<Str> := None;
      if encryptedHeaders != [] {
        var m: map<Str, Str> := map[];
        for i := 0 to |encryptedHeaders|
          invariant m == Collected(encryptedHeaders[..i])
        {
          assert encryptedHeaders[..i + 1][..i] == encryptedHeaders[..i];
          m := m[encryptedHeaders[i].0 := encryptedHeaders[i].1];
        }
        assert encryptedHeaders[..|encryptedHeaders|] == encryptedHeaders;
        var encrypted := Encrypt(c, ctx, headerNonce, c.toJson(m));
        if encrypted.Err? {
          return Err(encrypted.error);
        }
        var encoded := c.base64(encrypted.value);
        headers := Insert(headers, ENCRYPTED_HEADERS_NAME, encoded);
        encryptedHeadersValue := Some(encoded);
      }
      var finalPayload := [];
      if payload.Some? {
        if encryptPayload {
          var encrypted := Encrypt(c, ctx, payloadNonce, payload.value);
          if encrypted.Err? {
            return Err(encrypted.error);
          }
          finalPayload := encrypted.value;
        } else {
          finalPayload := payload.value;
        }
      }
      var t := SignatureTranscript(subject, ctx.ephemeralPub, Get(headers, REQUEST_ID_NAME), Get(headers, CLIENT_VERSION_NAME),
                          encryptedHeadersValue, finalPayload);
      var mac := new Mac(ctx.keys.signature);
      UpdateSignatureMac(mac, t);
      var signature := c.hmac(mac.key, mac.fed);
      assert mac.fed == Encode(t);
      headers := Insert(headers, SIGNATURE_NAME, c.base64(signature));
      return Ok(Built(headers, finalPayload));
    }
  }

  // ----- accepting a request

  datatype Request = Request(subject: Str, payload: Str, headers: Option<Headers>)

  datatype ReplyKind = EncryptRequired | DecryptFailure | SignatureMissing | SignatureInvalid | EncryptFailure

  datatype ErrorReply = ErrorReply(kind: ReplyKind, requestId: Option<Str>)

  predicate RequestIdByte(b: Byte) {
    || 0x30 <= b <= 0x39 || 0x41 <= b <= 0x5A || 0x61 <= b <= 0x7A
    || b == 0x2D || b == 0x5F || b == 0x2E || b == 0x3A || b == 0x2F || b == 0x40
  }

  /** `is_valid_request_id`. */
  predicate ValidRequestId(value: Str) {
    1 <= |value| <= 128 && forall i | 0 <= i < |value| :: RequestIdByte(value[i])
  }

  /** `RequestId::existing`, on a request without an overlay. */
  function ExistingId(headers: Option<Headers>): Option<Str> {
    if headers.None? then None
    else
      var id := Get(headers.value, REQUEST_ID_NAME);
      if id.Some? && ValidRequestId(id.value) then id else None
  }

  type Overlay = seq<(Str, Str)>

  /** `decode_response_pub_key`. */
  function DecodePubKey(c: Crypto, headers: Headers): Result<Option<Str>, EncryptionError> {
    match Get(headers, RESPONSE_PUB_KEY_NAME)
    case None => Ok(None)
    case Some(value) =>
      match c.unbase64(value)
      case None => Err(DecryptFailed)
      case Some(key) => if |key| == EPH_PUB_LEN then Ok(Some(key)) else Err(DecryptFailed)
  }

  /** `decrypt_header_overlay`. */
  function DecryptOverlay(c: Crypto, headers: Headers, key: Str): Result<Overlay, EncryptionError> {
    match Get(headers, ENCRYPTED_HEADERS_NAME)
    case None => Ok([])
    case Some(value) =>
      match c.unbase64(value)
      case None => Err(DecryptFailed)
      case Some(data) =>
        match DecryptRequest(c, key, data)
        case Err(_) => Err(DecryptFailed)
        case Ok(json) =>
          match c.fromJson(json)
          case None => Err(DecryptFailed)
          case Some(m) =>
            var entries := c.listing(m);
            if NoneReserved(entries) then Ok(entries) else Err(ReservedHeader(entries[FirstReserved(entries)].0))
  }

  function FirstReserved(entries: seq<(Str, Str)>): (i: nat)
    requires !NoneReserved(entries)
    ensures i < |entries| && Reserved(entries[i].0)
  {
    if Reserved(entries[0].0) then 0
    else
      assert !NoneReserved(entries[1..]) by {
        var i :| 0 <= i < |entries| && Reserved(entries[i].0);
        assert entries[1..][i - 1] == entries[i];
      }
      1 + FirstReserved(entries[1..])
  }

  /** `EncryptedRequest`. */
  datatype Prepared = Prepared(original: Request, ephemeralPub: Str, plaintext: Option<Str>, overlay: Overlay)

  /** `EncryptedRequest::prepare`. */
  function Prepare(c: Crypto, secret: Str, request: Request, decryptPayload: bool): Result<Prepared, ErrorReply> {
    var id := ExistingId(request.headers);
    if request.headers.None? then Err(ErrorReply(EncryptRequired, id))
    else
      var headers := request.headers.value;
      match DecodePubKey(c, headers)
      case Err(_) => Err(ErrorReply(DecryptFailure, id))
      case Ok(None) => Err(ErrorReply(EncryptRequired, id))
      case Ok(Some(ephemeralPub)) =>
        match Get(headers, SIGNATURE_NAME)
        case None => Err(ErrorReply(SignatureMissing, id))
        case Some(encoded) =>
          match c.unbase64(encoded)
          case None => Err(ErrorReply(SignatureInvalid, id))
          case Some(signature) =>
            var keys := ServerKeys(c, secret, ephemeralPub);
            if Sign(c, keys.signature, ReceivedTranscript(request, headers, ephemeralPub)) != signature then
              Err(ErrorReply(SignatureInvalid, id))
            else Unpack(c, keys, request, headers, ephemeralPub, decryptPayload)
  }

  /** What the server checks the signature against. */
  function ReceivedTranscript(request: Request, headers: Headers, ephemeralPub: Str): SignatureTranscript {
    SignatureTranscript(request.subject, ephemeralPub, ExistingId(Some(headers)), Get(headers, CLIENT_VERSION_NAME),
               Get(headers, ENCRYPTED_HEADERS_NAME), request.payload)
  }

  /** The rest of `prepare`, once the signature holds. */
  function Unpack(c: Crypto, keys: Keys, request: Request, headers: Headers, ephemeralPub: Str, decryptPayload: bool): Result<Prepared, ErrorReply> {
    var id := ExistingId(Some(headers));
    var overlay := DecryptOverlay(c, headers, keys.encryption);
    if overlay.Err? then Err(ErrorReply(DecryptFailure, id))
    else if !decryptPayload then Ok(Prepared(request, ephemeralPub, None, overlay.value))
    else if |request.payload| < EPH_PUB_LEN || request.payload[..EPH_PUB_LEN] != ephemeralPub then
      Err(ErrorReply(DecryptFailure, id))
    else
      match DecryptRequest(c, keys.encryption, request.payload)
      case Err(_) => Err(ErrorReply(DecryptFailure, id))
      case Ok(body) => Ok(Prepared(request, ephemeralPub, Some(body), overlay.value))
  }

  // ----- what the handler sees

  /** `EncryptedHeaderOverlay::get`: the last entry with the name, in any case. */
  function OverlayGet(overlay: Overlay, name: Str): Option<Str> {
    if overlay == [] then None
    else if EqIgnoreCase(overlay[|overlay| - 1].0, name) then Some(overlay[|overlay| - 1].1)
    else OverlayGet(overlay[..|overlay| - 1], name)
  }

  /** The body of the request that the handler gets. */
  function Body(p: Prepared): Str {
    if p.plaintext.Some? then p.plaintext.value else p.original.payload
  }

  /** A header as the handler sees it: the overlay first, then the plaintext headers. */
  function Header(p: Prepared, name: Str): Option<Str> {
    var hidden := OverlayGet(p.overlay, name);
    if hidden.Some? then hidden
    else if p.original.headers.None? then None
    else Get(p.original.headers.value, name)
  }

  datatype Response = Empty | Payload(payload: Str) | WithHeaders(payload: Str, headers: Headers)

  /** `EncryptedRequest::encrypt_response`. */
  function EncryptResponse(c: Crypto, secret: Str, p: Prepared, response: Response, nonce: Nonce): Result<Response, ErrorReply> {
    var plain := if response.Empty? then [] else response.payload;
    match EncryptForClient(c, ServerKeys(c, secret, p.ephemeralPub).encryption, nonce, plain)
    case Err(_) => Err(ErrorReply(EncryptFailure, ExistingId(p.original.headers)))
    case Ok(data) => Ok(if response.WithHeaders? then WithHeaders(data, response.headers) else Payload(data))
  }
}
