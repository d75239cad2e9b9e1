/** What the server's checks of an encrypted request mean (nats-micro/src/encryption): which requests a signature
    admits, why a request is refused, which names encrypted headers can hide, and how keys are derived. */
module RequestChecks {
  import opened Text
  import opened Transcript
  import opened Encryption
  import opened EncryptedCall

  // ----- a signature admits one request only

  /** Two fields agree, an absent one counting as an empty one. */
  predicate SameField(a: Option<Str>, b: Option<Str>) {
    a == b || (a == None && b == Some([])) || (a == Some([]) && b == None)
  }

  lemma NamesAre()
    ensures REQUEST_ID_NAME == Ascii("x-request-id") && CLIENT_VERSION_NAME == Ascii("x-client-version")
    ensures ENCRYPTED_HEADERS_NAME == Ascii("x-encrypted-headers")
  {}

  /** Whatever was done to a request on its way, the server accepts it under the client's signature only if its
      subject, its payload, its ephemeral key, its version, its request id and its encrypted headers are those
      that the client signed, unless the MAC collides on the two transcripts. The request need not be one that
      a client built. */
  lemma AcceptedIsUntampered(c: Crypto, ctx: Context, secret: Str, p: Parts, other: Request, decryptPayload: bool, ephemeralPub: Str)
    requires Codecs(c) && BuiltFrom(c, ctx, p).Ok? && HeaderBlob(c, ctx, p.encrypted, p.headerNonce).Ok?
    requires other.headers.Some? && DecodePubKey(c, other.headers.value) == Ok(Some(ephemeralPub))
    requires Get(other.headers.value, SIGNATURE_NAME) == Get(BuiltFrom(c, ctx, p).value.headers, SIGNATURE_NAME)
    requires
      var client := ClientTranscript(c, ctx, p, BuiltFrom(c, ctx, p).value);
      var server := ReceivedTranscript(other, other.headers.value, ephemeralPub);
      && Short(client) && Short(server)
      && TellsApart(c, ctx.keys.signature, Encode(client), ServerKeys(c, secret, ephemeralPub).signature, Encode(server))
    requires Prepare(c, secret, other, decryptPayload).Ok?
    ensures
      var headers := other.headers.value;
      && other.subject == p.subject && other.payload == BuiltFrom(c, ctx, p).value.payload && ephemeralPub == ctx.ephemeralPub
      && SameField(ExistingId(other.headers), LastValue(p.plaintext, Ascii("x-request-id")))
      && SameField(Get(headers, Ascii("x-client-version")), LastValue(p.plaintext, Ascii("x-client-version")))
      && SameField(Get(headers, Ascii("x-encrypted-headers")), HeaderBlob(c, ctx, p.encrypted, p.headerNonce).value)
  {
    hide BuiltFrom, ServerKeys, Prepare, DecodePubKey, Sign, Encode, Short, Get, LastValue, HeaderBlob, TellsApart;
    hide SIGNATURE_NAME, REQUEST_ID_NAME, CLIENT_VERSION_NAME, ENCRYPTED_HEADERS_NAME, ExistingId;
    NamesAre();
    var built := BuiltFrom(c, ctx, p).value;
    PreparedMeans(c, secret, other, decryptPayload);
    BuiltArrives(c, ctx, p);
    SignatureBinds(c, ctx.keys.signature, ServerKeys(c, secret, ephemeralPub).signature,
                   ClientTranscript(c, ctx, p, built), ReceivedTranscript(other, other.headers.value, ephemeralPub));
  }

  // ----- why a request is refused

  /** The ephemeral key that the headers carry, if they carry a readable one of the right length. */
  ghost predicate CarriesKey(c: Crypto, headers: Headers, ephemeralPub: Str) {
    && Get(headers, RESPONSE_PUB_KEY_NAME).Some? && |ephemeralPub| == 32
    && c.unbase64(Get(headers, RESPONSE_PUB_KEY_NAME).value) == Some(ephemeralPub)
  }

  /** The signature that the headers carry is the one the server computes. */
  ghost predicate SignatureHolds(c: Crypto, secret: Str, request: Request, headers: Headers, ephemeralPub: Str) {
    && Get(headers, SIGNATURE_NAME).Some?
    && c.unbase64(Get(headers, SIGNATURE_NAME).value) ==
       Some(Sign(c, ServerKeys(c, secret, ephemeralPub).signature, ReceivedTranscript(request, headers, ephemeralPub)))
  }

  /** Why a request is refused, in the order of the checks: without headers or without an ephemeral key,
      encryption is required; a key that cannot be read, does not decrypt; with a key but without a signature,
      the signature is missing; with one that is not the computed one, it is invalid; and otherwise something
      does not decrypt. The reply names the request's id exactly if that is valid. */
  lemma RefusedExactly(c: Crypto, secret: Str, request: Request, decryptPayload: bool, ephemeralPub: Str)
    ensures
      var r := Prepare(c, secret, request, decryptPayload);
      && (r.Err? ==> r.error.requestId == ExistingId(request.headers))
      && (request.headers == None ==> r.Err? && r.error.kind == EncryptRequired)
      && (request.headers.Some? ==>
            var headers := request.headers.value;
            && (Get(headers, RESPONSE_PUB_KEY_NAME) == None ==> r.Err? && r.error.kind == EncryptRequired)
            && (Get(headers, RESPONSE_PUB_KEY_NAME).Some? && (forall key :: !CarriesKey(c, headers, key)) ==>
                  r.Err? && r.error.kind == DecryptFailure)
            && (CarriesKey(c, headers, ephemeralPub) ==>
                  if Get(headers, SIGNATURE_NAME) == None then r.Err? && r.error.kind == SignatureMissing
                  else if !SignatureHolds(c, secret, request, headers, ephemeralPub) then r.Err? && r.error.kind == SignatureInvalid
                  else r.Ok? || r.error.kind == DecryptFailure))
  {
    hide Get, Sign, ServerKeys, ReceivedTranscript, DecryptOverlay, DecryptRequest, ExistingId, RESPONSE_PUB_KEY_NAME, SIGNATURE_NAME;
    if request.headers.Some? {
      var headers := request.headers.value;
      DecodesKey(c, headers, ephemeralPub);
      if DecodePubKey(c, headers).Ok? && DecodePubKey(c, headers).value.Some? {
        DecodesKey(c, headers, DecodePubKey(c, headers).value.value);
      }
    }
  }

  lemma DecodesKey(c: Crypto, headers: Headers, ephemeralPub: Str)
    ensures DecodePubKey(c, headers) == Ok(Some(ephemeralPub)) <==> CarriesKey(c, headers, ephemeralPub)
    ensures DecodePubKey(c, headers) == Ok(None) <==> Get(headers, RESPONSE_PUB_KEY_NAME) == None
  {
    hide Get, RESPONSE_PUB_KEY_NAME;
  }

  /** Once its signature holds, a request is accepted exactly if its encrypted headers open to a map without
      reserved names and, where the operation's payloads are encrypted, its payload begins with the same key and
      opens. The handler is then given what they opened to. */
  lemma UnpackedExactly(c: Crypto, keys: Keys, request: Request, headers: Headers, ephemeralPub: Str, decryptPayload: bool)
    ensures
      var r := Unpack(c, keys, request, headers, ephemeralPub, decryptPayload);
      var overlay := DecryptOverlay(c, headers, keys.encryption);
      var body := DecryptRequest(c, keys.encryption, request.payload);
      && (r.Ok? <==> overlay.Ok? && (decryptPayload ==>
            |request.payload| >= 32 && request.payload[..32] == ephemeralPub && body.Ok?))
      && (r.Ok? ==> r.value.original == request && r.value.ephemeralPub == ephemeralPub && r.value.overlay == overlay.value
                    && r.value.plaintext == if decryptPayload then Some(body.value) else None)
      && (r.Err? ==> r.error.kind == DecryptFailure)
  {
    hide DecryptOverlay, DecryptRequest, ExistingId;
  }

  /** Encrypted headers open exactly if there are none, or they are base64 of an envelope that opens to a JSON
      map in which no name is reserved; they then list that map. */
  lemma OverlayOpensExactly(c: Crypto, headers: Headers, key: Str, overlay: Overlay)
    ensures DecryptOverlay(c, headers, key) == Ok(overlay) <==>
            match Get(headers, ENCRYPTED_HEADERS_NAME)
            case None => overlay == []
            case Some(value) =>
              exists data, json, m ::
                && c.unbase64(value) == Some(data) && DecryptRequest(c, key, data) == Ok(json) && c.fromJson(json) == Some(m)
                && overlay == c.listing(m) && NoneReserved(overlay)
  {
    hide Get, DecryptRequest, NoneReserved, ENCRYPTED_HEADERS_NAME;
  }

  /** An envelope of fewer bytes than a key, a nonce and a tag is too short, whatever it contains, and one that
      is long enough is opened with the nonce that follows the key. */
  lemma EnvelopesAreCutRight(c: Crypto, ctx: Context, key: Str, head: Str, nonce: Nonce, sealed: Str, data: Str)
    requires |head| == 32
    ensures |data| < 72 ==> DecryptRequest(c, key, data) == Err(TooShort(72, |data|))
    ensures |data| < 40 ==> DecryptResponse(c, ctx, data) == Err(TooShort(40, |data|))
    ensures |sealed| >= 16 ==>
              && (forall text :: DecryptRequest(c, key, head + nonce + sealed) == Ok(text) <==> c.open(key, nonce, sealed) == Some(text))
              && (forall text :: DecryptResponse(c, ctx, nonce + sealed) == Ok(text) <==>
                                 c.open(ctx.keys.encryption, nonce, sealed) == Some(text))
  {
    var whole := head + nonce + sealed;
    assert whole[EPH_PUB_LEN..EPH_PUB_LEN + NONCE_LEN] == nonce && whole[EPH_PUB_LEN + NONCE_LEN..] == sealed;
    assert (nonce + sealed)[..NONCE_LEN] == nonce && (nonce + sealed)[NONCE_LEN..] == sealed;
  }

  /** What each step that fails says: sealing fails as such; opening fails as such once there is enough to open;
      a key that cannot be read and headers that cannot be opened do not decrypt; and headers that open to a map
      with a reserved name name one of those. */
  lemma FailuresSayWhat(c: Crypto, ctx: Context, key: Str, nonce: Nonce, text: Str, data: Str, headers: Headers)
    ensures c.seal(ctx.keys.encryption, nonce, text) == None <==> Encrypt(c, ctx, nonce, text) == Err(EncryptFailed)
    ensures c.seal(ctx.keys.encryption, nonce, text).Some? ==> Encrypt(c, ctx, nonce, text).Ok?
    ensures c.seal(key, nonce, text) == None <==> EncryptForClient(c, key, nonce, text) == Err(EncryptFailed)
    ensures c.seal(key, nonce, text).Some? ==> EncryptForClient(c, key, nonce, text).Ok?
    ensures |data| >= 72 && DecryptRequest(c, key, data).Err? ==> DecryptRequest(c, key, data).error == DecryptFailed
    ensures |data| >= 40 && DecryptResponse(c, ctx, data).Err? ==> DecryptResponse(c, ctx, data).error == DecryptFailed
    ensures DecodePubKey(c, headers).Err? ==> DecodePubKey(c, headers).error == DecryptFailed
    ensures DecryptOverlay(c, headers, key).Err? ==>
              match DecryptOverlay(c, headers, key).error
              case DecryptFailed => true
              case ReservedHeader(name) => Reserved(name) && exists m, i :: 0 <= i < |c.listing(m)| && c.listing(m)[i].0 == name
              case _ => false
  {
    hide Get, Reserved;
  }

  // ----- names and ids

  /** The same character, or the same letter in the other case. */
  predicate SameLetter(a: char, b: char) {
    || a == b
    || ('A' <= a <= 'Z' && b as int == a as int + 32)
    || ('A' <= b <= 'Z' && a as int == b as int + 32)
  }

  /** Names are equal in any case exactly if they are as long as each other and agree letter by letter. */
  lemma CaseExactly(a: Str, b: Str)
    ensures EqIgnoreCase(a, b) <==> |a| == |b| && forall i | 0 <= i < |a| :: SameLetter(a[i] as char, b[i] as char)
  {
    forall x: Byte, y: Byte
      ensures Lower(x) == Lower(y) <==> SameLetter(x as char, y as char)
    {}
  }

  lemma ReservedExactly(name: Str)
    ensures Reserved(name) <==>
            || EqIgnoreCase(name, Ascii("x-encrypted-headers"))
            || EqIgnoreCase(name, Ascii("x-ephemeral-pub-key"))
            || EqIgnoreCase(name, Ascii("x-signature"))
  {}

  /** No encrypted header can hide one of the protocol's own: in an accepted request the lookup of a protocol
      name, in any case, finds nothing among the encrypted headers. */
  lemma ProtocolNamesCannotBeHidden(c: Crypto, secret: Str, request: Request, decryptPayload: bool, name: Str)
    requires Prepare(c, secret, request, decryptPayload).Ok?
    requires || EqIgnoreCase(name, Ascii("x-encrypted-headers")) || EqIgnoreCase(name, Ascii("x-ephemeral-pub-key"))
             || EqIgnoreCase(name, Ascii("x-signature"))
    ensures OverlayGet(Prepare(c, secret, request, decryptPayload).value.overlay, name) == None
  {
    hide Get, Sign, ServerKeys, ReceivedTranscript, DecryptRequest, ExistingId, DecodePubKey, EqIgnoreCase, OverlayGet;
    ReservedExactly(name);
    var overlay := Prepare(c, secret, request, decryptPayload).value.overlay;
    assert NoneReserved(overlay);
    var i := OverlayGetFinds(overlay, name);
    if OverlayGet(overlay, name).Some? {
      ReservedInAnyCase(overlay[i].0, name);
    }
  }

  lemma ReservedInAnyCase(a: Str, b: Str)
    requires EqIgnoreCase(a, b) && Reserved(b)
    ensures Reserved(a)
  {}

  predicate IdCharacter(c: char) {
    'A' <= c <= 'Z' || 'a' <= c <= 'z' || '0' <= c <= '9' || c in {'-', '_', '.', ':', '/', '@'}
  }

  /** A valid request id has 1 to 128 characters, each a letter, a digit or one of `-_.:/@`. */
  lemma ValidIdsExactly(id: Str)
    ensures ValidRequestId(id) <==> 0 < |id| < 129 && forall i | 0 <= i < |id| :: IdCharacter(id[i] as char)
  {
    forall b: Byte
      ensures RequestIdByte(b) <==> IdCharacter(b as char)
    {}
  }

  // ----- key derivation

  /** `T(1) | ... | T(n)` of section 2.3 of RFC 5869, and the last block alone. */
  function OutputBlocks(c: Crypto, prk: Str, info: Str, n: nat): (Str, Str)
    requires n < 256
  {
    if n == 0 then ([], [])
    else
      var (blocks, last) := OutputBlocks(c, prk, info, n - 1);
      var block := c.hmac(prk, last + info + [n]);
      (blocks + block, block)
  }

  /** HKDF-Expand for as many blocks as the output needs. */
  function Expand(c: Crypto, prk: Str, info: Str, length: nat): Str
    requires length <= 255 * 32 && forall key, text :: |c.hmac(key, text)| == 32
  {
    BlocksAreLong(c, prk, info, (length + 31) / 32);
    OutputBlocks(c, prk, info, (length + 31) / 32).0[..length]
  }

  lemma {:induction false} BlocksAreLong(c: Crypto, prk: Str, info: Str, n: nat)
    requires n < 256 && forall key, text :: |c.hmac(key, text)| == 32
    ensures |OutputBlocks(c, prk, info, n).0| == 32 * n
  {
    if n > 0 {
      BlocksAreLong(c, prk, info, n - 1);
    }
  }

  /** The derived keys are the 32-byte outputs of HKDF (sections 2.2 and 2.3 of RFC 5869) for the shared secret
      followed by the ephemeral key, under the protocol's salt and, for each key, its own info. */
  lemma KeysAreHkdf(c: Crypto, shared: Str, ephemeralPub: Str)
    requires forall key, text :: |c.hmac(key, text)| == 32
    ensures
      var prk := c.hmac(Ascii("nats-micro encryption v1"), shared + ephemeralPub);
      && DeriveKeys(c, shared, ephemeralPub).encryption == Expand(c, prk, Ascii("nats-micro aead key v1"), 32)
      && DeriveKeys(c, shared, ephemeralPub).signature == Expand(c, prk, Ascii("nats-micro signature key v1"), 32)
  {
    var prk := c.hmac(Ascii("nats-micro encryption v1"), shared + ephemeralPub);
    OneBlock(c, prk, Ascii("nats-micro aead key v1"));
    OneBlock(c, prk, Ascii("nats-micro signature key v1"));
  }

  lemma OneBlock(c: Crypto, prk: Str, info: Str)
    requires forall key, text :: |c.hmac(key, text)| == 32
    ensures Expand(c, prk, info, 32) == ExpandOne(c, prk, info)
  {
    assert OutputBlocks(c, prk, info, 0) == ([], []);
    assert [] + info + [1] == info + [1];
    var block := c.hmac(prk, info + [1]);
    assert OutputBlocks(c, prk, info, 1) == ([] + block, block);
    assert [] + block == block && block[..32] == block;
  }

  // ----- errors on their way back

  /** Every header of an error reply: the message, the code, the kind and the format, and the request's id if it
      has one; and nothing else. */
  lemma ErrorReplyCarries(error: ServiceError, name: Str)
    ensures Failure(error).payload == error.payload && Failure(error).headers.Some?
    ensures
      var headers := Failure(error).headers.value;
      && Get(headers, Ascii("Nats-Service-Error")) == Some(error.message)
      && Get(headers, Ascii("Nats-Service-Error-Code")) == Some(error.code)
      && Get(headers, Ascii("Nats-Micro-Error-Kind")) == Some(error.kind)
      && Get(headers, Ascii("Nats-Micro-Error-Format")) == Some(Ascii("json-v1"))
      && Get(headers, Ascii("x-request-id")) == error.requestId
  {
    assert |Ascii("Nats-Service-Error")| == 18 && |Ascii("Nats-Service-Error-Code")| == 23;
    assert |Ascii("Nats-Micro-Error-Kind")| == 21 && |Ascii("Nats-Micro-Error-Format")| == 23 && |Ascii("x-request-id")| == 12;
    assert Ascii("Nats-Service-Error-Code")[5] == 0x53 && Ascii("Nats-Micro-Error-Format")[5] == 0x4D;
  }

  /** A refused request comes back as the error that says why, in the clear. */
  lemma RefusalIsReported(c: Crypto, secret: Str, decryptPayload: bool, encryptResponse: bool,
                          handler: Prepared -> Result<Response, ServiceError>, describe: ErrorReply -> ServiceError,
                          nonce: Nonce, request: Request)
    requires Prepare(c, secret, request, decryptPayload).Err?
    ensures
      var reply := Serve(c, secret, decryptPayload, encryptResponse, handler, describe, nonce, request);
      var error := describe(Prepare(c, secret, request, decryptPayload).error);
      && reply.payload == error.payload && reply.headers.Some?
      && Get(reply.headers.value, Ascii("Nats-Micro-Error-Kind")) == Some(error.kind)
      && ReportsServiceError(reply)
  {
    hide Prepare, Get, ServiceErrorHeaders;
    ErrorReplyCarries(describe(Prepare(c, secret, request, decryptPayload).error), []);
    FailureIsReported(describe(Prepare(c, secret, request, decryptPayload).error));
  }

  /** What the caller is told when a call that is ready fails: that it could not be built, that the transport
      failed, or that the reply could not be decrypted, in this order; and nothing else fails. */
  lemma FailedCallsSayWhy(c: Crypto, call: Call, plaintext: seq<(Str, Str)>, random: Randomness,
                          transport: Request -> Result<Reply, Str>, message: Str)
    requires Ready(call)
    ensures
      var ctx, parts := ContextOf(c, call, random), PartsOf(call, plaintext, random);
      var built, sent := BuiltFrom(c, ctx, parts), Sent(c, call, plaintext, random, transport);
      && (built.Err? <==> sent.Err? && sent.error.Serialize?)
      && (built.Err? ==> sent == Err(Serialize(built.error)))
      && (sent == Err(ClientError.Transport(message)) <==> built.Ok? && transport(Received(parts, built.value)) == Err(message))
      && (sent.Err? && sent.error.Decrypt? ==>
            && built.Ok? && call.decryptResponse && transport(Received(parts, built.value)).Ok?
            && Err(sent.error.error) == DecryptResponse(c, ctx, transport(Received(parts, built.value)).value.payload))
      && (sent.Err? ==> sent.error.Serialize? || sent.error.Transport? || sent.error.Decrypt?)
  {
    hide BuiltFrom, DecryptResponse, ReportsServiceError;
  }
}
