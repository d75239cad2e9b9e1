/** A whole encrypted call: what the client sends (nats-micro/src/client/v2.rs), what the server makes of it,
    and what the client makes of the reply. */
module EncryptedCall {
  import opened Text
  import opened Transcript
  import opened Encryption

  // ----- exactly which requests the server accepts

  /** The plaintext headers do not get in the way of the protocol: the ephemeral key is not replaced by
      another one, the encrypted headers are not invented, and the request id is absent, empty or valid.
      A plaintext signature is harmless, because the real one replaces it. */
  ghost predicate Admissible(c: Crypto, ctx: Context, plaintext: seq<(Str, Str)>, encrypted: seq<(Str, Str)>) {
    && (LastValue(plaintext, RESPONSE_PUB_KEY_NAME).Some? ==>
          c.unbase64(LastValue(plaintext, RESPONSE_PUB_KEY_NAME).value) == Some(ctx.ephemeralPub))
    && (encrypted == [] ==> LastValue(plaintext, ENCRYPTED_HEADERS_NAME) == None)
    && var id := LastValue(plaintext, REQUEST_ID_NAME);
       id.Some? && id.value != [] ==> ValidRequestId(id.value)
  }

  /** What the server finds in the headers of a built request. */
  ghost predicate Arrives(c: Crypto, ctx: Context, plaintext: seq<(Str, Str)>, blob: Option<Str>, headers: Headers, signature: Str) {
    && Get(headers, RESPONSE_PUB_KEY_NAME) ==
       (if LastValue(plaintext, RESPONSE_PUB_KEY_NAME).Some? then LastValue(plaintext, RESPONSE_PUB_KEY_NAME)
        else Some(c.base64(ctx.ephemeralPub)))
    && Get(headers, ENCRYPTED_HEADERS_NAME) == (if blob.Some? then blob else LastValue(plaintext, ENCRYPTED_HEADERS_NAME))
    && Get(headers, REQUEST_ID_NAME) == LastValue(plaintext, REQUEST_ID_NAME)
    && Get(headers, CLIENT_VERSION_NAME) == LastValue(plaintext, CLIENT_VERSION_NAME)
    && Get(headers, SIGNATURE_NAME) == Some(c.base64(signature))
  }

  lemma UnsignedGet(c: Crypto, ctx: Context, plaintext: seq<(Str, Str)>, blob: Option<Str>, name: Str)
    ensures Get(Unsigned(c, ctx, plaintext, blob), name) ==
            if blob.Some? && name == ENCRYPTED_HEADERS_NAME then blob
            else if LastValue(plaintext, name).Some? then LastValue(plaintext, name)
            else if name == RESPONSE_PUB_KEY_NAME then Some(c.base64(ctx.ephemeralPub))
            else None
  {
    hide RESPONSE_PUB_KEY_NAME, ENCRYPTED_HEADERS_NAME, LastValue;
    InsertAllGet(map[RESPONSE_PUB_KEY_NAME := [c.base64(ctx.ephemeralPub)]], plaintext, name);
  }

  lemma SignedArrives(c: Crypto, ctx: Context, plaintext: seq<(Str, Str)>, blob: Option<Str>, signature: Str)
    ensures Arrives(c, ctx, plaintext, blob,
                    Insert(Unsigned(c, ctx, plaintext, blob), SIGNATURE_NAME, c.base64(signature)), signature)
    ensures Get(Unsigned(c, ctx, plaintext, blob), REQUEST_ID_NAME) == LastValue(plaintext, REQUEST_ID_NAME)
    ensures Get(Unsigned(c, ctx, plaintext, blob), CLIENT_VERSION_NAME) == LastValue(plaintext, CLIENT_VERSION_NAME)
  {
    NamesDiffer();
    UnsignedGet(c, ctx, plaintext, blob, RESPONSE_PUB_KEY_NAME);
    UnsignedGet(c, ctx, plaintext, blob, ENCRYPTED_HEADERS_NAME);
    UnsignedGet(c, ctx, plaintext, blob, REQUEST_ID_NAME);
    UnsignedGet(c, ctx, plaintext, blob, CLIENT_VERSION_NAME);
    hide Unsigned, RESPONSE_PUB_KEY_NAME, ENCRYPTED_HEADERS_NAME, SIGNATURE_NAME, REQUEST_ID_NAME, CLIENT_VERSION_NAME, LastValue;
  }

  /** The parts of a call that the client controls. */
  datatype Parts = Parts(
    plaintext: seq<(Str, Str)>, encrypted: seq<(Str, Str)>, payload: Str, encryptPayload: bool, subject: Str,
    headerNonce: Nonce, payloadNonce: Nonce)

  function BuiltFrom(c: Crypto, ctx: Context, p: Parts): Result<Built, EncryptionError> {
    BuildForSubject(c, ctx, p.plaintext, p.encrypted, Some(p.payload), p.encryptPayload, p.subject, p.headerNonce, p.payloadNonce)
  }

  function Received(p: Parts, built: Built): Request {
    Request(p.subject, built.payload, Some(built.headers))
  }

  /** The transcript that the client signed. */
  function ClientTranscript(c: Crypto, ctx: Context, p: Parts, built: Built): SignatureTranscript
    requires HeaderBlob(c, ctx, p.encrypted, p.headerNonce).Ok?
  {
    SignatureTranscript(p.subject, ctx.ephemeralPub, LastValue(p.plaintext, REQUEST_ID_NAME),
                        LastValue(p.plaintext, CLIENT_VERSION_NAME), HeaderBlob(c, ctx, p.encrypted, p.headerNonce).value,
                        built.payload)
  }

  lemma BuiltArrives(c: Crypto, ctx: Context, p: Parts)
    requires BuiltFrom(c, ctx, p).Ok?
    ensures HeaderBlob(c, ctx, p.encrypted, p.headerNonce).Ok?
    ensures
      var built := BuiltFrom(c, ctx, p).value;
      && Arrives(c, ctx, p.plaintext, HeaderBlob(c, ctx, p.encrypted, p.headerNonce).value, built.headers,
                 Sign(c, ctx.keys.signature, ClientTranscript(c, ctx, p, built)))
      && FinalPayload(c, ctx, Some(p.payload), p.encryptPayload, p.payloadNonce) == Ok(built.payload)
  {
    hide HeaderBlob, FinalPayload, Unsigned, Arrives, Sign;
    var blob := HeaderBlob(c, ctx, p.encrypted, p.headerNonce).value;
    var built := BuiltFrom(c, ctx, p).value;
    SignedArrives(c, ctx, p.plaintext, blob, Sign(c, ctx.keys.signature, ClientTranscript(c, ctx, p, built)));
  }

  /** The overlay of a request whose encrypted headers are the client's own. */
  lemma OverlayOpens(c: Crypto, ctx: Context, encrypted: seq<(Str, Str)>, nonce: Nonce, headers: Headers)
    requires Sealing(c) && Codecs(c) && |ctx.ephemeralPub| == EPH_PUB_LEN && NoneReserved(encrypted)
    requires HeaderBlob(c, ctx, encrypted, nonce).Ok?
    requires Get(headers, ENCRYPTED_HEADERS_NAME) == HeaderBlob(c, ctx, encrypted, nonce).value
    ensures DecryptOverlay(c, headers, ctx.keys.encryption) ==
            Ok(if encrypted == [] then [] else c.listing(Collected(encrypted)))
  {
    hide Get, Encrypt, DecryptRequest, ENCRYPTED_HEADERS_NAME, Sealing, Reserved;
    if encrypted != [] {
      var m := Collected(encrypted);
      RequestEnvelopeOpens(c, ctx, nonce, c.toJson(m));
      var entries := c.listing(m);
      assert Lists(entries, m);
      forall i | 0 <= i < |entries|
        ensures !Reserved(entries[i].0)
      {
        CollectedGet(encrypted, entries[i].0);
      }
    }
  }

  /** The MAC that the server computes is the client's. */
  ghost predicate SameTranscript(c: Crypto, ctx: Context, p: Parts, built: Built, ephemeralPub: Str)
    requires HeaderBlob(c, ctx, p.encrypted, p.headerNonce).Ok?
  {
    Normal(ClientTranscript(c, ctx, p, built)) == Normal(ReceivedTranscript(Received(p, built), built.headers, ephemeralPub))
  }

  lemma SameTranscriptSameSignature(c: Crypto, ctx: Context, p: Parts, built: Built)
    requires HeaderBlob(c, ctx, p.encrypted, p.headerNonce).Ok? && SameTranscript(c, ctx, p, built, ctx.ephemeralPub)
    ensures Sign(c, ctx.keys.signature, ClientTranscript(c, ctx, p, built)) ==
            Sign(c, ctx.keys.signature, ReceivedTranscript(Received(p, built), built.headers, ctx.ephemeralPub))
  {
    hide ClientTranscript, ReceivedTranscript, Normal, Encode;
    NormalDecidesEncoding(ClientTranscript(c, ctx, p, built), ReceivedTranscript(Received(p, built), built.headers, ctx.ephemeralPub));
  }

  lemma NormalDecidesEncoding(a: SignatureTranscript, b: SignatureTranscript)
    requires Normal(a) == Normal(b)
    ensures Encode(a) == Encode(b)
  {
    hide EncodeFields, Labels;
    SameValues(a, b);
  }

  /** For admissible headers the two transcripts agree, up to absent and empty fields. */
  lemma AdmissibleAgrees(c: Crypto, ctx: Context, p: Parts)
    requires BuiltFrom(c, ctx, p).Ok? && Admissible(c, ctx, p.plaintext, p.encrypted)
    ensures HeaderBlob(c, ctx, p.encrypted, p.headerNonce).Ok?
    ensures SameTranscript(c, ctx, p, BuiltFrom(c, ctx, p).value, ctx.ephemeralPub)
  {
    hide Get, LastValue, Encrypt, ValidRequestId, BuiltFrom;
    BuiltArrives(c, ctx, p);
  }

  /** What the server holds after accepting the request. */
  function Accepted(c: Crypto, ctx: Context, p: Parts, built: Built): Prepared {
    Prepared(Received(p, built), ctx.ephemeralPub, if p.encryptPayload then Some(p.payload) else None,
             if p.encrypted == [] then [] else c.listing(Collected(p.encrypted)))
  }

  lemma UnpacksAccepted(c: Crypto, ctx: Context, p: Parts)
    requires Sealing(c) && Codecs(c) && |ctx.ephemeralPub| == EPH_PUB_LEN && NoneReserved(p.encrypted)
    requires BuiltFrom(c, ctx, p).Ok? && Admissible(c, ctx, p.plaintext, p.encrypted)
    ensures
      var built := BuiltFrom(c, ctx, p).value;
      Unpack(c, ctx.keys, Received(p, built), built.headers, ctx.ephemeralPub, p.encryptPayload) == Ok(Accepted(c, ctx, p, built))
  {
    hide Get, LastValue, Encrypt, DecryptRequest, DecryptOverlay, BuiltFrom, Sealing, Codecs, ExistingId;
    BuiltArrives(c, ctx, p);
    var built := BuiltFrom(c, ctx, p).value;
    OverlayOpens(c, ctx, p.encrypted, p.headerNonce, built.headers);
    if p.encryptPayload {
      RequestEnvelopeOpens(c, ctx, p.payloadNonce, p.payload);
    }
  }

  /** Every request built with admissible headers is accepted: the server gets the original body and the
      encrypted headers. */
  lemma AdmissibleIsAccepted(c: Crypto, secret: Str, ephemeralSecret: Str, p: Parts)
    requires Lawful(c) && NoneReserved(p.encrypted)
    requires
      var ctx := Begin(c, c.publicOf(secret), ephemeralSecret);
      BuiltFrom(c, ctx, p).Ok? && Admissible(c, ctx, p.plaintext, p.encrypted)
    ensures
      var ctx := Begin(c, c.publicOf(secret), ephemeralSecret);
      var built := BuiltFrom(c, ctx, p).value;
      Prepare(c, secret, Received(p, built), p.encryptPayload) == Ok(Accepted(c, ctx, p, built))
  {
    hide BuiltFrom, DeriveKeys, Unpack, ExistingId, Accepted, ReceivedTranscript, ClientTranscript, SameTranscript, Get, LastValue, Sign;
    var ctx := Begin(c, c.publicOf(secret), ephemeralSecret);
    var built := BuiltFrom(c, ctx, p).value;
    KeysAgree(c, secret, ephemeralSecret);
    BuiltArrives(c, ctx, p);
    AdmissibleAgrees(c, ctx, p);
    SameTranscriptSameSignature(c, ctx, p, built);
    UnpacksAccepted(c, ctx, p);
  }

  // ----- and which it refuses

  /** Everything that goes into a transcript is shorter than 2^64 bytes. */
  ghost predicate Sizes(p: Parts, built: Built) {
    && |p.subject| < U64_LIMIT && |built.payload| < U64_LIMIT
    && forall name | Get(built.headers, name).Some? :: |Get(built.headers, name).value| < U64_LIMIT
  }

  /** The MAC does not collide on the two texts of this call: the transcript that the client signs, and the one
      that the server checks under the key it finds in the headers. */
  ghost predicate NoCollision(c: Crypto, ctx: Context, secret: Str, p: Parts, built: Built)
    requires HeaderBlob(c, ctx, p.encrypted, p.headerNonce).Ok?
  {
    match DecodePubKey(c, built.headers)
    case Ok(Some(ephemeralPub)) =>
      TellsApart(c, ctx.keys.signature, Encode(ClientTranscript(c, ctx, p, built)),
                 ServerKeys(c, secret, ephemeralPub).signature,
                 Encode(ReceivedTranscript(Received(p, built), built.headers, ephemeralPub)))
    case _ => true
  }

  /** Whatever key the server finds, an accepted signature means that both sides saw the same transcript. */
  lemma SignatureBinds(c: Crypto, key: Str, serverKey: Str, a: SignatureTranscript, b: SignatureTranscript)
    requires TellsApart(c, key, Encode(a), serverKey, Encode(b))
    requires Short(a) && Short(b) && Sign(c, key, a) == Sign(c, serverKey, b)
    ensures Normal(a) == Normal(b)
  {
    hide Encode, Normal, Short;
    EncodeIsInjective(a, b);
  }

  lemma TranscriptsAreShort(c: Crypto, ctx: Context, p: Parts, ephemeralPub: Str)
    requires BuiltFrom(c, ctx, p).Ok? && |ctx.ephemeralPub| == EPH_PUB_LEN && |ephemeralPub| == EPH_PUB_LEN
    requires Sizes(p, BuiltFrom(c, ctx, p).value)
    ensures HeaderBlob(c, ctx, p.encrypted, p.headerNonce).Ok?
    ensures
      var built := BuiltFrom(c, ctx, p).value;
      && Short(ClientTranscript(c, ctx, p, built))
      && Short(ReceivedTranscript(Received(p, built), built.headers, ephemeralPub))
  {
    hide Get, LastValue, Encrypt, ValidRequestId, BuiltFrom, HeaderBlob;
    BuiltArrives(c, ctx, p);
    var built := BuiltFrom(c, ctx, p).value;
    var sent, seen := ClientTranscript(c, ctx, p, built), ReceivedTranscript(Received(p, built), built.headers, ephemeralPub);
    assert VERSION == Ascii("nats-micro request signature v1");
    ShortIf(sent);
    ShortIf(seen);
  }

  lemma ShortIf(t: SignatureTranscript)
    requires |t.subject| < U64_LIMIT && |t.ephemeralPub| < U64_LIMIT && |t.payload| < U64_LIMIT
    requires |OrEmpty(t.requestId)| < U64_LIMIT && |OrEmpty(t.clientVersion)| < U64_LIMIT && |OrEmpty(t.encryptedHeaders)| < U64_LIMIT
    ensures Short(t)
  {
    assert |VERSION| == 31;
  }

  /** With transcripts that agree, only a missing-but-claimed header of encrypted headers can still differ. */
  lemma AgreementIsAdmissible(c: Crypto, ctx: Context, p: Parts, ephemeralPub: Str)
    requires BuiltFrom(c, ctx, p).Ok? && HeaderBlob(c, ctx, p.encrypted, p.headerNonce).Ok?
    requires SameTranscript(c, ctx, p, BuiltFrom(c, ctx, p).value, ephemeralPub)
    requires DecodePubKey(c, BuiltFrom(c, ctx, p).value.headers) == Ok(Some(ephemeralPub))
    requires !(p.encrypted == [] && LastValue(p.plaintext, ENCRYPTED_HEADERS_NAME) == Some([]))
    ensures Admissible(c, ctx, p.plaintext, p.encrypted)
  {
    hide Get, LastValue, Encrypt, BuiltFrom;
    BuiltArrives(c, ctx, p);
  }

  /** An empty header of encrypted headers never decrypts. */
  lemma EmptyBlobFails(c: Crypto, headers: Headers, key: Str)
    requires Codecs(c) && Get(headers, ENCRYPTED_HEADERS_NAME) == Some([])
    ensures DecryptOverlay(c, headers, key).Err?
  {
    hide ENCRYPTED_HEADERS_NAME, Get;
    assert c.unbase64(c.base64([])) == Some([]);
  }

  /** Unless the MAC collides on the two transcripts of this call, the server accepts a built request exactly
      when its plaintext headers are admissible. */
  lemma AcceptedExactly(c: Crypto, secret: Str, ephemeralSecret: Str, p: Parts)
    requires Lawful(c) && NoneReserved(p.encrypted)
    requires
      var ctx := Begin(c, c.publicOf(secret), ephemeralSecret);
      && BuiltFrom(c, ctx, p).Ok? && HeaderBlob(c, ctx, p.encrypted, p.headerNonce).Ok?
      && var built := BuiltFrom(c, ctx, p).value;
         Sizes(p, built) && NoCollision(c, ctx, secret, p, built)
    ensures
      var ctx := Begin(c, c.publicOf(secret), ephemeralSecret);
      Prepare(c, secret, Received(p, BuiltFrom(c, ctx, p).value), p.encryptPayload).Ok? <==>
      Admissible(c, ctx, p.plaintext, p.encrypted)
  {
    hide BuiltFrom, DeriveKeys, Lawful, Admissible, NoCollision, HeaderBlob;
    var ctx := Begin(c, c.publicOf(secret), ephemeralSecret);
    if Admissible(c, ctx, p.plaintext, p.encrypted) {
      AdmissibleIsAccepted(c, secret, ephemeralSecret, p);
    } else if Prepare(c, secret, Received(p, BuiltFrom(c, ctx, p).value), p.encryptPayload).Ok? {
      LawfulParts(c);
      KeysAgree(c, secret, ephemeralSecret);
      AcceptedIsAdmissible(c, ctx, secret, p);
    }
  }

  lemma LawfulParts(c: Crypto)
    requires Lawful(c)
    ensures Agreement(c) && Sealing(c) && Codecs(c)
  {}

  lemma PreparedMeans(c: Crypto, secret: Str, request: Request, decryptPayload: bool)
    requires Prepare(c, secret, request, decryptPayload).Ok?
    ensures request.headers.Some?
    ensures
      var headers := request.headers.value;
      && DecodePubKey(c, headers).Ok? && DecodePubKey(c, headers).value.Some?
      && var ephemeralPub := DecodePubKey(c, headers).value.value;
         && |ephemeralPub| == EPH_PUB_LEN
         && Get(headers, SIGNATURE_NAME).Some?
         && c.unbase64(Get(headers, SIGNATURE_NAME).value) ==
            Some(Sign(c, ServerKeys(c, secret, ephemeralPub).signature, ReceivedTranscript(request, headers, ephemeralPub)))
         && DecryptOverlay(c, headers, ServerKeys(c, secret, ephemeralPub).encryption).Ok?
  {
    hide Get, DecryptOverlay, DeriveKeys, Sign, ReceivedTranscript, DecryptRequest;
  }

  lemma AcceptedIsAdmissible(c: Crypto, ctx: Context, secret: Str, p: Parts)
    requires Codecs(c) && |ctx.ephemeralPub| == EPH_PUB_LEN
    requires BuiltFrom(c, ctx, p).Ok? && HeaderBlob(c, ctx, p.encrypted, p.headerNonce).Ok?
    requires Sizes(p, BuiltFrom(c, ctx, p).value) && NoCollision(c, ctx, secret, p, BuiltFrom(c, ctx, p).value)
    requires Prepare(c, secret, Received(p, BuiltFrom(c, ctx, p).value), p.encryptPayload).Ok?
    ensures Admissible(c, ctx, p.plaintext, p.encrypted)
  {
    hide BuiltFrom, ServerKeys, Admissible, Prepare, DecodePubKey, ReceivedTranscript, ClientTranscript, Sign;
    hide TellsApart, Encode, Sizes, DecryptOverlay, Get, LastValue;
    var built := BuiltFrom(c, ctx, p).value;
    var request := Received(p, built);
    PreparedMeans(c, secret, request, p.encryptPayload);
    BuiltArrives(c, ctx, p);
    var ephemeralPub := DecodePubKey(c, built.headers).value.value;
    TranscriptsAreShort(c, ctx, p, ephemeralPub);
    SignatureBinds(c, ctx.keys.signature, ServerKeys(c, secret, ephemeralPub).signature,
                   ClientTranscript(c, ctx, p, built), ReceivedTranscript(request, built.headers, ephemeralPub));
    if LastValue(p.plaintext, ENCRYPTED_HEADERS_NAME) == Some([]) && HeaderBlob(c, ctx, p.encrypted, p.headerNonce).value.None? {
      EmptyBlobFails(c, built.headers, ServerKeys(c, secret, ephemeralPub).encryption);
    } else {
      AgreementIsAdmissible(c, ctx, p, ephemeralPub);
    }
  }

  // ----- what the handler sees

  /** Encrypted headers whose names differ in nothing but case end up with the same value. */
  ghost predicate SameInAnyCase(pairs: seq<(Str, Str)>) {
    var m := Collected(pairs);
    forall a, b | a in m && b in m && EqIgnoreCase(a, b) :: m[a] == m[b]
  }

  lemma EqIgnoreCaseJoins(a: Str, b: Str, name: Str)
    requires EqIgnoreCase(a, name) && EqIgnoreCase(b, name)
    ensures EqIgnoreCase(a, b)
  {}

  /** The entry that a lookup finds: it matches, and no later one does. */
  ghost predicate FoundAt(pairs: seq<(Str, Str)>, name: Str, i: nat) {
    && i < |pairs| && EqIgnoreCase(pairs[i].0, name)
    && forall j | i < j < |pairs| :: !EqIgnoreCase(pairs[j].0, name)
  }

  lemma {:induction false} OverlayGetFinds(pairs: seq<(Str, Str)>, name: Str) returns (i: nat)
    ensures OverlayGet(pairs, name).Some? ==> FoundAt(pairs, name, i) && OverlayGet(pairs, name) == Some(pairs[i].1)
    ensures OverlayGet(pairs, name).None? ==> forall j | 0 <= j < |pairs| :: !EqIgnoreCase(pairs[j].0, name)
  {
    i := 0;
    if pairs != [] {
      if EqIgnoreCase(pairs[|pairs| - 1].0, name) {
        i := |pairs| - 1;
      } else {
        i := OverlayGetFinds(pairs[..|pairs| - 1], name);
      }
    }
  }

  lemma {:induction false} LastValueAt(pairs: seq<(Str, Str)>, i: nat)
    requires i < |pairs| && forall j | i < j < |pairs| :: pairs[j].0 != pairs[i].0
    ensures LastValue(pairs, pairs[i].0) == Some(pairs[i].1)
  {
    if i < |pairs| - 1 {
      LastValueAt(pairs[..|pairs| - 1], i);
    }
  }

  /** Whatever order the hash map lists its entries in, looking a name up in the overlay gives the last
      encrypted header with that name. */
  lemma OverlayIsLastWins(pairs: seq<(Str, Str)>, entries: Overlay, name: Str)
    requires SameInAnyCase(pairs) && Lists(entries, Collected(pairs))
    ensures OverlayGet(entries, name) == OverlayGet(pairs, name)
  {
    hide EqIgnoreCase, Collected, OverlayGet;
    var i := OverlayGetFinds(pairs, name);
    var k := OverlayGetFinds(entries, name);
    if OverlayGet(entries, name).Some? {
      var found := entries[k].0;
      CollectedGet(pairs, found);
      var j :| 0 <= j < |pairs| && pairs[j].0 == found;
      assert OverlayGet(pairs, name).Some?;
      EqIgnoreCaseJoins(pairs[i].0, found, name);
      LastMatchIsCollected(pairs, name, i);
    } else if OverlayGet(pairs, name).Some? {
      LastMatchIsCollected(pairs, name, i);
    }
  }

  /** The last header that matches a name in any case is also the last one with its own name. */
  lemma LastMatchIsCollected(pairs: seq<(Str, Str)>, name: Str, i: nat)
    requires FoundAt(pairs, name, i)
    ensures pairs[i].0 in Collected(pairs) && Collected(pairs)[pairs[i].0] == pairs[i].1
  {
    hide EqIgnoreCase;
    LastValueAt(pairs, i);
    CollectedGet(pairs, pairs[i].0);
  }

  /** Some listing of a map ends with a given key. */
  lemma {:induction false} ListingWithLast(m: map<Str, Str>, last: Str) returns (entries: Overlay)
    requires last in m
    ensures Lists(entries, m) && |entries| > 0 && entries[|entries| - 1] == (last, m[last])
    decreases |m.Keys|
  {
    var rest := m - {last};
    assert rest.Keys == m.Keys - {last};
    var front: Overlay := [];
    if rest.Keys == {} {
      assert rest == map[];
    } else {
      var other :| other in rest.Keys;
      front := ListingWithLast(rest, other);
    }
    entries := front + [(last, m[last])];
    ListsMore(front, rest, last, m[last]);
    assert m == rest[last := m[last]];
  }

  lemma ListsMore(entries: Overlay, m: map<Str, Str>, key: Str, value: Str)
    requires Lists(entries, m) && key !in m
    ensures Lists(entries + [(key, value)], m[key := value])
  {
    var more, n := entries + [(key, value)], m[key := value];
    assert more[|entries|].0 == key;
    forall k | k in n
      ensures exists i | 0 <= i < |more| :: more[i].0 == k
    {
      if k != key {
        var i :| 0 <= i < |entries| && entries[i].0 == k;
        assert more[i].0 == k;
      }
    }
  }

  lemma LastEntryWins(entries: Overlay, name: Str)
    requires entries != [] && EqIgnoreCase(entries[|entries| - 1].0, name)
    ensures OverlayGet(entries, name) == Some(entries[|entries| - 1].1)
  {}

  /** If two names that differ only in case end up with different values, some lookup depends on the order in
      which the hash map lists its entries, so for some order the last value does not win. */
  lemma CaseClashDependsOnOrder(pairs: seq<(Str, Str)>)
    requires !SameInAnyCase(pairs)
    ensures exists one, other, name ::
              Lists(one, Collected(pairs)) && Lists(other, Collected(pairs)) && OverlayGet(one, name) != OverlayGet(other, name)
  {
    hide OverlayGet, EqIgnoreCase, Collected;
    var m := Collected(pairs);
    var a, b :| a in m && b in m && EqIgnoreCase(a, b) && m[a] != m[b];
    var one := ListingWithLast(m, a);
    var other := ListingWithLast(m, b);
    EqIgnoreCaseSelf(b);
    LastEntryWins(one, b);
    LastEntryWins(other, b);
  }

  lemma EqIgnoreCaseSelf(name: Str)
    ensures EqIgnoreCase(name, name)
  {}

  /** Exactly when the last encrypted value wins: for every order of the hash map and every name, the overlay
      gives the last encrypted header with that name if and only if names that differ only in case end up
      with the same value. */
  lemma LastWinsExactly(pairs: seq<(Str, Str)>)
    ensures (forall entries, name | Lists(entries, Collected(pairs)) :: OverlayGet(entries, name) == OverlayGet(pairs, name))
            <==> SameInAnyCase(pairs)
  {
    hide OverlayGet, EqIgnoreCase, Collected, Lists;
    if SameInAnyCase(pairs) {
      forall entries, name | Lists(entries, Collected(pairs))
        ensures OverlayGet(entries, name) == OverlayGet(pairs, name)
      {
        OverlayIsLastWins(pairs, entries, name);
      }
    } else {
      CaseClashDependsOnOrder(pairs);
    }
  }

  /** An instance: the names "A" and "a" with different values. */
  lemma CaseClashExample(x: Str, y: Str)
    requires x != y
    ensures
      var pairs := [(Ascii("A"), x), (Ascii("a"), y)];
      && !SameInAnyCase(pairs)
      && Lists(pairs, Collected(pairs)) && Lists([pairs[1], pairs[0]], Collected(pairs))
      && OverlayGet(pairs, Ascii("a")) == Some(y) && OverlayGet([pairs[1], pairs[0]], Ascii("a")) == Some(x)
  {
    var upper, lower := Ascii("A"), Ascii("a");
    assert upper[0] == 0x41 && lower[0] == 0x61;
    EqIgnoreCaseSelf(lower);
    assert EqIgnoreCase(upper, lower);
    var pairs := [(upper, x), (lower, y)];
    assert pairs[..1] == [(upper, x)];
    assert Collected(pairs[..1]) == map[upper := x];
    assert Collected(pairs) == map[upper := x, lower := y];
    assert pairs[0].0 == upper && pairs[1].0 == lower;
    var swapped := [pairs[1], pairs[0]];
    assert swapped[0].0 == lower && swapped[1].0 == upper;
    LastEntryWins(pairs, lower);
    LastEntryWins(swapped, lower);
  }

  /** The handler of an accepted request sees the original body, and for every name the last encrypted value
      if there is one, before any plaintext value. */
  lemma HandlerSees(c: Crypto, ctx: Context, p: Parts, name: Str)
    requires Codecs(c) && SameInAnyCase(p.encrypted) && BuiltFrom(c, ctx, p).Ok?
    ensures
      var prepared := Accepted(c, ctx, p, BuiltFrom(c, ctx, p).value);
      && Body(prepared) == p.payload
      && Header(prepared, name) ==
         if OverlayGet(p.encrypted, name).Some? then OverlayGet(p.encrypted, name)
         else Get(BuiltFrom(c, ctx, p).value.headers, name)
  {
    hide Get, Encrypt, LastValue, SameInAnyCase, Lists, BuiltFrom;
    BuiltArrives(c, ctx, p);
    if p.encrypted != [] {
      OverlayIsLastWins(p.encrypted, c.listing(Collected(p.encrypted)), name);
    }
  }

  /** A plaintext header that is not one of the protocol's own reaches the handler with its last value. */
  lemma PlaintextArrives(c: Crypto, ctx: Context, p: Parts, name: Str)
    requires BuiltFrom(c, ctx, p).Ok?
    requires name != RESPONSE_PUB_KEY_NAME && name != ENCRYPTED_HEADERS_NAME && name != SIGNATURE_NAME
    ensures Get(BuiltFrom(c, ctx, p).value.headers, name) == LastValue(p.plaintext, name)
  {
    hide LastValue, Encrypt, Unsigned, Get, RESPONSE_PUB_KEY_NAME, ENCRYPTED_HEADERS_NAME, SIGNATURE_NAME;
    var blob := HeaderBlob(c, ctx, p.encrypted, p.headerNonce).value;
    UnsignedGet(c, ctx, p.plaintext, blob, name);
    GetAfterInsert(Unsigned(c, ctx, p.plaintext, blob), SIGNATURE_NAME, name);
  }

  lemma GetAfterInsert(headers: Headers, inserted: Str, name: Str)
    requires name != inserted
    ensures forall value :: Get(Insert(headers, inserted, value), name) == Get(headers, name)
  {}

  // ----- the client

  /** `ClientResponse`. */
  datatype Reply = Reply(payload: Str, headers: Option<Headers>)

  datatype ClientError =
    | MissingRecipient
    | BadPayload(message: Str)
    | Serialize(error: EncryptionError)
    | Transport(message: Str)
    | Decrypt(error: EncryptionError)

  const ERROR_CODE_NAME := Ascii("Nats-Service-Error-Code")
  const ERROR_KIND_NAME := Ascii("Nats-Micro-Error-Kind")

  /** `reports_service_error`. */
  predicate ReportsServiceError(reply: Reply) {
    && reply.headers.Some?
    && (Get(reply.headers.value, ERROR_CODE_NAME).Some? || Get(reply.headers.value, ERROR_KIND_NAME).Some?)
  }

  /** A header map never holds a name without values. */
  predicate Filled(headers: Headers) {
    forall name | name in headers :: headers[name] != []
  }

  function Restrict(headers: Headers, names: set<Str>): Headers {
    map name | name in headers && name in names :: headers[name]
  }

  lemma MergeStep(defaults: Headers, headers: Headers, names: set<Str>, name: Str)
    requires name in names && name in headers
    ensures (defaults + Restrict(headers, headers.Keys - names))[name := headers[name]] ==
            defaults + Restrict(headers, headers.Keys - (names - {name}))
  {}

  /** `merge_headers`: a name's per-call values replace its defaults. */
  method MergeHeaders(defaults: Option<Headers>, perCall: Option<Headers>) returns (r: Option<Headers>)
    requires perCall.Some? ==> Filled(perCall.value)
    ensures r == if defaults.None? then perCall else if perCall.None? then defaults
                 else Some(defaults.value + perCall.value)
  {
    if defaults.None? {
      return perCall;
    }
    if perCall.None? {
      return defaults;
    }
    var headers := perCall.value;
    var merged := defaults.value;
    var names := headers.Keys;
    assert Restrict(headers, headers.Keys - names) == map[];
    while names != {}
      invariant names <= headers.Keys
      invariant merged == defaults.value + Restrict(headers, headers.Keys - names)
      decreases |names|
    {
      var name :| name in names;
      MergeStep(defaults.value, headers, names, name);
      merged := MergeOne(merged, name, headers[name]);
      names := names - {name};
    }
    assert Restrict(headers, headers.Keys - names) == headers;
    return Some(merged);
  }

  /** The first value of a name is inserted, the others are appended. */
  method MergeOne(headers: Headers, name: Str, values: seq<Str>) returns (r: Headers)
    requires values != []
    ensures r == headers[name := values]
  {
    r := headers;
    for i := 0 to |values|
      invariant r == if i == 0 then headers else headers[name := values[..i]]
    {
      assert values[..i + 1] == values[..i] + [values[i]];
      if i == 0 {
        assert values[..1] == [values[0]];
        r := Insert(r, name, values[i]);
      } else {
        assert headers[name := values[..i]][name := values[..i + 1]] == headers[name := values[..i + 1]];
        r := r[name := r[name] + [values[i]]];
      }
    }
    assert values[..|values|] == values;
  }

  /** The pairs give each name its last value in the map, whatever order the names come in. */
  ghost predicate Flattens(pairs: seq<(Str, Str)>, headers: Headers) {
    && Filled(headers)
    && forall name :: LastValue(pairs, name) == if name in headers then Some(headers[name][|headers[name]| - 1]) else None
  }

  ghost predicate FlattensPart(pairs: seq<(Str, Str)>, headers: Headers, names: set<Str>)
    requires names <= headers.Keys && Filled(headers)
  {
    forall name :: LastValue(pairs, name) == if name in names then Some(headers[name][|headers[name]| - 1]) else None
  }

  lemma LastOfSnoc(pairs: seq<(Str, Str)>, added: (Str, Str))
    ensures forall name :: LastValue(pairs + [added], name) == if name == added.0 then Some(added.1) else LastValue(pairs, name)
  {
    assert (pairs + [added])[..|pairs|] == pairs;
  }

  /** `add_plain_headers`, for one name. */
  method AddValues(builder: RequestBuilder, name: Str, values: seq<Str>) returns (r: Result<(), EncryptionError>)
    requires builder.Valid() && values != []
    modifies builder`plaintextHeaders
    ensures builder.Valid()
    ensures r.Ok? ==> forall other :: LastValue(builder.plaintextHeaders, other) ==
                        if other == name then Some(values[|values| - 1]) else LastValue(old(builder.plaintextHeaders), other)
    ensures r.Err? ==> r.error == InvalidHeader(name)
    ensures r.Ok? <==> TakesValues(builder.c, name, values)
  {
    hide LastValue;
    for i := 0 to |values|
      invariant builder.Valid()
      invariant i > 0 ==> builder.c.validName(name)
      invariant forall j | 0 <= j < i :: builder.c.validValue(values[j])
      invariant forall other :: LastValue(builder.plaintextHeaders, other) ==
                  if i > 0 && other == name then Some(values[i - 1]) else LastValue(old(builder.plaintextHeaders), other)
    {
      LastOfSnoc(builder.plaintextHeaders, (name, values[i]));
      r := builder.TryHeader(name, values[i]);
      if r.Err? {
        return;
      }
    }
    return Ok(());
  }

  /** The builder takes the plaintext headers. */
  predicate TakesPlain(c: Crypto, headers: Headers) {
    forall name | name in headers :: TakesValues(c, name, headers[name])
  }

  predicate TakesValues(c: Crypto, name: Str, values: seq<Str>) {
    c.validName(name) && forall i | 0 <= i < |values| :: c.validValue(values[i])
  }

  /** `add_plain_headers`. */
  method AddPlainHeaders(builder: RequestBuilder, headers: Headers) returns (r: Result<(), EncryptionError>)
    requires builder.Valid() && builder.plaintextHeaders == [] && Filled(headers)
    modifies builder`plaintextHeaders
    ensures builder.Valid()
    ensures r.Ok? <==> TakesPlain(builder.c, headers)
    ensures r.Ok? ==> Flattens(builder.plaintextHeaders, headers)
    ensures r.Err? ==> r.error.InvalidHeader?
  {
    hide LastValue, TakesValues;
    var names := headers.Keys;
    NothingFlattens(headers);
    while names != {}
      invariant names <= headers.Keys && builder.Valid()
      invariant forall name | name in headers.Keys - names :: TakesValues(builder.c, name, headers[name])
      invariant FlattensPart(builder.plaintextHeaders, headers, headers.Keys - names)
      decreases |names|
    {
      var name :| name in names;
      r := AddValues(builder, name, headers[name]);
      if r.Err? {
        return;
      }
      names := names - {name};
    }
    return Ok(());
  }

  lemma NothingFlattens(headers: Headers)
    requires Filled(headers)
    ensures FlattensPart([], headers, headers.Keys - headers.Keys)
  {}

  /** An encrypted request call, ready to be sent: it may lack a recipient, and its payload may have failed to
      serialize. */
  datatype Call = Call(
    recipient: Option<Str>, subject: Str, payload: Result<Str, Str>, defaults: Option<Headers>, headers: Option<Headers>,
    encrypted: seq<(Str, Str)>, encryptPayload: bool, decryptResponse: bool)

  /** The random choices of one call. */
  datatype Randomness = Randomness(ephemeralSecret: Str, headerNonce: Nonce, payloadNonce: Nonce)

  /** The call has a recipient and a payload. */
  predicate Ready(call: Call) {
    call.recipient.Some? && call.payload.Ok?
  }

  function PartsOf(call: Call, plaintext: seq<(Str, Str)>, random: Randomness): Parts
    requires Ready(call)
  {
    Parts(plaintext, call.encrypted, call.payload.value, call.encryptPayload, call.subject, random.headerNonce, random.payloadNonce)
  }

  function ContextOf(c: Crypto, call: Call, random: Randomness): Context
    requires Ready(call)
  {
    Begin(c, call.recipient.value, random.ephemeralSecret)
  }

  /** The call's outcome once its headers have been accepted by the builder. */
  function Sent(c: Crypto, call: Call, plaintext: seq<(Str, Str)>, random: Randomness,
                transport: Request -> Result<Reply, Str>): Result<Reply, ClientError>
    requires Ready(call)
  {
    var parts := PartsOf(call, plaintext, random);
    match BuiltFrom(c, ContextOf(c, call, random), parts)
    case Err(error) => Err(Serialize(error))
    case Ok(built) =>
      match transport(Received(parts, built))
      case Err(message) => Err(Transport(message))
      case Ok(reply) =>
        if call.decryptResponse && !ReportsServiceError(reply) then
          match DecryptResponse(c, ContextOf(c, call, random), reply.payload)
          case Err(error) => Err(Decrypt(error))
          case Ok(payload) => Ok(Reply(payload, reply.headers))
        else Ok(reply)
  }

  function Merged(call: Call): Headers {
    var defaults := if call.defaults.Some? then call.defaults.value else map[];
    var perCall := if call.headers.Some? then call.headers.value else map[];
    defaults + perCall
  }

  /** The builder takes the call's encrypted headers. */
  predicate TakesEncrypted(c: Crypto, pairs: seq<(Str, Str)>) {
    forall i | 0 <= i < |pairs| :: c.validName(pairs[i].0) && c.validValue(pairs[i].1) && !Reserved(pairs[i].0)
  }

  /** The builder holds the call's headers and payload. */
  ghost predicate Holds(builder: RequestBuilder, call: Call)
    reads builder
  {
    && builder.Valid() && Flattens(builder.plaintextHeaders, Merged(call))
    && builder.encryptedHeaders == call.encrypted && TakesEncrypted(builder.c, call.encrypted)
    && call.payload.Ok? && builder.payload == Some(call.payload.value) && builder.encryptPayload == call.encryptPayload
  }

  /** The middle of `send`: everything that goes into the builder. */
  method Prime(builder: RequestBuilder, call: Call) returns (r: Result<(), EncryptionError>)
    requires Ready(call) && builder.Valid() && builder.plaintextHeaders == [] && builder.encryptedHeaders == []
    requires call.defaults.Some? ==> Filled(call.defaults.value)
    requires call.headers.Some? ==> Filled(call.headers.value)
    modifies builder
    ensures r.Ok? <==> TakesPlain(builder.c, Merged(call)) && TakesEncrypted(builder.c, call.encrypted)
    ensures r.Ok? ==> Holds(builder, call)
    ensures r.Err? ==> r.error.InvalidHeader? || r.error.ReservedHeader?
  {
    hide Reserved, LastValue, TakesValues;
    if call.encryptPayload {
      builder.EncryptedPayload(call.payload.value);
    } else {
      builder.Payload(call.payload.value);
    }
    var headers := MergeHeaders(call.defaults, call.headers);
    NothingFlattens(map[]);
    if headers.Some? {
      assert Merged(call) == headers.value;
      r := AddPlainHeaders(builder, headers.value);
      if r.Err? {
        return;
      }
    }
    for i := 0 to |call.encrypted|
      invariant builder.Valid() && Flattens(builder.plaintextHeaders, Merged(call))
      invariant builder.encryptedHeaders == call.encrypted[..i] && TakesEncrypted(builder.c, call.encrypted[..i])
      invariant builder.payload == Some(call.payload.value) && builder.encryptPayload == call.encryptPayload
    {
      var (name, value) := call.encrypted[i];
      r := builder.TryEncryptedHeader(name, value);
      if r.Err? {
        return;
      }
    }
    assert call.encrypted[..|call.encrypted|] == call.encrypted;
    return Ok(());
  }

  /** `EncryptedRequestCall::send`, up to decoding the reply. */
  method Send(c: Crypto, call: Call, random: Randomness, transport: Request -> Result<Reply, Str>)
    returns (r: Result<Reply, ClientError>)
    requires call.defaults.Some? ==> Filled(call.defaults.value)
    requires call.headers.Some? ==> Filled(call.headers.value)
    ensures
      if call.recipient.None? then r == Err(MissingRecipient)
      else if call.payload.Err? then r == Err(BadPayload(call.payload.error))
      else if TakesPlain(c, Merged(call)) && TakesEncrypted(c, call.encrypted) then
        exists plaintext :: Flattens(plaintext, Merged(call)) && r == Sent(c, call, plaintext, random, transport)
      else r.Err? && r.error.Serialize? && (r.error.error.InvalidHeader? || r.error.error.ReservedHeader?)
  {
    hide BuildForSubject, DecryptResponse, Reserved, LastValue, Begin, TakesEncrypted, TakesPlain, Flattens, Get, Merged;
    if call.recipient.None? {
      return Err(MissingRecipient);
    }
    if call.payload.Err? {
      return Err(BadPayload(call.payload.error));
    }
    var builder := new RequestBuilder(c, call.recipient.value, random.ephemeralSecret);
    var primed := Prime(builder, call);
    if primed.Err? {
      return Err(Serialize(primed.error));
    }
    ghost var plaintext := builder.plaintextHeaders;
    var built := builder.Build(call.subject, random.headerNonce, random.payloadNonce);
    if built.Err? {
      return Err(Serialize(built.error));
    }
    var reply := transport(Request(call.subject, built.value.payload, Some(built.value.headers)));
    if reply.Err? {
      return Err(Transport(reply.error));
    }
    var response := reply.value;
    if call.decryptResponse && !ReportsServiceError(response) {
      var decrypted := DecryptResponse(c, builder.ctx, response.payload);
      if decrypted.Err? {
        return Err(Decrypt(decrypted.error));
      }
      response := response.(payload := decrypted.value);
    }
    return Ok(response);
  }

  // ----- there and back

  function OnWire(response: Response): Reply {
    match response
    case Empty => Reply([], None)
    case Payload(payload) => Reply(payload, None)
    case WithHeaders(payload, headers) => Reply(payload, Some(headers))
  }

  /** An error on its way out of the server: `ErrorReply`, with its code in decimal. */
  datatype ServiceError = ServiceError(code: Str, kind: Str, message: Str, payload: Str, requestId: Option<Str>)

  /** `service_error_headers`. */
  function ServiceErrorHeaders(error: ServiceError): Headers {
    var headers: Headers := map[
      Ascii("Nats-Service-Error") := [error.message],
      ERROR_CODE_NAME := [error.code],
      ERROR_KIND_NAME := [error.kind],
      Ascii("Nats-Micro-Error-Format") := [Ascii("json-v1")]];
    if error.requestId.Some? then Insert(headers, REQUEST_ID_NAME, error.requestId.value) else headers
  }

  /** Errors go out in the clear. */
  function Failure(error: ServiceError): Reply {
    Reply(error.payload, Some(ServiceErrorHeaders(error)))
  }

  lemma FailureIsReported(error: ServiceError)
    ensures ReportsServiceError(Failure(error))
  {
    assert |ERROR_CODE_NAME| == 23 && |ERROR_KIND_NAME| == 21 && |Ascii("Nats-Micro-Error-Format")| == 23;
    assert |REQUEST_ID_NAME| == 12;
    assert ERROR_KIND_NAME in ServiceErrorHeaders(error);
  }

  /** The server's side of an encrypted operation; `describe` words the framework's own errors. */
  function Serve(c: Crypto, secret: Str, decryptPayload: bool, encryptResponse: bool,
                 handler: Prepared -> Result<Response, ServiceError>, describe: ErrorReply -> ServiceError, nonce: Nonce,
                 request: Request): Reply {
    match Prepare(c, secret, request, decryptPayload)
    case Err(error) => Failure(describe(error))
    case Ok(prepared) =>
      match handler(prepared)
      case Err(error) => Failure(error)
      case Ok(response) =>
        if !encryptResponse then OnWire(response)
        else
          match EncryptResponse(c, secret, prepared, response, nonce)
          case Err(error) => Failure(describe(error))
          case Ok(encrypted) => OnWire(encrypted)
  }

  /** The response to an accepted request opens at the client to the handler's payload. */
  lemma ResponseReturns(c: Crypto, secret: Str, ephemeralSecret: Str, prepared: Prepared, response: Response, nonce: Nonce)
    requires Lawful(c) && prepared.ephemeralPub == c.publicOf(ephemeralSecret)
    requires EncryptResponse(c, secret, prepared, response, nonce).Ok?
    ensures
      var reply := OnWire(EncryptResponse(c, secret, prepared, response, nonce).value);
      && DecryptResponse(c, Begin(c, c.publicOf(secret), ephemeralSecret), reply.payload) == Ok(OnWire(response).payload)
      && reply.headers == OnWire(response).headers
  {
    hide DeriveKeys, DecryptResponse, EncryptForClient;
    KeysAgree(c, secret, ephemeralSecret);
    ResponseEnvelopeOpens(c, Begin(c, c.publicOf(secret), ephemeralSecret), nonce, OnWire(response).payload);
  }

  /** What the client should end up with, given what the handler answers: an error as the server put it, a
      response as the handler made it. A response that itself carries a service error header is the one case
      in which the client does not decrypt. */
  function Expected(c: Crypto, secret: Str, call: Call, prepared: Prepared, answer: Result<Response, ServiceError>,
                    describe: ErrorReply -> ServiceError, nonce: Nonce): Reply {
    match answer
    case Err(error) => Failure(error)
    case Ok(response) =>
      if !call.decryptResponse then OnWire(response)
      else
        match EncryptResponse(c, secret, prepared, response, nonce)
        case Err(error) => Failure(describe(error))
        case Ok(encrypted) => if ReportsServiceError(OnWire(response)) then OnWire(encrypted) else OnWire(response)
  }

  lemma ReplyReturns(
      c: Crypto, secret: Str, call: Call, random: Randomness, prepared: Prepared,
      answer: Result<Response, ServiceError>, describe: ErrorReply -> ServiceError, nonce: Nonce, reply: Reply)
    requires Lawful(c) && Ready(call) && call.recipient.value == c.publicOf(secret)
    requires prepared.ephemeralPub == c.publicOf(random.ephemeralSecret)
    requires reply ==
             match answer
             case Err(error) => Failure(error)
             case Ok(response) =>
               if !call.decryptResponse then OnWire(response)
               else
                 match EncryptResponse(c, secret, prepared, response, nonce)
                 case Err(error) => Failure(describe(error))
                 case Ok(encrypted) => OnWire(encrypted)
    ensures
      var ctx := ContextOf(c, call, random);
      var expected := Expected(c, secret, call, prepared, answer, describe, nonce);
      if call.decryptResponse && !ReportsServiceError(reply) then
        DecryptResponse(c, ctx, reply.payload).Ok?
        && Reply(DecryptResponse(c, ctx, reply.payload).value, reply.headers) == expected
      else reply == expected
  {
    hide EncryptResponse, Lawful, DecryptResponse, Get, ServiceErrorHeaders;
    match answer
    case Err(error) => FailureIsReported(error);
    case Ok(response) =>
      if call.decryptResponse {
        match EncryptResponse(c, secret, prepared, response, nonce)
        case Err(error) => FailureIsReported(describe(error));
        case Ok(_) => ResponseReturns(c, secret, random.ephemeralSecret, prepared, response, nonce);
      }
  }

  /** A whole call: for every admissible call to a service whose key the client knows, the handler is given
      the accepted request, and the client ends up with what the handler answered. */
  lemma CallRoundTrip(
      c: Crypto, secret: Str, call: Call, plaintext: seq<(Str, Str)>, random: Randomness,
      handler: Prepared -> Result<Response, ServiceError>, describe: ErrorReply -> ServiceError, nonce: Nonce,
      transport: Request -> Result<Reply, Str>)
    requires Lawful(c) && Ready(call) && call.recipient.value == c.publicOf(secret) && NoneReserved(call.encrypted)
    requires forall request :: transport(request) ==
               Ok(Serve(c, secret, call.encryptPayload, call.decryptResponse, handler, describe, nonce, request))
    requires
      var ctx := ContextOf(c, call, random);
      && BuiltFrom(c, ctx, PartsOf(call, plaintext, random)).Ok?
      && Admissible(c, ctx, plaintext, call.encrypted)
    ensures
      var ctx, parts := ContextOf(c, call, random), PartsOf(call, plaintext, random);
      var prepared := Accepted(c, ctx, parts, BuiltFrom(c, ctx, parts).value);
      Sent(c, call, plaintext, random, transport) ==
      Ok(Expected(c, secret, call, prepared, handler(prepared), describe, nonce))
  {
    hide BuiltFrom, Prepare, EncryptResponse, Lawful, Admissible, DecryptResponse, Failure, ReportsServiceError, Expected, OnWire;
    var ctx, parts := ContextOf(c, call, random), PartsOf(call, plaintext, random);
    var built := BuiltFrom(c, ctx, parts).value;
    var prepared := Accepted(c, ctx, parts, built);
    AdmissibleIsAccepted(c, secret, random.ephemeralSecret, parts);
    var reply := transport(Received(parts, built)).value;
    ReplyReturns(c, secret, call, random, prepared, handler(prepared), describe, nonce, reply);
  }

  // ----- from the call's headers to the caller's reply

  /** The value that a header map leaves of a name once its values are inserted one after the other. */
  function LastOf(headers: Headers, name: Str): Option<Str> {
    if name in headers && headers[name] != [] then Some(headers[name][|headers[name]| - 1]) else None
  }

  /** `Admissible`, said of the call's own header maps: the per-call headers over the defaults. */
  ghost predicate AdmissibleCall(c: Crypto, call: Call, random: Randomness)
    requires Ready(call)
  {
    var headers := Merged(call);
    && (LastOf(headers, RESPONSE_PUB_KEY_NAME).Some? ==>
          c.unbase64(LastOf(headers, RESPONSE_PUB_KEY_NAME).value) == Some(ContextOf(c, call, random).ephemeralPub))
    && (call.encrypted == [] ==> LastOf(headers, ENCRYPTED_HEADERS_NAME) == None)
    && var id := LastOf(headers, REQUEST_ID_NAME);
       id.Some? && id.value != [] ==> ValidRequestId(id.value)
  }

  lemma FlatteningIsAdmissible(c: Crypto, call: Call, random: Randomness, plaintext: seq<(Str, Str)>)
    requires Ready(call) && Flattens(plaintext, Merged(call))
    ensures Admissible(c, ContextOf(c, call, random), plaintext, call.encrypted) <==> AdmissibleCall(c, call, random)
  {
    hide LastValue, Merged, Begin, ValidRequestId;
    var headers := Merged(call);
    assert forall name :: LastValue(plaintext, name) == LastOf(headers, name);
  }

  lemma TakenIsNotReserved(c: Crypto, pairs: seq<(Str, Str)>)
    requires TakesEncrypted(c, pairs)
    ensures NoneReserved(pairs)
  {}

  /** The service answers every request with this secret, handler and wording of errors. */
  ghost predicate Serves(transport: Request -> Result<Reply, Str>, c: Crypto, secret: Str, call: Call,
                         handler: Prepared -> Result<Response, ServiceError>, describe: ErrorReply -> ServiceError, nonce: Nonce) {
    forall request :: transport(request) ==
      Ok(Serve(c, secret, call.encryptPayload, call.decryptResponse, handler, describe, nonce, request))
  }

  /** What the handler is given. */
  function PreparedFor(c: Crypto, call: Call, plaintext: seq<(Str, Str)>, random: Randomness): Prepared
    requires Ready(call) && BuiltFrom(c, ContextOf(c, call, random), PartsOf(call, plaintext, random)).Ok?
  {
    var ctx, parts := ContextOf(c, call, random), PartsOf(call, plaintext, random);
    Accepted(c, ctx, parts, BuiltFrom(c, ctx, parts).value)
  }

  predicate ProtocolName(name: Str) {
    name == RESPONSE_PUB_KEY_NAME || name == ENCRYPTED_HEADERS_NAME || name == SIGNATURE_NAME
  }

  /** What the handler is to find under a name: the last encrypted value given for it in any case, or else the
      last of the call's own or default values. */
  function HeaderGiven(call: Call, name: Str): Option<Str> {
    if OverlayGet(call.encrypted, name).Some? then OverlayGet(call.encrypted, name) else LastOf(Merged(call), name)
  }

  /** The handler finds the original headers, apart from the protocol's own. */
  lemma HeadersArrive(c: Crypto, call: Call, plaintext: seq<(Str, Str)>, random: Randomness, name: Str)
    requires Codecs(c) && Ready(call) && Flattens(plaintext, Merged(call))
    requires BuiltFrom(c, ContextOf(c, call, random), PartsOf(call, plaintext, random)).Ok?
    requires SameInAnyCase(call.encrypted) && !ProtocolName(name)
    ensures Header(PreparedFor(c, call, plaintext, random), name) == HeaderGiven(call, name)
  {
    hide BuiltFrom, Codecs, SameInAnyCase, Get, OverlayGet, LastValue, Merged, Header, Accepted;
    HandlerSees(c, ContextOf(c, call, random), PartsOf(call, plaintext, random), name);
    PlaintextArrives(c, ContextOf(c, call, random), PartsOf(call, plaintext, random), name);
    assert LastValue(plaintext, name) == LastOf(Merged(call), name);
  }

  /** From the call's header maps to the caller's reply: in whatever order the headers are added, a call whose
      headers the builder takes and that are admissible is sent, its handler is given the original body and
      headers, and the caller ends up with what the handler answered. */
  lemma CallReturns(
      c: Crypto, secret: Str, call: Call, plaintext: seq<(Str, Str)>, random: Randomness,
      handler: Prepared -> Result<Response, ServiceError>, describe: ErrorReply -> ServiceError, nonce: Nonce,
      transport: Request -> Result<Reply, Str>)
    requires Lawful(c) && Ready(call) && call.recipient.value == c.publicOf(secret)
    requires Serves(transport, c, secret, call, handler, describe, nonce)
    requires TakesEncrypted(c, call.encrypted) && Flattens(plaintext, Merged(call)) && AdmissibleCall(c, call, random)
    requires BuiltFrom(c, ContextOf(c, call, random), PartsOf(call, plaintext, random)).Ok?
    ensures
      var prepared := PreparedFor(c, call, plaintext, random);
      && Body(prepared) == call.payload.value
      && (SameInAnyCase(call.encrypted) ==>
            forall name | !ProtocolName(name) :: Header(prepared, name) == HeaderGiven(call, name))
      && Sent(c, call, plaintext, random, transport) ==
         Ok(Expected(c, secret, call, prepared, handler(prepared), describe, nonce))
  {
    hide BuiltFrom, Lawful, Admissible, AdmissibleCall, Flattens, TakesEncrypted, NoneReserved, Sent, Expected, Serve;
    hide SameInAnyCase, Header, HeaderGiven, ProtocolName, Codecs;
    FlatteningIsAdmissible(c, call, random, plaintext);
    TakenIsNotReserved(c, call.encrypted);
    BodyArrives(c, ContextOf(c, call, random), PartsOf(call, plaintext, random));
    LawfulParts(c);
    if SameInAnyCase(call.encrypted) {
      forall name | !ProtocolName(name)
        ensures Header(PreparedFor(c, call, plaintext, random), name) == HeaderGiven(call, name)
      {
        HeadersArrive(c, call, plaintext, random, name);
      }
    }
    CallRoundTrip(c, secret, call, plaintext, random, handler, describe, nonce, transport);
  }

  lemma BodyArrives(c: Crypto, ctx: Context, p: Parts)
    requires BuiltFrom(c, ctx, p).Ok?
    ensures Body(Accepted(c, ctx, p, BuiltFrom(c, ctx, p).value)) == p.payload
  {
    hide BuiltFrom, Encrypt;
    BuiltArrives(c, ctx, p);
  }

  /** The handler's response carries one of the two headers by which the client knows an error. */
  predicate CarriesErrorHeader(response: Response) {
    && response.WithHeaders?
    && (Get(response.headers, ERROR_CODE_NAME).Some? || Get(response.headers, ERROR_KIND_NAME).Some?)
  }

  lemma SealedIsLonger(c: Crypto, secret: Str, prepared: Prepared, response: Response, nonce: Nonce)
    requires Sealing(c) && EncryptResponse(c, secret, prepared, response, nonce).Ok?
    ensures OnWire(EncryptResponse(c, secret, prepared, response, nonce).value).payload != OnWire(response).payload
  {
    hide ServerKeys;
    var key := ServerKeys(c, secret, prepared.ephemeralPub).encryption;
    var data := EncryptForClient(c, key, nonce, OnWire(response).payload).value;
    assert |data| == NONCE_LEN + |OnWire(response).payload| + TAG_LEN;
  }

  /** Exactly when the handler's own response comes back: unless the operation's responses are encrypted and
      this one carries a service error header, which makes the client leave it encrypted. */
  lemma OriginalComesBackExactly(
      c: Crypto, secret: Str, call: Call, plaintext: seq<(Str, Str)>, random: Randomness,
      handler: Prepared -> Result<Response, ServiceError>, describe: ErrorReply -> ServiceError, nonce: Nonce,
      transport: Request -> Result<Reply, Str>)
    requires Lawful(c) && Ready(call) && call.recipient.value == c.publicOf(secret)
    requires Serves(transport, c, secret, call, handler, describe, nonce)
    requires TakesEncrypted(c, call.encrypted) && Flattens(plaintext, Merged(call)) && AdmissibleCall(c, call, random)
    requires BuiltFrom(c, ContextOf(c, call, random), PartsOf(call, plaintext, random)).Ok?
    requires
      var prepared := PreparedFor(c, call, plaintext, random);
      && handler(prepared).Ok?
      && (call.decryptResponse ==> EncryptResponse(c, secret, prepared, handler(prepared).value, nonce).Ok?)
    ensures
      var response := handler(PreparedFor(c, call, plaintext, random)).value;
      Sent(c, call, plaintext, random, transport) == Ok(OnWire(response)) <==>
      !(call.decryptResponse && CarriesErrorHeader(response))
  {
    hide BuiltFrom, Lawful, AdmissibleCall, Flattens, TakesEncrypted, Sent, Serves, EncryptResponse, Get, PreparedFor;
    CallReturns(c, secret, call, plaintext, random, handler, describe, nonce, transport);
    LawfulParts(c);
    var prepared := PreparedFor(c, call, plaintext, random);
    var response := handler(prepared).value;
    assert ReportsServiceError(OnWire(response)) <==> CarriesErrorHeader(response);
    if call.decryptResponse {
      SealedIsLonger(c, secret, prepared, response, nonce);
    }
  }
}
