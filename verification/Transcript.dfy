/** The transcript that a request signature covers (nats-micro/src/encryption/mod.rs): seven fields, each
    written as its label, its length in eight bytes and its value, and fed piece by piece to a MAC. */
module Transcript {
  import opened Text

  const U64_LIMIT: nat := 0x1_0000_0000_0000_0000

  /** What a client signs: the request's parts in the clear, and the encrypted headers as sent. */
  datatype SignatureTranscript = SignatureTranscript(
    subject: Str, ephemeralPub: Str, requestId: Option<Str>, clientVersion: Option<Str>,
    encryptedHeaders: Option<Str>, payload: Str)

  /** `n` in `width` bytes, most significant first. */
  function BigEndian(n: nat, width: nat): (bytes: Str)
    ensures |bytes| == width
  {
    if width == 0 then [] else BigEndian(n / 256, width - 1) + [n % 256]
  }

  function Number(bytes: Str): nat {
    if bytes == [] then 0 else Number(bytes[..|bytes| - 1]) * 256 + bytes[|bytes| - 1]
  }

  function Power(width: nat): nat {
    if width == 0 then 1 else 256 * Power(width - 1)
  }

  lemma {:induction false} NumberOfBigEndian(n: nat, width: nat)
    requires n < Power(width)
    ensures Number(BigEndian(n, width)) == n
  {
    if width > 0 {
      NumberOfBigEndian(n / 256, width - 1);
      assert BigEndian(n, width)[..width - 1] == BigEndian(n / 256, width - 1);
    }
  }

  lemma {:induction false} BigEndianOfNumber(bytes: Str)
    ensures Number(bytes) < Power(|bytes|) && BigEndian(Number(bytes), |bytes|) == bytes
  {
    if bytes != [] {
      BigEndianOfNumber(bytes[..|bytes| - 1]);
      assert bytes == bytes[..|bytes| - 1] + [bytes[|bytes| - 1]];
    }
  }

  lemma PowerOfEight()
    ensures Power(8) == U64_LIMIT
  {
    assert Power(4) == 0x1_0000_0000;
    assert Power(6) == 0x1_0000_0000_0000;
  }

  // ----- the encoding

  /** `update_len_prefixed`: the length is taken in 64 bits. */
  function LenPrefixed(tag: Str, value: Str): Str {
    tag + BigEndian(|value| % U64_LIMIT, 8) + value
  }

  function OrEmpty(value: Option<Str>): Str {
    if value.Some? then value.value else []
  }

  const VERSION := Ascii("nats-micro request signature v1")

  /** The labels of the seven fields. */
  function Labels(): (labels: seq<Str>)
    ensures |labels| == 7
  {
    [Ascii("version"), Ascii("subject"), Ascii("ephemeral-pub-key"), Ascii("request-id"),
     Ascii("client-version"), Ascii("encrypted-headers"), Ascii("payload")]
  }

  /** Their values; an absent one is written as an empty one. */
  function Values(t: SignatureTranscript): (values: seq<Str>)
    ensures |values| == 7
  {
    [VERSION, t.subject, t.ephemeralPub, OrEmpty(t.requestId), OrEmpty(t.clientVersion),
     OrEmpty(t.encryptedHeaders), t.payload]
  }

  function EncodeFields(labels: seq<Str>, values: seq<Str>): Str
    requires |labels| == |values|
  {
    if labels == [] then [] else LenPrefixed(labels[0], values[0]) + EncodeFields(labels[1..], values[1..])
  }

  function Encode(t: SignatureTranscript): Str {
    EncodeFields(Labels(), Values(t))
  }

  /** The encoding, field by field. */
  lemma EncodingSpelledOut(t: SignatureTranscript)
    ensures Encode(t) ==
            LenPrefixed(Ascii("version"), Ascii("nats-micro request signature v1"))
            + (LenPrefixed(Ascii("subject"), t.subject)
            + (LenPrefixed(Ascii("ephemeral-pub-key"), t.ephemeralPub)
            + (LenPrefixed(Ascii("request-id"), OrEmpty(t.requestId))
            + (LenPrefixed(Ascii("client-version"), OrEmpty(t.clientVersion))
            + (LenPrefixed(Ascii("encrypted-headers"), OrEmpty(t.encryptedHeaders))
            + (LenPrefixed(Ascii("payload"), t.payload)))))))
  {
    hide LenPrefixed, EncodeFields, Ascii;
    EncodeSeven(Labels(), Values(t));
  }

  lemma EncodeSeven(l: seq<Str>, v: seq<Str>)
    requires |l| == |v| == 7
    ensures EncodeFields(l, v) ==
            LenPrefixed(l[0], v[0]) + (LenPrefixed(l[1], v[1]) + (LenPrefixed(l[2], v[2]) + (LenPrefixed(l[3], v[3])
            + (LenPrefixed(l[4], v[4]) + (LenPrefixed(l[5], v[5]) + LenPrefixed(l[6], v[6]))))))
  {
    hide LenPrefixed, EncodeFields;
    EncodeFrom(l, v, 0);
    EncodeFrom(l, v, 1);
    EncodeFrom(l, v, 2);
    EncodeFrom(l, v, 3);
    EncodeFrom(l, v, 4);
    EncodeFrom(l, v, 5);
    EncodeFrom(l, v, 6);
    EncodeNothing(l, v);
    assert l[0..] == l && v[0..] == v;
    assert LenPrefixed(l[6], v[6]) + [] == LenPrefixed(l[6], v[6]);
  }

  lemma EncodeNothing(l: seq<Str>, v: seq<Str>)
    requires |l| == |v|
    ensures EncodeFields(l[|l|..], v[|v|..]) == []
  {}

  lemma EncodeFrom(labels: seq<Str>, values: seq<Str>, k: nat)
    requires k < |labels| == |values|
    ensures EncodeFields(labels[k..], values[k..]) == LenPrefixed(labels[k], values[k]) + EncodeFields(labels[k + 1..], values[k + 1..])
  {
    DropOne(labels, k);
    DropOne(values, k);
  }

  // ----- feeding it to the MAC

  /** A MAC that has been fed some bytes and is not finalized yet. */
  class Mac {
    const key: Str
    var fed: Str

    constructor (key: Str)
      ensures this.key == key && fed == []
    {
      this.key, fed := key, [];
    }

    method Update(data: Str)
      modifies this
      ensures fed == old(fed) + data
    {
      fed := fed + data;
    }
  }

  method UpdateLenPrefixed(mac: Mac, tag: Str, value: Str)
    modifies mac
    ensures mac.fed == old(mac.fed) + LenPrefixed(tag, value)
  {
    mac.Update(tag);
    mac.Update(BigEndian(|value| % U64_LIMIT, 8));
    mac.Update(value);
  }

  method UpdateOptional(mac: Mac, tag: Str, value: Option<Str>)
    modifies mac
    ensures mac.fed == old(mac.fed) + LenPrefixed(tag, OrEmpty(value))
  {
    match value {
      case Some(v) => UpdateLenPrefixed(mac, tag, v);
      case None => UpdateLenPrefixed(mac, tag, []);
    }
  }

  lemma {:induction false} EncodeNext(labels: seq<Str>, values: seq<Str>, tag: Str, value: Str)
    requires |labels| == |values|
    ensures EncodeFields(labels + [tag], values + [value]) == EncodeFields(labels, values) + LenPrefixed(tag, value)
  {
    hide LenPrefixed;
    if labels == [] {
      assert EncodeFields([tag][1..], [value][1..]) == [];
    } else {
      EncodeNext(labels[1..], values[1..], tag, value);
      assert (labels + [tag])[1..] == labels[1..] + [tag] && (values + [value])[1..] == values[1..] + [value];
      Regroup(LenPrefixed(labels[0], values[0]), EncodeFields(labels[1..], values[1..]), LenPrefixed(tag, value));
    }
  }

  lemma EncodeUpTo(t: SignatureTranscript, k: nat)
    requires k < 7
    ensures EncodeFields(Labels()[..k + 1], Values(t)[..k + 1]) ==
            EncodeFields(Labels()[..k], Values(t)[..k]) + LenPrefixed(Labels()[k], Values(t)[k])
  {
    hide LenPrefixed, Labels, Values, EncodeFields;
    var labels, values := Labels(), Values(t);
    EncodeNext(labels[..k], values[..k], labels[k], values[k]);
    assert labels[..k + 1] == labels[..k] + [labels[k]] && values[..k + 1] == values[..k] + [values[k]];
  }

  /** `update_signature_mac`. */
  method UpdateSignatureMac(mac: Mac, t: SignatureTranscript)
    modifies mac
    ensures mac.fed == old(mac.fed) + Encode(t)
  {
    hide LenPrefixed, EncodeFields, Labels, Values, OrEmpty, VERSION;
    ghost var start := mac.fed;
    ghost var labels, values := Labels(), Values(t);
    LabelsAndValues(t);
    UpdateLenPrefixed(mac, Ascii("version"), VERSION);
    Fed(t, start, mac.fed, 0);
    UpdateLenPrefixed(mac, Ascii("subject"), t.subject);
    Fed(t, start, mac.fed, 1);
    UpdateLenPrefixed(mac, Ascii("ephemeral-pub-key"), t.ephemeralPub);
    Fed(t, start, mac.fed, 2);
    UpdateOptional(mac, Ascii("request-id"), t.requestId);
    Fed(t, start, mac.fed, 3);
    UpdateOptional(mac, Ascii("client-version"), t.clientVersion);
    Fed(t, start, mac.fed, 4);
    UpdateOptional(mac, Ascii("encrypted-headers"), t.encryptedHeaders);
    Fed(t, start, mac.fed, 5);
    UpdateLenPrefixed(mac, Ascii("payload"), t.payload);
    Fed(t, start, mac.fed, 6);
    assert labels[..7] == labels && values[..7] == values;
  }

  lemma LabelsAndValues(t: SignatureTranscript)
    ensures
      var labels, values := Labels(), Values(t);
      && labels[0] == Ascii("version") && values[0] == VERSION
      && labels[1] == Ascii("subject") && values[1] == t.subject
      && labels[2] == Ascii("ephemeral-pub-key") && values[2] == t.ephemeralPub
      && labels[3] == Ascii("request-id") && values[3] == OrEmpty(t.requestId)
      && labels[4] == Ascii("client-version") && values[4] == OrEmpty(t.clientVersion)
      && labels[5] == Ascii("encrypted-headers") && values[5] == OrEmpty(t.encryptedHeaders)
      && labels[6] == Ascii("payload") && values[6] == t.payload
      && EncodeFields(labels[..0], values[..0]) == []
  {}

  lemma Fed(t: SignatureTranscript, start: Str, fed: Str, k: nat)
    requires k < 7
    requires fed == start + EncodeFields(Labels()[..k], Values(t)[..k]) + LenPrefixed(Labels()[k], Values(t)[k])
    ensures fed == start + EncodeFields(Labels()[..k + 1], Values(t)[..k + 1])
  {
    hide LenPrefixed, Labels, Values, EncodeFields;
    EncodeUpTo(t, k);
    Regroup(start, EncodeFields(Labels()[..k], Values(t)[..k]), LenPrefixed(Labels()[k], Values(t)[k]));
  }

  // ----- reading it back

  /** One field under its label, and what follows it. */
  function DecodeField(tag: Str, bytes: Str): Option<(Str, Str)> {
    if tag <= bytes && |bytes| >= |tag| + 8 then
      var n, rest := Number(bytes[|tag|..|tag| + 8]), bytes[|tag| + 8..];
      if n <= |rest| then Some((rest[..n], rest[n..])) else None
    else None
  }

  /** The values under these labels, with nothing after them. */
  function DecodeFields(labels: seq<Str>, bytes: Str): Option<seq<Str>>
    decreases labels
  {
    if labels == [] then if bytes == [] then Some([]) else None
    else
      match DecodeField(labels[0], bytes)
      case None => None
      case Some((value, rest)) =>
        match DecodeFields(labels[1..], rest)
        case None => None
        case Some(values) => Some([value] + values)
  }

  function IfSet(value: Str): Option<Str> {
    if value == [] then None else Some(value)
  }

  /** An optional field that is empty is taken for an absent one. */
  function Normal(t: SignatureTranscript): SignatureTranscript {
    t.(requestId := IfSet(OrEmpty(t.requestId)), clientVersion := IfSet(OrEmpty(t.clientVersion)),
       encryptedHeaders := IfSet(OrEmpty(t.encryptedHeaders)))
  }

  function Decode(bytes: Str): Option<SignatureTranscript> {
    match DecodeFields(Labels(), bytes)
    case None => None
    case Some(values) =>
      if |values| == 7 && values[0] == VERSION then
        Some(SignatureTranscript(values[1], values[2], IfSet(values[3]), IfSet(values[4]), IfSet(values[5]), values[6]))
      else None
  }

  lemma DecodeParts(tag: Str, length: Str, tail: Str)
    requires |length| == 8
    ensures DecodeField(tag, tag + length + tail) ==
            if Number(length) <= |tail| then Some((tail[..Number(length)], tail[Number(length)..])) else None
  {
    hide Number;
    var bytes := tag + length + tail;
    assert bytes[|tag|..|tag| + 8] == length;
    assert bytes[|tag| + 8..] == tail;
  }

  lemma DecodeFieldOf(tag: Str, value: Str, rest: Str)
    requires |value| < U64_LIMIT
    ensures DecodeField(tag, LenPrefixed(tag, value) + rest) == Some((value, rest))
  {
    hide DecodeField, Number, BigEndian;
    var length, tail := BigEndian(|value| % U64_LIMIT, 8), value + rest;
    PowerOfEight();
    NumberOfBigEndian(|value|, 8);
    Regroup(tag + length, value, rest);
    DecodeParts(tag, length, tail);
    Halves(value, rest);
  }

  lemma Halves(a: Str, b: Str)
    ensures (a + b)[..|a|] == a && (a + b)[|a|..] == b
  {}

  lemma {:induction false} DecodeFieldsOf(labels: seq<Str>, values: seq<Str>)
    requires |labels| == |values| && forall i | 0 <= i < |values| :: |values[i]| < U64_LIMIT
    ensures DecodeFields(labels, EncodeFields(labels, values)) == Some(values)
  {
    hide LenPrefixed, DecodeField;
    if labels != [] {
      DecodeFieldsOf(labels[1..], values[1..]);
      DecodeFieldOf(labels[0], values[0], EncodeFields(labels[1..], values[1..]));
      assert values == [values[0]] + values[1..];
    }
  }

  lemma DecodedShape(tag: Str, bytes: Str)
    requires DecodeField(tag, bytes).Some?
    ensures |bytes| >= |tag| + 8 && bytes[..|tag|] == tag
    ensures
      var length, tail := bytes[|tag|..|tag| + 8], bytes[|tag| + 8..];
      Number(length) <= |tail| && DecodeField(tag, bytes).value == (tail[..Number(length)], tail[Number(length)..])
  {
    hide Number;
  }

  lemma DecodedField(tag: Str, bytes: Str)
    requires DecodeField(tag, bytes).Some?
    ensures
      var (value, rest) := DecodeField(tag, bytes).value;
      |value| < U64_LIMIT && bytes == LenPrefixed(tag, value) + rest
  {
    hide BigEndian, Number, DecodeField;
    DecodedShape(tag, bytes);
    var length, tail := bytes[|tag|..|tag| + 8], bytes[|tag| + 8..];
    var n := Number(length);
    BigEndianOfNumber(length);
    PowerOfEight();
    InThree(bytes, |tag|);
    InTwo(tail, n);
    Regroup(tag + length, tail[..n], tail[n..]);
  }

  lemma InThree(bytes: Str, i: nat)
    requires i + 8 <= |bytes|
    ensures bytes == bytes[..i] + bytes[i..i + 8] + bytes[i + 8..]
  {}

  lemma InTwo(bytes: Str, i: nat)
    requires i <= |bytes|
    ensures bytes == bytes[..i] + bytes[i..]
  {}

  lemma {:induction false} DecodedFields(labels: seq<Str>, bytes: Str)
    requires DecodeFields(labels, bytes).Some?
    ensures
      var values := DecodeFields(labels, bytes).value;
      && |values| == |labels| && EncodeFields(labels, values) == bytes
      && forall i | 0 <= i < |values| :: |values[i]| < U64_LIMIT
    decreases labels
  {
    hide LenPrefixed, DecodeField;
    if labels != [] {
      DecodedField(labels[0], bytes);
      DecodedFields(labels[1..], DecodeField(labels[0], bytes).value.1);
    }
  }

  /** Every value is shorter than 2^64 bytes. */
  predicate Short(t: SignatureTranscript) {
    forall i | 0 <= i < 7 :: |Values(t)[i]| < U64_LIMIT
  }

  /** Decoding inverts encoding, up to an empty optional field. */
  lemma EncodeDecodes(t: SignatureTranscript)
    requires Short(t)
    ensures Decode(Encode(t)) == Some(Normal(t))
  {
    hide EncodeFields, DecodeFields, Labels, VERSION;
    DecodeFieldsOf(Labels(), Values(t));
  }

  /** The decoder accepts nothing but encodings. */
  lemma DecodeEncodes(bytes: Str)
    requires Decode(bytes).Some?
    ensures
      var t := Decode(bytes).value;
      Encode(t) == bytes && Normal(t) == t && Short(t)
  {
    hide EncodeFields, DecodeFields, Labels, VERSION;
    DecodedFields(Labels(), bytes);
    var t := Decode(bytes).value;
    assert Values(t) == DecodeFields(Labels(), bytes).value;
  }

  /** Two transcripts have the same encoding exactly when they differ in nothing but an optional field that
      is absent in one and empty in the other. */
  lemma EncodeIsInjective(a: SignatureTranscript, b: SignatureTranscript)
    requires Short(a) && Short(b)
    ensures Encode(a) == Encode(b) <==> Normal(a) == Normal(b)
  {
    hide EncodeFields, DecodeFields, Labels, VERSION, Decode;
    EncodeDecodes(a);
    EncodeDecodes(b);
    if Normal(a) == Normal(b) {
      SameValues(a, b);
    }
  }

  lemma SameValues(a: SignatureTranscript, b: SignatureTranscript)
    requires Normal(a) == Normal(b)
    ensures Values(a) == Values(b)
  {
    assert forall x: Option<Str> :: OrEmpty(IfSet(OrEmpty(x))) == OrEmpty(x);
    assert OrEmpty(Normal(a).requestId) == OrEmpty(Normal(b).requestId);
    assert OrEmpty(Normal(a).clientVersion) == OrEmpty(Normal(b).clientVersion);
    assert OrEmpty(Normal(a).encryptedHeaders) == OrEmpty(Normal(b).encryptedHeaders);
  }
}
