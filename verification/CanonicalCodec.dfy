/**
 How OPP payloads and headers become bytes before they are hashed. No field is ever left out, not
 even one that holds its default, and the order of fields is fixed; the wire format underneath is
 that of the "Base 128 Varints" and "Length-Delimited Records" sections of the Protocol Buffers
 Encoding guide. The decoder below accepts exactly the byte strings the encoder makes.
 */
module CanonicalCodec {
  import opened Wrappers

  type Byte = x: int | 0 <= x < 256
  type Bytes = seq<Byte>

  // ----- varints

  /** Base-128, least significant group first, the continuation bit on every group but the last. */
  function Varint(value: nat): (out: Bytes)
    ensures out != []
  {
    if value < 0x80 then [value]
    else [value % 0x80 + 0x80] + Varint(value / 0x80)
  }

  /** A value is its low seven bits and the rest shifted up. */
  lemma Groups(low: nat, high: nat)
    requires low < 0x80
    ensures (low + 0x80 * high) / 0x80 == high && (low + 0x80 * high) % 0x80 == low
  {}

  /** The first group of a longer varint, and the varint of the rest. */
  lemma VarintGroups(value: nat)
    requires value >= 0x80
    ensures Varint(value)[0] == value % 0x80 + 0x80 >= 0x80 && Varint(value)[1..] == Varint(value / 0x80)
    ensures value / 0x80 > 0 && value == value % 0x80 + 0x80 * (value / 0x80)
  {}

  method CanonicalVarint(value: nat) returns (out: Bytes)
    ensures out == Varint(value)
  {
    out := [];
    var left := value;
    while left >= 0x80
      invariant out + Varint(left) == Varint(value)
    {
      out := out + [left % 0x80 + 0x80];
      left := left / 0x80;
    }
    out := out + [left];
  }

  /** Read one varint, refusing a padded spelling of it. */
  function ParseVarint(bytes: Bytes): (r: Option<(nat, Bytes)>)
    ensures r.Some? ==> |r.value.1| < |bytes|
  {
    if bytes == [] then None
    else if bytes[0] < 0x80 then Some((bytes[0], bytes[1..]))
    else
      var (high, rest) :- ParseVarint(bytes[1..]);
      if high == 0 then None else Some((bytes[0] - 0x80 + 0x80 * high, rest))
  }

  lemma {:induction false} ParseVarintOfVarint(value: nat, rest: Bytes)
    ensures ParseVarint(Varint(value) + rest) == Some((value, rest))
  {
    if value < 0x80 {
      assert (Varint(value) + rest)[1..] == rest;
    } else {
      ParseVarintOfVarint(value / 0x80, rest);
      VarintGroups(value);
      assert (Varint(value) + rest)[1..] == Varint(value / 0x80) + rest;
    }
  }

  lemma {:induction false} ParsedVarintIsCanonical(bytes: Bytes)
    requires ParseVarint(bytes).Some?
    ensures var (value, rest) := ParseVarint(bytes).value; bytes == Varint(value) + rest
  {
    if bytes[0] >= 0x80 {
      ParsedVarintIsCanonical(bytes[1..]);
      var (high, rest) := ParseVarint(bytes[1..]).value;
      Groups(bytes[0] - 0x80, high);
      assert bytes == [bytes[0]] + (Varint(high) + rest);
    }
  }

  /** Varints are prefix-free: what follows one cannot change how it reads. */
  lemma VarintsArePrefixFree(a: nat, b: nat, afterA: Bytes, afterB: Bytes)
    requires Varint(a) + afterA == Varint(b) + afterB
    ensures a == b && afterA == afterB
  {
    ParseVarintOfVarint(a, afterA);
    ParseVarintOfVarint(b, afterB);
  }

  /** Any base-128 spelling, padded or not: continuation bits on all groups but the last. */
  ghost predicate Spelling(bytes: Bytes) {
    && bytes != [] && bytes[|bytes| - 1] < 0x80
    && forall i :: 0 <= i < |bytes| - 1 ==> bytes[i] >= 0x80
  }

  function SpelledValue(bytes: Bytes): nat
    requires Spelling(bytes)
  {
    if |bytes| == 1 then bytes[0] else bytes[0] - 0x80 + 0x80 * SpelledValue(bytes[1..])
  }

  lemma {:induction false} VarintSpells(value: nat)
    ensures Spelling(Varint(value)) && SpelledValue(Varint(value)) == value
  {
    if value < 0x80 {
      return;
    }
    VarintSpells(value / 0x80);
    VarintGroups(value);
    var out, rest := Varint(value), Varint(value / 0x80);
    assert out == [out[0]] + rest;
  }

  /** Varints are minimal: no spelling of a value is shorter, and only the canonical one is as short. */
  lemma {:induction false} VarintIsMinimal(bytes: Bytes)
    requires Spelling(bytes)
    ensures |Varint(SpelledValue(bytes))| <= |bytes|
    ensures |Varint(SpelledValue(bytes))| == |bytes| ==> bytes == Varint(SpelledValue(bytes))
  {
    if |bytes| == 1 {
      return;
    }
    var rest := bytes[1..];
    var high, value := SpelledValue(rest), SpelledValue(bytes);
    VarintIsMinimal(rest);
    Groups(bytes[0] - 0x80, high);
    if high > 0 {
      assert Varint(value) == [bytes[0]] + Varint(high);
      assert bytes == [bytes[0]] + rest;
    }
  }

  // ----- fields

  const WIRE_TYPE_VARINT := 0
  const WIRE_TYPE_LENGTH_DELIMITED := 2

  function Tag(field: nat, wireType: nat): Bytes {
    Varint(field * 8 + wireType)
  }

  function VarintField(field: nat, value: nat): Bytes {
    Tag(field, WIRE_TYPE_VARINT) + Varint(value)
  }

  /** A bytes field; a sub-message field is the same record around an encoded body. */
  function BytesField(field: nat, bytes: Bytes): Bytes {
    Tag(field, WIRE_TYPE_LENGTH_DELIMITED) + Varint(|bytes|) + bytes
  }

  function Expect(prefix: Bytes, bytes: Bytes): Option<Bytes> {
    if prefix <= bytes then Some(bytes[|prefix|..]) else None
  }

  function ParseVarintField(field: nat, bytes: Bytes): (r: Option<(nat, Bytes)>)
    ensures r.Some? ==> |r.value.1| < |bytes|
  {
    var rest :- Expect(Tag(field, WIRE_TYPE_VARINT), bytes);
    ParseVarint(rest)
  }

  function ParseBytesField(field: nat, bytes: Bytes): (r: Option<(Bytes, Bytes)>)
    ensures r.Some? ==> |r.value.1| < |bytes|
  {
    var rest :- Expect(Tag(field, WIRE_TYPE_LENGTH_DELIMITED), bytes);
    var (length, body) :- ParseVarint(rest);
    if length <= |body| then Some((body[..length], body[length..])) else None
  }

  /** Reading a varint field succeeds on exactly the bytes that start with its encoding. */
  lemma VarintFieldExact(field: nat, bytes: Bytes, value: nat, rest: Bytes)
    ensures ParseVarintField(field, bytes) == Some((value, rest)) <==> bytes == VarintField(field, value) + rest
  {
    var tag := Tag(field, WIRE_TYPE_VARINT);
    if bytes == VarintField(field, value) + rest {
      assert bytes == tag + (Varint(value) + rest);
      assert bytes[|tag|..] == Varint(value) + rest;
      ParseVarintOfVarint(value, rest);
    }
    if ParseVarintField(field, bytes) == Some((value, rest)) {
      ParsedVarintIsCanonical(bytes[|tag|..]);
      assert bytes == tag + bytes[|tag|..];
    }
  }

  /** A bytes field with what follows it, as the parser takes it apart. */
  lemma BytesFieldParts(field: nat, body: Bytes, rest: Bytes)
    ensures BytesField(field, body) + rest == Tag(field, WIRE_TYPE_LENGTH_DELIMITED) + (Varint(|body|) + (body + rest))
  {
    var tag, length := Tag(field, WIRE_TYPE_LENGTH_DELIMITED), Varint(|body|);
    Regrouped(tag, length, body + rest);
    Regrouped(tag + length, body, rest);
  }

  lemma BytesFieldParses(field: nat, body: Bytes, rest: Bytes)
    ensures ParseBytesField(field, BytesField(field, body) + rest) == Some((body, rest))
  {
    var tag := Tag(field, WIRE_TYPE_LENGTH_DELIMITED);
    BytesFieldParts(field, body, rest);
    assert (tag + (Varint(|body|) + (body + rest)))[|tag|..] == Varint(|body|) + (body + rest);
    ParseVarintOfVarint(|body|, body + rest);
    assert (body + rest)[..|body|] == body && (body + rest)[|body|..] == rest;
  }

  lemma ParsedBytesFieldIsCanonical(field: nat, bytes: Bytes)
    requires ParseBytesField(field, bytes).Some?
    ensures var (body, rest) := ParseBytesField(field, bytes).value; bytes == BytesField(field, body) + rest
  {
    var tag := Tag(field, WIRE_TYPE_LENGTH_DELIMITED);
    var (length, tail) := ParseVarint(bytes[|tag|..]).value;
    ParsedVarintIsCanonical(bytes[|tag|..]);
    BytesFieldParts(field, tail[..length], tail[length..]);
    assert tail[..length] + tail[length..] == tail;
    assert tag + bytes[|tag|..] == bytes;
  }

  /** Every length prefix is exact: a bytes field gives back precisely its body and what follows. */
  lemma BytesFieldExact(field: nat, bytes: Bytes, body: Bytes, rest: Bytes)
    ensures ParseBytesField(field, bytes) == Some((body, rest)) <==> bytes == BytesField(field, body) + rest
  {
    BytesFieldParses(field, body, rest);
    if ParseBytesField(field, bytes).Some? {
      ParsedBytesFieldIsCanonical(field, bytes);
    }
  }

  // ----- attestations and payloads

  datatype Attestation = Attestation(kind: nat, dataSize: nat, data: Bytes)

  function CanonicalAttestation(attestation: Attestation): Bytes {
    VarintField(1, attestation.kind) + (VarintField(2, attestation.dataSize) + BytesField(3, attestation.data))
  }

  function CanonicalAttestations(attestations: seq<Attestation>): Bytes {
    if attestations == [] then []
    else BytesField(2, CanonicalAttestation(attestations[0])) + CanonicalAttestations(attestations[1..])
  }

  function CanonicalPayload(version: nat, attestations: seq<Attestation>): Bytes {
    VarintField(1, version) + CanonicalAttestations(attestations)
  }

  function ParseAttestation(bytes: Bytes): Option<Attestation> {
    var (kind, rest) :- ParseVarintField(1, bytes);
    var (dataSize, rest) :- ParseVarintField(2, rest);
    var (data, rest) :- ParseBytesField(3, rest);
    if rest == [] then Some(Attestation(kind, dataSize, data)) else None
  }

  function ParseAttestations(bytes: Bytes): Option<seq<Attestation>>
    decreases |bytes|
  {
    if bytes == [] then Some([])
    else
      var (body, rest) :- ParseBytesField(2, bytes);
      var first :- ParseAttestation(body);
      var others :- ParseAttestations(rest);
      Some([first] + others)
  }

  function ParsePayload(bytes: Bytes): Option<(nat, seq<Attestation>)> {
    var (version, rest) :- ParseVarintField(1, bytes);
    var attestations :- ParseAttestations(rest);
    Some((version, attestations))
  }

  lemma AttestationExact(bytes: Bytes, attestation: Attestation)
    ensures ParseAttestation(bytes) == Some(attestation) <==> bytes == CanonicalAttestation(attestation)
  {
    var data := BytesField(3, attestation.data);
    var sized := VarintField(2, attestation.dataSize) + data;
    VarintFieldExact(1, bytes, attestation.kind, sized);
    VarintFieldExact(2, sized, attestation.dataSize, data);
    BytesFieldExact(3, data, attestation.data, []);
    assert data == data + [];
    if ParseAttestation(bytes) == Some(attestation) {
      var (_, afterKind) := ParseVarintField(1, bytes).value;
      var (_, afterSize) := ParseVarintField(2, afterKind).value;
      VarintFieldExact(1, bytes, attestation.kind, afterKind);
      VarintFieldExact(2, afterKind, attestation.dataSize, afterSize);
      BytesFieldExact(3, afterSize, attestation.data, []);
    }
  }

  lemma AttestationParsesBefore(first: Attestation, rest: Bytes)
    requires ParseAttestations(rest).Some?
    ensures ParseAttestations(BytesField(2, CanonicalAttestation(first)) + rest) == Some([first] + ParseAttestations(rest).value)
  {
    BytesFieldParses(2, CanonicalAttestation(first), rest);
    AttestationExact(CanonicalAttestation(first), first);
  }

  lemma {:induction false} AttestationsParse(attestations: seq<Attestation>)
    ensures ParseAttestations(CanonicalAttestations(attestations)) == Some(attestations)
  {
    if attestations == [] {
      return;
    }
    AttestationsParse(attestations[1..]);
    AttestationParsesBefore(attestations[0], CanonicalAttestations(attestations[1..]));
    assert [attestations[0]] + attestations[1..] == attestations;
  }

  lemma {:induction false} ParsedAttestationsAreCanonical(bytes: Bytes)
    requires ParseAttestations(bytes).Some?
    ensures bytes == CanonicalAttestations(ParseAttestations(bytes).value)
    decreases |bytes|
  {
    if bytes != [] {
      var (body, rest) := ParseBytesField(2, bytes).value;
      BytesFieldExact(2, bytes, body, rest);
      AttestationExact(body, ParseAttestation(body).value);
      ParsedAttestationsAreCanonical(rest);
      var all := ParseAttestations(bytes).value;
      assert all[0] == ParseAttestation(body).value && all[1..] == ParseAttestations(rest).value;
    }
  }

  /** The payload decoder inverts the encoder and accepts nothing else, for any number of attestations. */
  lemma PayloadExact(bytes: Bytes, version: nat, attestations: seq<Attestation>)
    ensures ParsePayload(bytes) == Some((version, attestations)) <==> bytes == CanonicalPayload(version, attestations)
  {
    VarintFieldExact(1, bytes, version, CanonicalAttestations(attestations));
    AttestationsParse(attestations);
    if ParsePayload(bytes) == Some((version, attestations)) {
      var (_, rest) := ParseVarintField(1, bytes).value;
      VarintFieldExact(1, bytes, version, rest);
      ParsedAttestationsAreCanonical(rest);
    }
  }

  /** Equal payload encodings force equal versions and attestation lists. */
  lemma PayloadInjective(v1: nat, a1: seq<Attestation>, v2: nat, a2: seq<Attestation>)
    requires CanonicalPayload(v1, a1) == CanonicalPayload(v2, a2)
    ensures v1 == v2 && a1 == a2
  {
    PayloadExact(CanonicalPayload(v1, a1), v1, a1);
    PayloadExact(CanonicalPayload(v1, a1), v2, a2);
  }

  // ----- headers

  datatype Header = Header(
    messageId: Bytes,
    previousMessageId: Bytes,
    payloadSize: nat,
    payloadChecksum: Bytes,
    timestamp: nat,
    headerChecksum: Bytes
  )

  function CanonicalChainId(kind: nat, id: nat): Bytes {
    VarintField(1, kind) + VarintField(2, id)
  }

  /** Both endpoints are the reserved default: a zero kind and a zero id. */
  function CanonicalEndpointsDefault(): Bytes {
    BytesField(1, CanonicalChainId(0, 0)) + BytesField(2, CanonicalChainId(0, 0))
  }

  /** The header from its payload size on; field 4 is reserved and never encoded. */
  function CanonicalChecks(header: Header): Bytes {
    VarintField(5, header.payloadSize)
    + (BytesField(6, header.payloadChecksum)
       + (VarintField(7, header.timestamp)
          + BytesField(8, header.headerChecksum)))
  }

  /** The header after its endpoints. */
  function CanonicalIds(header: Header): Bytes {
    BytesField(2, header.messageId) + (BytesField(3, header.previousMessageId) + CanonicalChecks(header))
  }

  function CanonicalHeader(header: Header): Bytes {
    BytesField(1, CanonicalEndpointsDefault()) + CanonicalIds(header)
  }

  function ParseChecks(messageId: Bytes, previousMessageId: Bytes, bytes: Bytes): (r: Option<Header>)
    ensures r.Some? ==> r.value.messageId == messageId && r.value.previousMessageId == previousMessageId
  {
    var (payloadSize, rest) :- ParseVarintField(5, bytes);
    var (payloadChecksum, rest) :- ParseBytesField(6, rest);
    var (timestamp, rest) :- ParseVarintField(7, rest);
    var (headerChecksum, rest) :- ParseBytesField(8, rest);
    if rest == [] then Some(Header(messageId, previousMessageId, payloadSize, payloadChecksum, timestamp, headerChecksum))
    else None
  }

  function ParseIds(bytes: Bytes): Option<Header> {
    var (messageId, rest) :- ParseBytesField(2, bytes);
    var (previousMessageId, rest) :- ParseBytesField(3, rest);
    ParseChecks(messageId, previousMessageId, rest)
  }

  function ParseHeader(bytes: Bytes): Option<Header> {
    var rest :- Expect(BytesField(1, CanonicalEndpointsDefault()), bytes);
    ParseIds(rest)
  }

  lemma ChecksParse(header: Header)
    ensures ParseChecks(header.messageId, header.previousMessageId, CanonicalChecks(header)) == Some(header)
  {
    var checksum := BytesField(8, header.headerChecksum);
    var time := VarintField(7, header.timestamp) + checksum;
    var payload := BytesField(6, header.payloadChecksum) + time;
    VarintFieldExact(5, CanonicalChecks(header), header.payloadSize, payload);
    BytesFieldExact(6, payload, header.payloadChecksum, time);
    VarintFieldExact(7, time, header.timestamp, checksum);
    BytesFieldExact(8, checksum, header.headerChecksum, []);
    assert checksum == checksum + [];
  }

  lemma ParsedChecksAreCanonical(messageId: Bytes, previousMessageId: Bytes, bytes: Bytes)
    requires ParseChecks(messageId, previousMessageId, bytes).Some?
    ensures bytes == CanonicalChecks(ParseChecks(messageId, previousMessageId, bytes).value)
  {
    var header := ParseChecks(messageId, previousMessageId, bytes).value;
    var (_, payload) := ParseVarintField(5, bytes).value;
    var (_, time) := ParseBytesField(6, payload).value;
    var (_, checksum) := ParseVarintField(7, time).value;
    VarintFieldExact(5, bytes, header.payloadSize, payload);
    BytesFieldExact(6, payload, header.payloadChecksum, time);
    VarintFieldExact(7, time, header.timestamp, checksum);
    BytesFieldExact(8, checksum, header.headerChecksum, []);
    assert checksum == BytesField(8, header.headerChecksum);
  }

  lemma IdsParse(header: Header)
    ensures ParseIds(CanonicalIds(header)) == Some(header)
  {
    var previous := BytesField(3, header.previousMessageId) + CanonicalChecks(header);
    BytesFieldParses(2, header.messageId, previous);
    BytesFieldParses(3, header.previousMessageId, CanonicalChecks(header));
    ChecksParse(header);
  }

  lemma ParsedIdsAreCanonical(bytes: Bytes)
    requires ParseIds(bytes).Some?
    ensures bytes == CanonicalIds(ParseIds(bytes).value)
  {
    var (messageId, after) := ParseBytesField(2, bytes).value;
    var (previousMessageId, checks) := ParseBytesField(3, after).value;
    BytesFieldExact(2, bytes, messageId, after);
    BytesFieldExact(3, after, previousMessageId, checks);
    ParsedChecksAreCanonical(messageId, previousMessageId, checks);
  }

  lemma ExpectExact(prefix: Bytes, bytes: Bytes, rest: Bytes)
    ensures Expect(prefix, bytes) == Some(rest) <==> bytes == prefix + rest
  {
    if bytes == prefix + rest {
      assert bytes[|prefix|..] == rest;
    }
  }

  /** The header decoder inverts the encoder and accepts nothing else. */
  lemma HeaderExact(bytes: Bytes, header: Header)
    ensures ParseHeader(bytes) == Some(header) <==> bytes == CanonicalHeader(header)
  {
    var endpoints := BytesField(1, CanonicalEndpointsDefault());
    ExpectExact(endpoints, bytes, CanonicalIds(header));
    IdsParse(header);
    if ParseHeader(bytes) == Some(header) {
      var rest := Expect(endpoints, bytes).value;
      ExpectExact(endpoints, bytes, rest);
      ParsedIdsAreCanonical(rest);
    }
  }

  /** Equal header encodings force every field equal. */
  lemma HeaderInjective(a: Header, b: Header)
    requires CanonicalHeader(a) == CanonicalHeader(b)
    ensures a == b
  {
    HeaderExact(CanonicalHeader(a), a);
    HeaderExact(CanonicalHeader(a), b);
  }

  // ----- the bytes themselves

  lemma DefaultEndpointsBytes()
    ensures BytesField(1, CanonicalEndpointsDefault()) ==
      [0x0A, 0x0C, 0x0A, 0x04, 0x08, 0x00, 0x10, 0x00, 0x12, 0x04, 0x08, 0x00, 0x10, 0x00]
  {
    assert CanonicalChainId(0, 0) == [0x08, 0x00, 0x10, 0x00];
    assert CanonicalEndpointsDefault() == [0x0A, 0x04, 0x08, 0x00, 0x10, 0x00, 0x12, 0x04, 0x08, 0x00, 0x10, 0x00];
  }

  lemma DefaultIdsBytes()
    ensures CanonicalIds(Header([], [], 0, [], 0, [])) ==
      [0x12, 0x00, 0x1A, 0x00, 0x28, 0x00, 0x32, 0x00, 0x38, 0x00, 0x42, 0x00]
  {
    assert CanonicalChecks(Header([], [], 0, [], 0, [])) == [0x28, 0x00, 0x32, 0x00, 0x38, 0x00, 0x42, 0x00];
  }

  /** The field numbers and the layout, spelled out on the header whose every own field is the default. */
  lemma DefaultHeaderBytes()
    ensures CanonicalHeader(Header([], [], 0, [], 0, [])) ==
      [0x0A, 0x0C, 0x0A, 0x04, 0x08, 0x00, 0x10, 0x00, 0x12, 0x04, 0x08, 0x00, 0x10, 0x00,
       0x12, 0x00, 0x1A, 0x00, 0x28, 0x00, 0x32, 0x00, 0x38, 0x00, 0x42, 0x00]
  {
    DefaultEndpointsBytes();
    DefaultIdsBytes();
  }

  lemma VarintFieldBytes(field: nat, value: nat)
    requires 0 < field < 16
    ensures VarintField(field, value) == [field * 8] + Varint(value)
  {}

  lemma BytesFieldBytes(field: nat, bytes: Bytes)
    requires 0 < field < 16
    ensures BytesField(field, bytes) == [field * 8 + 2] + Varint(|bytes|) + bytes
  {}

  /** The part of a header after its endpoints, slot by slot. */
  function IdBytes(messageId: Bytes, previousMessageId: Bytes): Bytes {
    [0x12] + Varint(|messageId|) + messageId + ([0x1A] + Varint(|previousMessageId|) + previousMessageId)
  }

  function CheckBytes(payloadSize: nat, payloadChecksum: Bytes, timestamp: nat, headerChecksum: Bytes): Bytes {
    [0x28] + Varint(payloadSize)
    + ([0x32] + Varint(|payloadChecksum|) + payloadChecksum)
    + ([0x38] + Varint(timestamp))
    + ([0x42] + Varint(|headerChecksum|) + headerChecksum)
  }

  /** Every header's bytes: each slot's tag, and which value stands behind it. */
  lemma HeaderBytes(header: Header)
    ensures CanonicalHeader(header) ==
      [0x0A, 0x0C, 0x0A, 0x04, 0x08, 0x00, 0x10, 0x00, 0x12, 0x04, 0x08, 0x00, 0x10, 0x00]
      + (IdBytes(header.messageId, header.previousMessageId)
         + CheckBytes(header.payloadSize, header.payloadChecksum, header.timestamp, header.headerChecksum))
  {
    DefaultEndpointsBytes();
    BytesFieldBytes(2, header.messageId);
    BytesFieldBytes(3, header.previousMessageId);
    ChecksBytes(header);
    Regrouped(BytesField(2, header.messageId), BytesField(3, header.previousMessageId), CanonicalChecks(header));
  }

  lemma ChecksBytes(header: Header)
    ensures CanonicalChecks(header)
         == CheckBytes(header.payloadSize, header.payloadChecksum, header.timestamp, header.headerChecksum)
  {
    VarintFieldBytes(5, header.payloadSize);
    BytesFieldBytes(6, header.payloadChecksum);
    VarintFieldBytes(7, header.timestamp);
    BytesFieldBytes(8, header.headerChecksum);
    var size, checksum := VarintField(5, header.payloadSize), BytesField(6, header.payloadChecksum);
    var time, own := VarintField(7, header.timestamp), BytesField(8, header.headerChecksum);
    Regrouped(checksum, time, own);
    Regrouped(size, checksum, time + own);
    Regrouped(size + checksum, time, own);
  }

  lemma Regrouped(a: Bytes, b: Bytes, c: Bytes)
    ensures a + (b + c) == a + b + c
  {}

  /** Every payload's bytes: the version, then a record for each attestation, in their order. */
  lemma {:induction false} PayloadBytes(version: nat, attestations: seq<Attestation>, last: Attestation)
    ensures CanonicalPayload(version, []) == [0x08] + Varint(version)
    ensures var body := [0x08] + Varint(last.kind) + ([0x10] + Varint(last.dataSize)) + ([0x1A] + Varint(|last.data|) + last.data);
            CanonicalPayload(version, attestations + [last])
            == CanonicalPayload(version, attestations) + ([0x12] + Varint(|body|) + body)
  {
    VarintFieldBytes(1, version);
    AttestationBytes(last);
    AttestationsAppend(attestations, last);
    BytesFieldBytes(2, CanonicalAttestation(last));
    Regrouped(VarintField(1, version), CanonicalAttestations(attestations), BytesField(2, CanonicalAttestation(last)));
  }

  lemma AttestationBytes(attestation: Attestation)
    ensures CanonicalAttestation(attestation)
         == [0x08] + Varint(attestation.kind) + ([0x10] + Varint(attestation.dataSize))
            + ([0x1A] + Varint(|attestation.data|) + attestation.data)
  {
    VarintFieldBytes(1, attestation.kind);
    VarintFieldBytes(2, attestation.dataSize);
    BytesFieldBytes(3, attestation.data);
    Regrouped(VarintField(1, attestation.kind), VarintField(2, attestation.dataSize), BytesField(3, attestation.data));
  }

  lemma {:induction false} AttestationsAppend(attestations: seq<Attestation>, last: Attestation)
    ensures CanonicalAttestations(attestations + [last])
         == CanonicalAttestations(attestations) + BytesField(2, CanonicalAttestation(last))
  {
    if attestations == [] {
      assert ([] + [last])[1..] == [];
      return;
    }
    AttestationsAppend(attestations[1..], last);
    assert (attestations + [last])[1..] == attestations[1..] + [last];
    Regrouped(BytesField(2, CanonicalAttestation(attestations[0])), CanonicalAttestations(attestations[1..]),
              BytesField(2, CanonicalAttestation(last)));
  }

  /** And on a payload of one attestation whose fields each fit one varint group. */
  lemma SmallPayloadBytes(version: nat, kind: nat, data: Bytes)
    requires version < 0x80 && kind < 0x80 && |data| < 0x7A
    ensures CanonicalPayload(version, [Attestation(kind, |data|, data)]) ==
      [0x08, version, 0x12, |data| + 6, 0x08, kind, 0x10, |data|, 0x1A, |data|] + data
  {
    var attestation := Attestation(kind, |data|, data);
    assert CanonicalAttestation(attestation) == [0x08, kind, 0x10, |data|, 0x1A, |data|] + data;
    assert [attestation][1..] == [];
    assert CanonicalAttestations([attestation]) == [0x12, |data| + 6] + CanonicalAttestation(attestation);
  }
}
