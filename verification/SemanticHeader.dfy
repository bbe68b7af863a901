/**
 The checksums and message id derived for one OPP message, and the chain of ids that feeding each
 derived id into the next message builds. The hash is any function from byte strings to 32 bytes.
 */
module SemanticHeader {
  import opened CanonicalCodec
  import opened Wrappers

  type Digest = d: Bytes | |d| == 32 witness seq(32, _ => 0)
  type Hash = Bytes -> Digest

  datatype HeaderError = SequenceOverflow

  // ----- the sequence number in a message id

  function BigEndian(bytes: Bytes): nat {
    if bytes == [] then 0 else BigEndian(bytes[..|bytes| - 1]) * 256 + bytes[|bytes| - 1]
  }

  function ToBigEndian(value: nat, width: nat): (bytes: Bytes)
    ensures |bytes| == width
  {
    if width == 0 then [] else ToBigEndian(value / 256, width - 1) + [value % 256]
  }

  function Power256(width: nat): nat {
    if width == 0 then 1 else 256 * Power256(width - 1)
  }

  const SEQUENCE_BYTES := 8
  /** 2^64, the first sequence number eight bytes cannot hold. */
  const SEQUENCE_LIMIT := 0x1_0000_0000_0000_0000

  lemma {:induction false} BigEndianRoundTrip(value: nat, width: nat)
    requires value < Power256(width)
    ensures BigEndian(ToBigEndian(value, width)) == value
  {
    if width > 0 {
      BigEndianRoundTrip(value / 256, width - 1);
      assert ToBigEndian(value, width)[..width - 1] == ToBigEndian(value / 256, width - 1);
    }
  }

  lemma SequenceWidth()
    ensures Power256(SEQUENCE_BYTES) == SEQUENCE_LIMIT
  {
    assert Power256(4) == 0x1_0000_0000;
  }

  /** The big-endian number in an id's first eight bytes; 0 at genesis. */
  function MessageSequence(messageId: Bytes): nat {
    if |messageId| < SEQUENCE_BYTES then 0 else BigEndian(messageId[..SEQUENCE_BYTES])
  }

  /** A digest with its first eight bytes replaced by the sequence number. */
  function MessageId(checksum: Digest, sequence: nat): Bytes {
    ToBigEndian(sequence, SEQUENCE_BYTES) + checksum[SEQUENCE_BYTES..]
  }

  /** The derivation as the program runs it: a copied buffer, overwritten in place. */
  method DeriveMessageId(checksum: Digest, sequence: nat) returns (r: Result<array<Byte>, HeaderError>)
    ensures r.Failure? <==> sequence >= SEQUENCE_LIMIT
    ensures r.Success? ==> fresh(r.value) && r.value[..] == MessageId(checksum, sequence)
  {
    if sequence >= SEQUENCE_LIMIT {
      return Failure(SequenceOverflow);
    }
    var out := new Byte[|checksum|](i requires 0 <= i < |checksum| => checksum[i]);
    var spliced := ToBigEndian(sequence, SEQUENCE_BYTES);
    for i := 0 to SEQUENCE_BYTES
      invariant forall j :: 0 <= j < i ==> out[j] == spliced[j]
      invariant forall j :: i <= j < |checksum| ==> out[j] == checksum[j]
    {
      out[i] := spliced[i];
    }
    assert out[..] == spliced + checksum[SEQUENCE_BYTES..];
    return Success(out);
  }

  /** An id spells its sequence number and keeps the digest's tail. */
  lemma MessageIdSpells(checksum: Digest, sequence: nat)
    requires sequence < SEQUENCE_LIMIT
    ensures |MessageId(checksum, sequence)| == 32
    ensures MessageSequence(MessageId(checksum, sequence)) == sequence
    ensures MessageId(checksum, sequence)[SEQUENCE_BYTES..] == checksum[SEQUENCE_BYTES..]
  {
    SequenceWidth();
    BigEndianRoundTrip(sequence, SEQUENCE_BYTES);
    assert MessageId(checksum, sequence)[..SEQUENCE_BYTES] == ToBigEndian(sequence, SEQUENCE_BYTES);
  }

  // ----- one message's header

  datatype Content = Content(kind: nat, data: Bytes)
  datatype HeaderInput = HeaderInput(
    version: nat,
    attestations: seq<Content>,
    timestampMs: nat,
    previousMessageId: Bytes
  )
  datatype DerivedHeader = DerivedHeader(
    payloadSize: nat,
    payloadChecksum: Digest,
    headerChecksum: Digest,
    messageId: Bytes
  )

  /** The attestations with their size written out. */
  function Sized(contents: seq<Content>): (sized: seq<Attestation>)
    ensures |sized| == |contents|
    ensures forall i :: 0 <= i < |contents| ==>
      sized[i] == Attestation(contents[i].kind, |contents[i].data|, contents[i].data)
  {
    seq(|contents|, i requires 0 <= i < |contents| =>
      Attestation(contents[i].kind, |contents[i].data|, contents[i].data))
  }

  function PayloadPreimage(input: HeaderInput): Bytes {
    CanonicalPayload(input.version, Sized(input.attestations))
  }

  /** The header with its id and its own checksum blanked. */
  function BlankedHeader(hash: Hash, input: HeaderInput): Header {
    Header([], input.previousMessageId, |PayloadPreimage(input)|, hash(PayloadPreimage(input)), input.timestampMs, [])
  }

  function HeaderPreimage(hash: Hash, input: HeaderInput): Bytes {
    CanonicalHeader(BlankedHeader(hash, input))
  }

  function DeriveSemanticHeader(hash: Hash, input: HeaderInput): Result<DerivedHeader, HeaderError> {
    var payload := PayloadPreimage(input);
    var headerChecksum := hash(HeaderPreimage(hash, input));
    var sequence := MessageSequence(input.previousMessageId) + 1;
    if sequence >= SEQUENCE_LIMIT then Failure(SequenceOverflow)
    else Success(DerivedHeader(|payload|, hash(payload), headerChecksum, MessageId(headerChecksum, sequence)))
  }

  /** The payload's bytes: the version, then each content with its kind, its own length and its data. */
  lemma PayloadPreimageExtends(input: HeaderInput, last: Content)
    ensures PayloadPreimage(input.(attestations := [])) == [0x08] + Varint(input.version)
    ensures var body := [0x08] + Varint(last.kind) + ([0x10] + Varint(|last.data|)) + ([0x1A] + Varint(|last.data|) + last.data);
            PayloadPreimage(input.(attestations := input.attestations + [last]))
            == PayloadPreimage(input) + ([0x12] + Varint(|body|) + body)
  {
    var sized := Attestation(last.kind, |last.data|, last.data);
    PayloadBytes(input.version, Sized(input.attestations), sized);
    assert Sized(input.attestations + [last]) == Sized(input.attestations) + [sized];
    assert Sized([]) == [];
  }

  /** The hashed header, slot by slot: no id and no checksum of its own, every other field in its place. */
  lemma HeaderPreimageBytes(hash: Hash, input: HeaderInput)
    ensures HeaderPreimage(hash, input) ==
      [0x0A, 0x0C, 0x0A, 0x04, 0x08, 0x00, 0x10, 0x00, 0x12, 0x04, 0x08, 0x00, 0x10, 0x00]
      + (([0x12] + Varint(0) + [] + ([0x1A] + Varint(|input.previousMessageId|) + input.previousMessageId))
         + ([0x28] + Varint(|PayloadPreimage(input)|)
            + ([0x32] + Varint(32) + hash(PayloadPreimage(input)))
            + ([0x38] + Varint(input.timestampMs))
            + ([0x42] + Varint(0) + [])))
  {
    HeaderBytes(BlankedHeader(hash, input));
  }

  /** The sequence number an id carries, spelled out over its eight leading bytes. */
  lemma SequenceInNumbers(id: Bytes)
    ensures |id| < 8 ==> MessageSequence(id) == 0
    ensures |id| >= 8 ==>
      MessageSequence(id)
      == 0x100_0000_0000_0000 * (id[0] as int) + 0x1_0000_0000_0000 * (id[1] as int) + 0x100_0000_0000 * (id[2] as int)
         + 0x1_0000_0000 * (id[3] as int) + 0x100_0000 * (id[4] as int) + 0x1_0000 * (id[5] as int)
         + 0x100 * (id[6] as int) + id[7] as int
  {
    if |id| >= 8 {
      BigEndianPrefix(id, 7);
      BigEndianPrefix(id, 6);
      BigEndianPrefix(id, 5);
      BigEndianPrefix(id, 4);
      BigEndianPrefix(id, 3);
      BigEndianPrefix(id, 2);
      BigEndianPrefix(id, 1);
      BigEndianPrefix(id, 0);
      assert id[..0] == [];
    }
  }

  lemma BigEndianPrefix(bytes: Bytes, n: nat)
    requires n < |bytes|
    ensures BigEndian(bytes[..n + 1]) == BigEndian(bytes[..n]) * 256 + bytes[n]
  {
    assert bytes[..n + 1][..n] == bytes[..n];
  }

  /**
   A derivation fails exactly when the next sequence number takes more than eight bytes. Otherwise
   the id carries that number and agrees with the header's checksum from the ninth byte on, and
   size and checksums are those of the payload and header bytes.
   */
  lemma DerivedFields(hash: Hash, input: HeaderInput)
    ensures DeriveSemanticHeader(hash, input).Failure?
        <==> MessageSequence(input.previousMessageId) + 1 >= 0x1_0000_0000_0000_0000
    ensures DeriveSemanticHeader(hash, input).Success? ==>
      var header := DeriveSemanticHeader(hash, input).value;
      && |header.messageId| == 32
      && MessageSequence(header.messageId) == MessageSequence(input.previousMessageId) + 1
      && header.messageId[8..] == header.headerChecksum[8..]
      && header.headerChecksum == hash(HeaderPreimage(hash, input))
      && header.payloadChecksum == hash(PayloadPreimage(input))
      && header.payloadSize == |PayloadPreimage(input)|
  {
    var sequence := MessageSequence(input.previousMessageId) + 1;
    if sequence < SEQUENCE_LIMIT {
      MessageIdSpells(hash(HeaderPreimage(hash, input)), sequence);
    }
  }

  lemma SizedInjective(a: seq<Content>, b: seq<Content>)
    requires Sized(a) == Sized(b)
    ensures a == b
  {
    forall i | 0 <= i < |a| ensures a[i] == b[i] {
      assert Sized(a)[i] == Sized(b)[i];
    }
  }

  /** Two distinct byte strings with one hash. */
  ghost predicate Collision(hash: Hash, a: Bytes, b: Bytes) {
    a != b && hash(a) == hash(b)
  }

  /**
   Nothing but a hash collision can give two different messages one checksum: either the inputs
   agree in every field, or the two header pre-images, or the two payload pre-images, are distinct
   byte strings with the same hash.
   */
  lemma EqualChecksumsMeanEqualMessages(hash: Hash, a: HeaderInput, b: HeaderInput)
    requires hash(HeaderPreimage(hash, a)) == hash(HeaderPreimage(hash, b))
    ensures a == b
         || Collision(hash, HeaderPreimage(hash, a), HeaderPreimage(hash, b))
         || Collision(hash, PayloadPreimage(a), PayloadPreimage(b))
  {
    if HeaderPreimage(hash, a) == HeaderPreimage(hash, b) {
      HeaderInjective(BlankedHeader(hash, a), BlankedHeader(hash, b));
      if PayloadPreimage(a) == PayloadPreimage(b) {
        PayloadInjective(a.version, Sized(a.attestations), b.version, Sized(b.attestations));
        SizedInjective(a.attestations, b.attestations);
      }
    }
  }

  // ----- the message chain

  datatype Message = Message(version: nat, attestations: seq<Content>, timestampMs: nat)

  /** The ids of messages chained from genesis, each naming its predecessor. */
  function Chain(hash: Hash, messages: seq<Message>): Result<seq<Bytes>, HeaderError> {
    if messages == [] then Success([])
    else
      var n := |messages| - 1;
      var ids :- Chain(hash, messages[..n]);
      Extend(hash, ids, messages[n])
  }

  function Extend(hash: Hash, ids: seq<Bytes>, message: Message): Result<seq<Bytes>, HeaderError> {
    var header :- DeriveSemanticHeader(hash, Continue(message, ids));
    Success(ids + [header.messageId])
  }

  function Continue(message: Message, ids: seq<Bytes>): HeaderInput {
    HeaderInput(message.version, message.attestations, message.timestampMs, if ids == [] then [] else ids[|ids| - 1])
  }

  /** The k-th id of a chain, from zero, is 32 bytes and carries sequence k + 1. */
  ghost predicate Numbered(ids: seq<Bytes>) {
    forall k :: 0 <= k < |ids| ==> |ids[k]| == 32 && MessageSequence(ids[k]) == k + 1
  }

  lemma NextIdIsNumbered(hash: Hash, ids: seq<Bytes>, message: Message)
    requires Numbered(ids)
    ensures var next := Extend(hash, ids, message);
            && (next.Success? <==> |ids| + 1 < SEQUENCE_LIMIT)
            && (next.Success? ==> |next.value| == |ids| + 1 && Numbered(next.value))
  {
    var input := Continue(message, ids);
    assert MessageSequence(input.previousMessageId) == |ids|;
    DerivedFields(hash, input);
  }

  lemma ChainStep(hash: Hash, messages: seq<Message>)
    requires messages != []
    ensures var before := Chain(hash, messages[..|messages| - 1]);
            && (before.Failure? ==> Chain(hash, messages).Failure?)
            && (before.Success? ==> Chain(hash, messages) == Extend(hash, before.value, messages[|messages| - 1]))
  {}

  /** The k-th id keeps the tail of the k-th header's checksum, that header naming the id before it. */
  ghost predicate KeepsChecksum(hash: Hash, messages: seq<Message>, ids: seq<Bytes>, k: nat)
    requires k < |messages| && k < |ids| && |ids[k]| == 32
  {
    var input := HeaderInput(messages[k].version, messages[k].attestations, messages[k].timestampMs,
                             if k == 0 then [] else ids[k - 1]);
    ids[k][8..] == hash(HeaderPreimage(hash, input))[8..]
  }

  /** What a chain of messages comes to: numbered ids, each with its own header's checksum, while the numbers last. */
  ghost predicate NumberedChain(hash: Hash, messages: seq<Message>) {
    var chain := Chain(hash, messages);
    && (chain.Success? <==> |messages| < SEQUENCE_LIMIT)
    && (chain.Success? ==>
          && |chain.value| == |messages| && Numbered(chain.value)
          && forall k :: 0 <= k < |messages| ==> KeepsChecksum(hash, messages, chain.value, k))
  }

  lemma NextIdKeepsChecksum(hash: Hash, messages: seq<Message>, ids: seq<Bytes>)
    requires messages != [] && |ids| == |messages| - 1 && Numbered(ids)
    requires forall k :: 0 <= k < |ids| ==> KeepsChecksum(hash, messages[..|ids|], ids, k)
    requires Extend(hash, ids, messages[|ids|]).Success? && Numbered(Extend(hash, ids, messages[|ids|]).value)
    ensures var next := Extend(hash, ids, messages[|ids|]).value;
            |next| == |messages| && forall k :: 0 <= k < |messages| ==> KeepsChecksum(hash, messages, next, k)
  {
    var n, next := |ids|, Extend(hash, ids, messages[|ids|]).value;
    DerivedFields(hash, Continue(messages[n], ids));
    forall k | 0 <= k < |messages| ensures KeepsChecksum(hash, messages, next, k) {
      if k < n {
        assert KeepsChecksum(hash, messages[..n], ids, k);
      }
    }
  }

  /** A chain can be continued until the sequence no longer fits eight bytes, and no further. */
  lemma {:induction false} ChainIsNumbered(hash: Hash, messages: seq<Message>)
    ensures NumberedChain(hash, messages)
  {
    if messages == [] {
      return;
    }
    var n := |messages| - 1;
    var before := Chain(hash, messages[..n]);
    ChainIsNumbered(hash, messages[..n]);
    ChainStep(hash, messages);
    if before.Success? {
      NextIdIsNumbered(hash, before.value, messages[n]);
      if n + 1 < SEQUENCE_LIMIT {
        NextIdKeepsChecksum(hash, messages, before.value);
      }
    }
  }

  /** All ids of a chain differ, whatever the hash does. */
  lemma ChainIdsAreDistinct(hash: Hash, messages: seq<Message>, i: nat, j: nat)
    requires Chain(hash, messages).Success? && i < j < |Chain(hash, messages).value|
    ensures Chain(hash, messages).value[i] != Chain(hash, messages).value[j]
  {
    ChainIsNumbered(hash, messages);
  }
}
