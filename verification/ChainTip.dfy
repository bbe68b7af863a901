/** A chain tip as the depot's tables spell it: a hexadecimal checksum, all zeros at genesis. */
module ChainTip {
  import opened CanonicalCodec
  import opened SemanticHeader
  import opened Wrappers

  datatype TipError = MalformedHex

  function HexDigit(value: nat): char
    requires value < 16
  {
    if value < 10 then '0' + value as char else 'a' + (value - 10) as char
  }

  /** Lowercase hexadecimal, two digits a byte. */
  function BytesToHex(bytes: Bytes): string {
    if bytes == [] then "" else [HexDigit(bytes[0] / 16), HexDigit(bytes[0] % 16)] + BytesToHex(bytes[1..])
  }

  function DigitValue(c: char): (r: Option<nat>)
    ensures r.Some? ==> r.value < 16
  {
    if '0' <= c <= '9' then Some(c as nat - '0' as nat)
    else if 'a' <= c <= 'f' then Some(c as nat - 'a' as nat + 10)
    else if 'A' <= c <= 'F' then Some(c as nat - 'A' as nat + 10)
    else None
  }

  /** Hexadecimal in either case, an even number of digits. */
  function HexToBytes(hex: string): Option<Bytes> {
    if hex == "" then Some([])
    else if |hex| == 1 then None
    else
      var high :- DigitValue(hex[0]);
      var low :- DigitValue(hex[1]);
      var rest :- HexToBytes(hex[2..]);
      Some([high * 16 + low] + rest)
  }

  function StripPrefix(raw: string): string {
    if "0x" <= raw then raw[2..] else raw
  }

  predicate AllZeroDigits(hex: string) {
    forall i :: 0 <= i < |hex| ==> hex[i] == '0'
  }

  predicate AllZero(bytes: Bytes) {
    forall i :: 0 <= i < |bytes| ==> bytes[i] == 0
  }

  /** The tip a table field spells: no bytes for a chain without history, the spelled bytes otherwise. */
  function ParseChainTip(raw: Option<string>): Result<Bytes, TipError> {
    if raw == None || raw == Some("") then Success([])
    else
      var hex := StripPrefix(raw.value);
      if hex == "" || AllZeroDigits(hex) then Success([])
      else
        match HexToBytes(hex)
        case Some(bytes) => Success(bytes)
        case None => Failure(MalformedHex)
  }

  lemma DigitRoundTrip(value: nat)
    requires value < 16
    ensures DigitValue(HexDigit(value)) == Some(value)
    ensures HexDigit(value) == '0' <==> value == 0
    ensures HexDigit(value) != 'x'
  {}

  lemma {:induction false} HexRoundTrip(bytes: Bytes)
    ensures HexToBytes(BytesToHex(bytes)) == Some(bytes)
    ensures bytes != [] ==> BytesToHex(bytes) != ""
  {
    if bytes != [] {
      HexRoundTrip(bytes[1..]);
      DigitRoundTrip(bytes[0] / 16);
      DigitRoundTrip(bytes[0] % 16);
      assert BytesToHex(bytes)[2..] == BytesToHex(bytes[1..]);
      assert bytes == [bytes[0]] + bytes[1..];
    }
  }

  lemma {:induction false} ZeroHexIsZeroBytes(bytes: Bytes)
    ensures AllZeroDigits(BytesToHex(bytes)) <==> AllZero(bytes)
  {
    if bytes != [] {
      var hex, rest := BytesToHex(bytes), bytes[1..];
      ZeroHexIsZeroBytes(rest);
      DigitRoundTrip(bytes[0] / 16);
      DigitRoundTrip(bytes[0] % 16);
      assert hex == [hex[0], hex[1]] + BytesToHex(rest);
      AllZeroDigitsConcat([hex[0], hex[1]], BytesToHex(rest));
      assert bytes == [bytes[0]] + rest;
      AllZeroConcat([bytes[0]], rest);
    }
  }

  lemma AllZeroDigitsConcat(a: string, b: string)
    ensures AllZeroDigits(a + b) <==> AllZeroDigits(a) && AllZeroDigits(b)
  {
    assert forall i :: 0 <= i < |a| ==> (a + b)[i] == a[i];
    assert forall i :: 0 <= i < |b| ==> (a + b)[|a| + i] == b[i];
  }

  lemma AllZeroConcat(a: Bytes, b: Bytes)
    ensures AllZero(a + b) <==> AllZero(a) && AllZero(b)
  {
    assert forall i :: 0 <= i < |a| ==> (a + b)[i] == a[i];
    assert forall i :: 0 <= i < |b| ==> (a + b)[|a| + i] == b[i];
  }

  /** No byte string's spelling can be mistaken for a prefixed one. */
  lemma HexHasNoPrefix(bytes: Bytes)
    ensures StripPrefix(BytesToHex(bytes)) == BytesToHex(bytes)
  {
    if bytes != [] {
      DigitRoundTrip(bytes[0] % 16);
      assert BytesToHex(bytes)[1] != "0x"[1];
    }
  }

  /** A tip written as hexadecimal, prefixed or not, reads back as itself unless it is all zero. */
  lemma TipRoundTrip(bytes: Bytes)
    ensures ParseChainTip(Some(BytesToHex(bytes))) == Success(if AllZero(bytes) then [] else bytes)
    ensures ParseChainTip(Some("0x" + BytesToHex(bytes))) == Success(if AllZero(bytes) then [] else bytes)
  {
    HexRoundTrip(bytes);
    ZeroHexIsZeroBytes(bytes);
    HexHasNoPrefix(bytes);
    assert StripPrefix("0x" + BytesToHex(bytes)) == BytesToHex(bytes);
  }

  lemma {:induction false} ZerosCountNothing(bytes: Bytes)
    requires AllZero(bytes)
    ensures BigEndian(bytes) == 0
  {
    if bytes != [] {
      ZerosCountNothing(bytes[..|bytes| - 1]);
    }
  }

  /** Reading a tip back never changes the sequence number it carries, genesis included. */
  lemma TipKeepsSequence(bytes: Bytes)
    ensures ParseChainTip(Some(BytesToHex(bytes))).Success?
    ensures MessageSequence(ParseChainTip(Some(BytesToHex(bytes))).value) == MessageSequence(bytes)
  {
    TipRoundTrip(bytes);
    if AllZero(bytes) && |bytes| >= SEQUENCE_BYTES {
      ZerosCountNothing(bytes[..SEQUENCE_BYTES]);
    }
  }

  function LowerDigit(c: char): char {
    if 'A' <= c <= 'F' then 'a' + (c - 'A') else c
  }

  function LowerCase(hex: string): string {
    if hex == "" then "" else [LowerDigit(hex[0])] + LowerCase(hex[1..])
  }

  lemma DigitSpells(c: char)
    requires DigitValue(c).Some?
    ensures HexDigit(DigitValue(c).value) == LowerDigit(c)
  {}

  lemma LowerCasePair(hex: string)
    requires |hex| >= 2
    ensures LowerCase(hex) == [LowerDigit(hex[0]), LowerDigit(hex[1])] + LowerCase(hex[2..])
  {
    assert hex[1..][1..] == hex[2..];
  }

  lemma ByteSpells(high: nat, low: nat, rest: Bytes)
    requires high < 16 && low < 16
    ensures BytesToHex([high * 16 + low] + rest) == [HexDigit(high), HexDigit(low)] + BytesToHex(rest)
  {
    assert ([high * 16 + low] + rest)[1..] == rest;
  }

  lemma {:induction false} HexToBytesSpells(hex: string)
    requires HexToBytes(hex).Some?
    ensures BytesToHex(HexToBytes(hex).value) == LowerCase(hex)
  {
    if hex == "" {
      return;
    }
    HexToBytesSpells(hex[2..]);
    DigitSpells(hex[0]);
    DigitSpells(hex[1]);
    LowerCasePair(hex);
    ByteSpells(DigitValue(hex[0]).value, DigitValue(hex[1]).value, HexToBytes(hex[2..]).value);
  }

  /** What a field reads as is either genesis or exactly the bytes its digits spell. */
  lemma ParsedTipIsSpelled(raw: string)
    requires ParseChainTip(Some(raw)).Success?
    ensures var tip := ParseChainTip(Some(raw)).value;
            || (tip == [] && AllZeroDigits(StripPrefix(raw)))
            || BytesToHex(tip) == LowerCase(StripPrefix(raw))
  {
    if raw != "" && HexToBytes(StripPrefix(raw)).Some? {
      HexToBytesSpells(StripPrefix(raw));
    }
  }

  predicate IsHexDigit(c: char) {
    '0' <= c <= '9' || 'a' <= c <= 'f' || 'A' <= c <= 'F'
  }

  /** What follows a leading zero and x, or all of it. */
  function AfterPrefix(raw: string): string {
    if |raw| >= 2 && raw[0] == '0' && raw[1] == 'x' then raw[2..] else raw
  }

  predicate SomeNonZero(hex: string) {
    exists i :: 0 <= i < |hex| && hex[i] != '0'
  }

  predicate SomeNonDigit(hex: string) {
    exists i :: 0 <= i < |hex| && !IsHexDigit(hex[i])
  }

  /** Neither genesis nor whole bytes of hexadecimal: an odd number of digits, or something that is no digit. */
  predicate Malformed(raw: Option<string>) {
    && raw.Some? && SomeNonZero(AfterPrefix(raw.value))
    && (|AfterPrefix(raw.value)| % 2 == 1 || SomeNonDigit(AfterPrefix(raw.value)))
  }

  lemma {:induction false} HexToBytesFailsExactly(hex: string)
    ensures HexToBytes(hex).None? <==> |hex| % 2 == 1 || SomeNonDigit(hex)
  {
    if |hex| >= 2 {
      HexToBytesFailsExactly(hex[2..]);
      if i :| 0 <= i < |hex| && !IsHexDigit(hex[i]) {
        assert i < 2 || hex[2..][i - 2] == hex[i];
      }
    }
  }

  lemma PrefixIsTwoCharacters(raw: string)
    ensures StripPrefix(raw) == AfterPrefix(raw)
  {
    if |raw| >= 2 && raw[0] == '0' && raw[1] == 'x' {
      assert raw[..2] == "0x";
    }
  }

  /** A field is refused exactly when it is malformed; absent, empty or all zeros, it is genesis. */
  lemma FieldFailsExactly(raw: Option<string>)
    ensures ParseChainTip(raw).Failure? <==> Malformed(raw)
    ensures raw == None || raw == Some("") || raw == Some("0x") ==> ParseChainTip(raw) == Success([])
    ensures raw.Some? && (forall i :: 0 <= i < |raw.value| ==> raw.value[i] == '0') ==> ParseChainTip(raw) == Success([])
  {
    if raw.Some? {
      PrefixIsTwoCharacters(raw.value);
      HexToBytesFailsExactly(StripPrefix(raw.value));
    }
  }

  // ----- chaining through the table

  /** One more message, its predecessor read back from its table spelling. */
  function ExtendThroughTable(hash: Hash, ids: seq<Bytes>, message: Message): Option<seq<Bytes>> {
    var stored := if ids == [] then None else Some(BytesToHex(ids[|ids| - 1]));
    match ParseChainTip(stored)
    case Failure(_) => None
    case Success(tip) =>
      match DeriveSemanticHeader(hash, Continue(message, ids).(previousMessageId := tip))
      case Failure(_) => None
      case Success(header) => Some(ids + [header.messageId])
  }

  /** The chain as the deliveries build it. */
  function ChainThroughTable(hash: Hash, messages: seq<Message>): Option<seq<Bytes>> {
    if messages == [] then Some([])
    else
      var n := |messages| - 1;
      var ids :- ChainThroughTable(hash, messages[..n]);
      ExtendThroughTable(hash, ids, messages[n])
  }

  function ToOption<T>(result: Result<T, HeaderError>): Option<T> {
    match result
    case Success(value) => Some(value)
    case Failure(_) => None
  }

  lemma NumberedIsNotZero(id: Bytes)
    requires |id| == 32 && MessageSequence(id) > 0
    ensures !AllZero(id)
  {
    if AllZero(id) {
      ZerosCountNothing(id[..SEQUENCE_BYTES]);
    }
  }

  lemma ExtendAgrees(hash: Hash, ids: seq<Bytes>, message: Message)
    requires Numbered(ids)
    ensures ExtendThroughTable(hash, ids, message) == ToOption(Extend(hash, ids, message))
  {
    if ids != [] {
      NumberedIsNotZero(ids[|ids| - 1]);
      TipRoundTrip(ids[|ids| - 1]);
    }
  }

  /** Storing each id as a table field and reading it back builds the very same chain. */
  lemma {:induction false} TableChainIsChain(hash: Hash, messages: seq<Message>)
    ensures ChainThroughTable(hash, messages) == ToOption(Chain(hash, messages))
  {
    if messages == [] {
      return;
    }
    var n := |messages| - 1;
    TableChainIsChain(hash, messages[..n]);
    ChainStep(hash, messages);
    var before := Chain(hash, messages[..n]);
    if before.Success? {
      ChainIsNumbered(hash, messages[..n]);
      ExtendAgrees(hash, before.value, messages[n]);
    }
  }
}
