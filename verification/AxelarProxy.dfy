/** Payloads of calls through the Axelar proxy, in the Solidity contract ABI. */
module AxelarProxy {
  import opened Arithmetic
  import opened BigEndian
  import opened Integers
  import opened Outcomes

  const ADDRESS_LIMIT := 0x1_00000000_00000000_00000000_00000000_00000000
  const WORD_LIMIT := 0x1_00000000_00000000_00000000_00000000_00000000_00000000_00000000_00000000

  /** A 20-byte account, read as a number. */
  type Address = x: int | 0 <= x < ADDRESS_LIMIT

  const LOGIC_CALL_MSG_ID := 0
  const UPGRADE_MSG_ID := 1

  datatype AbiError =
    | EmptyData | InsufficientLength | OffsetOutOfBounds | OffsetTooLarge | LengthTooLarge
    | SliceOutOfBounds | InvalidLogicCallArgs | InvalidUpgradeArgs

  datatype LogicCall = LogicCall(target: Address, nonce: uint64, deadline: uint64, callData: seq<Byte>)
  datatype Upgrade = Upgrade(newProxy: Address, targets: seq<Address>)

  // ----- encoding -----

  /** A 32-byte word holding `x` in two's complement. */
  function Word(x: int): (w: seq<Byte>)
    ensures |w| == 32
  {
    Encode(32, x % WORD_LIMIT)
  }

  function Zeros(n: nat): seq<Byte> { seq(n, _ => 0) }

  /** A length word, then the bytes filled up to whole words. */
  function PackBytes(bytes: seq<Byte>): seq<Byte> {
    Word(|bytes|) + bytes + Zeros((|bytes| + 31) / 32 * 32 - |bytes|)
  }

  function PackWords(xs: seq<Address>): (r: seq<Byte>)
    ensures |r| == 32 * |xs|
  {
    if xs == [] then [] else PackWords(xs[..|xs| - 1]) + Word(xs[|xs| - 1])
  }

  /** Message id, target, nonce and deadline as int64 values, the offset of the call data, and the call data. */
  function EncodeLogicCall(c: LogicCall): seq<Byte> {
    Word(LOGIC_CALL_MSG_ID) + Word(c.target) + Word(AsInt64(c.nonce)) + Word(AsInt64(c.deadline)) + Word(160) + PackBytes(c.callData)
  }

  function EncodeUpgrade(u: Upgrade): seq<Byte> {
    Word(UPGRADE_MSG_ID) + Word(u.newProxy) + Word(96) + Word(|u.targets|) + PackWords(u.targets)
  }

  // ----- decoding -----

  function WordAt(data: seq<Byte>, index: nat): nat
    requires index + 32 <= |data|
  {
    Decode(data[index..index + 32])
  }

  function ReadWord(data: seq<Byte>, index: nat): Result<nat, AbiError> {
    if index + 32 > |data| then Failure(InsufficientLength) else Success(WordAt(data, index))
  }

  datatype Span = Span(begin: nat, length: nat)

  /** Follow the offset at `index` to a length word: where the contents begin and how many entries there are. */
  function ReadSpan(data: seq<Byte>, index: nat): (r: Result<Span, AbiError>)
    ensures r.Success? ==> r.value.begin + r.value.length <= |data|
  {
    var offset :- ReadWord(data, index);
    var begin := offset + 32;
    if begin > |data| then Failure(OffsetOutOfBounds)
    else if begin >= INT64_LIMIT then Failure(OffsetTooLarge)
    else
      var length := WordAt(data, offset);
      if begin + length >= INT64_LIMIT then Failure(LengthTooLarge)
      else if begin + length > |data| then Failure(InsufficientLength)
      else Success(Span(begin, length))
  }

  function DecodeLogicCall(data: seq<Byte>): Result<LogicCall, AbiError> {
    if data == [] then Failure(EmptyData) else
      var msgId :- ReadWord(data, 0);
      var target :- ReadWord(data, 32);
      var nonce :- ReadWord(data, 64);
      var deadline :- ReadWord(data, 96);
      var span :- ReadSpan(data, 128);
      if msgId != LOGIC_CALL_MSG_ID then Failure(InvalidLogicCallArgs) else
        Success(LogicCall(target % ADDRESS_LIMIT, WrapUint64(nonce), WrapUint64(deadline), data[span.begin..span.begin + span.length]))
  }

  /** The first `n` words, each the low 20 bytes of an address. */
  function ReadAddresses(data: seq<Byte>, n: nat): (r: seq<Address>)
    requires 32 * n <= |data|
    ensures |r| == n
  {
    if n == 0 then [] else ReadAddresses(data, n - 1) + [WordAt(data, 32 * (n - 1)) % ADDRESS_LIMIT]
  }

  function DecodeUpgrade(data: seq<Byte>): Result<Upgrade, AbiError> {
    if data == [] then Failure(EmptyData) else
      var msgId :- ReadWord(data, 0);
      var newProxy :- ReadWord(data, 32);
      var span :- ReadSpan(data, 64);
      if 32 * span.length > |data| - span.begin then Failure(SliceOutOfBounds)
      else if msgId != UPGRADE_MSG_ID then Failure(InvalidUpgradeArgs) else
        Success(Upgrade(newProxy % ADDRESS_LIMIT, ReadAddresses(data[span.begin..], span.length)))
  }

  // ----- each decoder undoes its encoder -----

  lemma WordWidth()
    ensures Pow256(32) == WORD_LIMIT
  {
    assert Pow256(4) == 0x1_0000_0000;
    PowSum(4, 4);
    PowSum(8, 8);
    PowSum(16, 16);
  }

  /** A word reads back as its value modulo 2^256. */
  lemma WordValue(x: int)
    ensures Decode(Word(x)) == x % WORD_LIMIT
  {
    WordWidth();
    DecodeEncode(32, x % WORD_LIMIT);
  }

  /** The word at a place of `data` that holds `x`. */
  lemma ReadBack(data: seq<Byte>, index: nat, x: int)
    requires index + 32 <= |data| && data[index..index + 32] == Word(x)
    ensures ReadWord(data, index) == Success(x % WORD_LIMIT)
  {
    WordValue(x);
  }

  /** Reading a negative int64 through 256 bits and keeping the low 64 restores the unsigned value. */
  lemma NonceWord(n: uint64)
    ensures WrapUint64(AsInt64(n) % WORD_LIMIT) == n
  {
    if n < INT64_LIMIT {
      DivUnique(n, WORD_LIMIT, 0, n);
      DivUnique(n, UINT64_LIMIT, 0, n);
    } else {
      DivUnique(n - UINT64_LIMIT, WORD_LIMIT, -1, WORD_LIMIT + n - UINT64_LIMIT);
      DivUnique(WORD_LIMIT + n - UINT64_LIMIT, UINT64_LIMIT, WORD_LIMIT / UINT64_LIMIT - 1, n);
    }
  }

  lemma SpanBack(data: seq<Byte>, index: nat, offset: nat, length: nat)
    requires |data| < INT64_LIMIT && index + 32 <= |data| && offset + 32 + length <= |data|
    requires data[index..index + 32] == Word(offset) && data[offset..offset + 32] == Word(length)
    ensures ReadSpan(data, index) == Success(Span(offset + 32, length))
  {
    hide Word, WordAt;
    ReadBack(data, index, offset);
    ReadBack(data, offset, length);
  }

  /** Where an encoded call has its words and its call data. */
  lemma LogicCallLayout(c: LogicCall)
    ensures var data := EncodeLogicCall(c);
            && 192 + |c.callData| <= |data|
            && data[..32] == Word(LOGIC_CALL_MSG_ID) && data[32..64] == Word(c.target)
            && data[64..96] == Word(AsInt64(c.nonce)) && data[96..128] == Word(AsInt64(c.deadline))
            && data[128..160] == Word(160) && data[160..192] == Word(|c.callData|)
            && data[192..192 + |c.callData|] == c.callData
  {
    hide Word, Zeros;
  }

  /** Every logic call is restored, whatever its target, nonce, deadline and call data. */
  lemma LogicCallRoundTrip(c: LogicCall)
    requires |EncodeLogicCall(c)| < INT64_LIMIT
    ensures DecodeLogicCall(EncodeLogicCall(c)) == Success(c)
  {
    hide Word, ReadWord, ReadSpan, EncodeLogicCall;
    var data := EncodeLogicCall(c);
    LogicCallLayout(c);
    ReadBack(data, 0, LOGIC_CALL_MSG_ID);
    ReadBack(data, 32, c.target);
    ReadBack(data, 64, AsInt64(c.nonce));
    ReadBack(data, 96, AsInt64(c.deadline));
    NonceWord(c.nonce);
    NonceWord(c.deadline);
    SpanBack(data, 128, 160, |c.callData|);
  }

  lemma PartsOfPrefix(data: seq<Byte>, front: seq<Byte>, back: seq<Byte>)
    requires front + back <= data
    ensures front <= data && data[|front|..|front| + |back|] == back
  {
    var whole := front + back;
    assert data[..|whole|] == whole;
    assert front == whole[..|front|] && back == whole[|front|..];
  }

  lemma {:induction false} AddressesBack(data: seq<Byte>, xs: seq<Address>)
    requires PackWords(xs) <= data
    ensures ReadAddresses(data, |xs|) == xs
  {
    hide Word, ReadAddresses;
    if xs == [] {
      NoAddresses(data);
    } else {
      var n := |xs| - 1;
      PartsOfPrefix(data, PackWords(xs[..n]), Word(xs[n]));
      AddressesBack(data, xs[..n]);
      OneMoreAddress(data, n, xs[n]);
      assert xs == xs[..n] + [xs[n]];
    }
  }

  lemma NoAddresses(data: seq<Byte>)
    ensures ReadAddresses(data, 0) == []
  {}

  lemma OneMoreAddress(data: seq<Byte>, n: nat, x: Address)
    requires 32 * n + 32 <= |data| && data[32 * n..32 * n + 32] == Word(x)
    ensures ReadAddresses(data, n + 1) == ReadAddresses(data, n) + [x]
  {
    hide Word;
    WordValue(x);
  }

  /** Every upgrade is restored, with its targets in order. */
  lemma UpgradeRoundTrip(u: Upgrade)
    requires |EncodeUpgrade(u)| < INT64_LIMIT
    ensures DecodeUpgrade(EncodeUpgrade(u)) == Success(u)
  {
    hide Word, ReadWord, ReadSpan, PackWords, ReadAddresses;
    var data := EncodeUpgrade(u);
    ReadBack(data, 0, UPGRADE_MSG_ID);
    ReadBack(data, 32, u.newProxy);
    SpanBack(data, 64, 96, |u.targets|);
    assert data[128..] == PackWords(u.targets);
    AddressesBack(data[128..], u.targets);
  }

  /** No payload at all, encoded or not, is accepted by both decoders: the order in which they are tried is immaterial. */
  lemma NeverBoth(data: seq<Byte>)
    ensures DecodeLogicCall(data).Failure? || DecodeUpgrade(data).Failure?
  {
    hide ReadSpan, ReadAddresses;
  }
}
