/** The payloads byte by byte: which word holds what, and which bytes a decoder accepts. */
module AbiLayout {
  import opened Arithmetic
  import opened AxelarProxy
  import opened BigEndian
  import opened Integers
  import opened Outcomes

  // ----- numbers -----

  /** 256 to the power `n`. */
  function Places(n: nat): (p: int)
    ensures p >= 1
  {
    if n == 0 then 1 else Places(n - 1) * 256
  }

  /** A big-endian number, from its leading byte. */
  function Number(bytes: seq<Byte>): nat {
    if bytes == [] then 0 else bytes[0] * Places(|bytes| - 1) + Number(bytes[1..])
  }

  lemma {:induction false} NumberSplit(a: seq<Byte>, last: Byte)
    ensures Number(a + [last]) == 256 * Number(a) + last
  {
    if a != [] {
      NumberSplit(a[1..], last);
      assert (a + [last])[1..] == a[1..] + [last];
      assert a[0] * Places(|a|) == 256 * (a[0] * Places(|a| - 1));
    }
  }

  /** Decoding a big-endian number reads its digits from the leading one. */
  lemma {:induction false} DecodeIsNumber(bytes: seq<Byte>)
    ensures Decode(bytes) == Number(bytes)
  {
    if bytes != [] {
      var n := |bytes| - 1;
      DecodeIsNumber(bytes[..n]);
      NumberSplit(bytes[..n], bytes[n]);
      assert bytes == bytes[..n] + [bytes[n]];
    }
  }

  /** A number of one width has one text. */
  lemma {:induction false} Determined(a: seq<Byte>, b: seq<Byte>)
    requires |a| == |b| && Number(a) == Number(b)
    ensures a == b
  {
    hide Number;
    if a != [] {
      var n := |a| - 1;
      assert a == a[..n] + [a[n]] && b == b[..n] + [b[n]];
      NumberSplit(a[..n], a[n]);
      NumberSplit(b[..n], b[n]);
      Determined(a[..n], b[..n]);
    }
  }

  /** The 32-byte word at `at`. */
  function WordValueAt(data: seq<Byte>, at: nat): nat
    requires at + 32 <= |data|
  {
    Number(data[at..at + 32])
  }

  lemma WordHolds(data: seq<Byte>, at: nat, x: int)
    requires at + 32 <= |data| && data[at..at + 32] == Word(x)
    ensures WordValueAt(data, at) == x % 0x1_0000000000000000_0000000000000000_0000000000000000_0000000000000000
  {
    WordValue(x);
    DecodeIsNumber(Word(x));
  }

  /** A uint64 that is cast to int64 and sign-extended to 256 bits. */
  function Extended(n: uint64): nat {
    if n < 0x8000_0000_0000_0000 then n
    else n + 0xffffffffffffffff_ffffffffffffffff_ffffffffffffffff_0000000000000000
  }

  lemma ExtendedIs(n: uint64)
    ensures AsInt64(n) % 0x1_0000000000000000_0000000000000000_0000000000000000_0000000000000000 == Extended(n)
  {
    if n < INT64_LIMIT {
      DivUnique(n, WORD_LIMIT, 0, n);
    } else {
      DivUnique(n - UINT64_LIMIT, WORD_LIMIT, -1, WORD_LIMIT + n - UINT64_LIMIT);
    }
  }

  lemma SmallWord(x: nat)
    requires x < WORD_LIMIT
    ensures x % 0x1_0000000000000000_0000000000000000_0000000000000000_0000000000000000 == x
  {
    DivUnique(x, WORD_LIMIT, 0, x);
  }

  // ----- a logic call -----

  /** The payload of a call: words 0 to 5 are zero, the target, nonce and deadline sign-extended, 160 and the length of the call
      data; the call data follows, and zeros up to a whole word. */
  ghost predicate CallBytes(data: seq<Byte>, target: Address, nonce: uint64, deadline: uint64, callData: seq<Byte>) {
    && |data| == 192 + (|callData| + 31) / 32 * 32
    && WordValueAt(data, 0) == 0
    && WordValueAt(data, 32) == target
    && WordValueAt(data, 64) == Extended(nonce)
    && WordValueAt(data, 96) == Extended(deadline)
    && WordValueAt(data, 128) == 160
    && WordValueAt(data, 160) == |callData|
    && 192 + |callData| <= |data| && data[192..192 + |callData|] == callData
    && forall i :: 192 + |callData| <= i < |data| ==> data[i] == 0
  }

  /** These are exactly the bytes of an encoded call. */
  lemma CallLayout(data: seq<Byte>, c: LogicCall)
    requires |c.callData| < INT64_LIMIT
    ensures data == EncodeLogicCall(c) <==> CallBytes(data, c.target, c.nonce, c.deadline, c.callData)
  {
    hide EncodeLogicCall, CallBytes;
    EncodedCall(c);
    if CallBytes(data, c.target, c.nonce, c.deadline, c.callData) { OneCall(data, EncodeLogicCall(c), c); }
  }

  lemma OneCall(a: seq<Byte>, b: seq<Byte>, c: LogicCall)
    requires CallBytes(a, c.target, c.nonce, c.deadline, c.callData) && CallBytes(b, c.target, c.nonce, c.deadline, c.callData)
    ensures a == b
  {
    hide Number;
    Determined(a[0..32], b[0..32]);
    Determined(a[32..64], b[32..64]);
    Determined(a[64..96], b[64..96]);
    Determined(a[96..128], b[96..128]);
    Determined(a[128..160], b[128..160]);
    Determined(a[160..192], b[160..192]);
    var n := 192 + |c.callData|;
    assert a[n..] == b[n..];
    SixWords(a, n);
    SixWords(b, n);
  }

  lemma SixWords(a: seq<Byte>, n: nat)
    requires 192 <= n <= |a|
    ensures a == a[0..32] + a[32..64] + a[64..96] + a[96..128] + a[128..160] + a[160..192] + a[192..n] + a[n..]
  {}

  lemma EncodedCall(c: LogicCall)
    requires |c.callData| < INT64_LIMIT
    ensures CallBytes(EncodeLogicCall(c), c.target, c.nonce, c.deadline, c.callData)
  {
    hide Word, EncodeLogicCall;
    var data := EncodeLogicCall(c);
    LogicCallLayout(c);
    CallPadding(c);
    assert data[0..32] == data[..32];
    ExtendedIs(c.nonce);
    ExtendedIs(c.deadline);
    SmallWord(0);
    SmallWord(c.target);
    SmallWord(160);
    SmallWord(|c.callData|);
    WordHolds(data, 0, LOGIC_CALL_MSG_ID);
    WordHolds(data, 32, c.target);
    WordHolds(data, 64, AsInt64(c.nonce));
    WordHolds(data, 96, AsInt64(c.deadline));
    WordHolds(data, 128, 160);
    WordHolds(data, 160, |c.callData|);
  }

  lemma CallPadding(c: LogicCall)
    ensures var data := EncodeLogicCall(c);
            && |data| == 192 + (|c.callData| + 31) / 32 * 32
            && 192 + |c.callData| <= |data|
            && forall i :: 192 + |c.callData| <= i < |data| ==> data[i] == 0
  {
    hide Word;
    var front := Word(LOGIC_CALL_MSG_ID) + Word(c.target) + Word(AsInt64(c.nonce)) + Word(AsInt64(c.deadline)) + Word(160)
                 + (Word(|c.callData|) + c.callData);
    var zeros := Zeros((|c.callData| + 31) / 32 * 32 - |c.callData|);
    assert EncodeLogicCall(c) == front + zeros;
  }

  // ----- an upgrade -----

  /** The payload of an upgrade: words 0 to 3 are one, the new proxy, 96 and the number of targets; the targets follow, a word
      each. */
  ghost predicate UpgradeBytes(data: seq<Byte>, newProxy: Address, targets: seq<Address>) {
    && |data| == 128 + 32 * |targets|
    && WordValueAt(data, 0) == 1
    && WordValueAt(data, 32) == newProxy
    && WordValueAt(data, 64) == 96
    && WordValueAt(data, 96) == |targets|
    && forall i :: 0 <= i < |targets| ==> WordValueAt(data, 128 + 32 * i) == targets[i]
  }

  lemma {:induction false} PackedWord(front: seq<Byte>, xs: seq<Address>, i: nat)
    requires i < |xs|
    ensures var data := front + PackWords(xs); data[|front| + 32 * i..|front| + 32 * i + 32] == Word(xs[i])
  {
    hide Word;
    var n := |xs| - 1;
    var data, packed := front + PackWords(xs), PackWords(xs[..n]);
    assert PackWords(xs) == packed + Word(xs[n]);
    if i < n {
      PackedWord(front, xs[..n], i);
      var part := front + packed;
      assert data == part + Word(xs[n]);
      assert data[|front| + 32 * i..|front| + 32 * i + 32] == part[|front| + 32 * i..|front| + 32 * i + 32];
    } else {
      assert data[|front| + 32 * n..] == Word(xs[n]);
    }
  }

  lemma UpgradeLayout(u: Upgrade)
    requires |u.targets| < INT64_LIMIT
    ensures UpgradeBytes(EncodeUpgrade(u), u.newProxy, u.targets)
  {
    hide Word, PackWords, WordValueAt;
    var data := EncodeUpgrade(u);
    var front := Word(UPGRADE_MSG_ID) + Word(u.newProxy) + Word(96) + Word(|u.targets|);
    assert data == front + PackWords(u.targets);
    UpgradeHead(u);
    forall i | 0 <= i < |u.targets| ensures WordValueAt(data, 128 + 32 * i) == u.targets[i] {
      PackedWord(front, u.targets, i);
      WordHolds(data, 128 + 32 * i, u.targets[i]);
      SmallWord(u.targets[i]);
    }
  }

  lemma UpgradeHead(u: Upgrade)
    requires |u.targets| < INT64_LIMIT
    ensures var data := EncodeUpgrade(u);
            && |data| == 128 + 32 * |u.targets|
            && WordValueAt(data, 0) == 1 && WordValueAt(data, 32) == u.newProxy
            && WordValueAt(data, 64) == 96 && WordValueAt(data, 96) == |u.targets|
  {
    hide Word, PackWords, WordValueAt;
    var data := EncodeUpgrade(u);
    assert data[0..32] == Word(UPGRADE_MSG_ID) && data[32..64] == Word(u.newProxy) && data[64..96] == Word(96) && data[96..128] == Word(|u.targets|);
    SmallWord(1);
    SmallWord(u.newProxy);
    SmallWord(96);
    SmallWord(|u.targets|);
    WordHolds(data, 0, UPGRADE_MSG_ID);
    WordHolds(data, 32, u.newProxy);
    WordHolds(data, 64, 96);
    WordHolds(data, 96, |u.targets|);
  }

  // ----- which bytes the decoders accept -----

  /** The word at `at` is an offset to a length word, and as many bytes as that says follow within the data. */
  ghost predicate Span(data: seq<Byte>, at: nat, begin: nat, length: nat) {
    && at + 32 <= |data| && 32 <= begin <= |data|
    && WordValueAt(data, at) == begin - 32
    && WordValueAt(data, begin - 32) == length && begin + length <= |data|
  }

  lemma SpanExactly(data: seq<Byte>, at: nat)
    requires |data| < INT64_LIMIT
    ensures forall begin: nat, length: nat ::
              Span(data, at, begin, length) <==> ReadSpan(data, at) == Success(AxelarProxy.Span(begin, length))
  {
    hide Number, Decode;
    if at + 32 <= |data| {
      DecodeIsNumber(data[at..at + 32]);
      var offset := WordAt(data, at);
      if offset + 32 <= |data| { DecodeIsNumber(data[offset..offset + 32]); }
    }
  }

  /** The bytes are a call with these parts, padded anyhow. */
  ghost predicate CallIn(data: seq<Byte>, c: LogicCall) {
    && |data| >= 160 && WordValueAt(data, 0) == 0
    && c.target == WordValueAt(data, 32) % 0x1_00000000_00000000_00000000_00000000_00000000
    && c.nonce == WordValueAt(data, 64) % 0x1_0000_0000_0000_0000
    && c.deadline == WordValueAt(data, 96) % 0x1_0000_0000_0000_0000
    && exists begin: nat, length: nat :: Span(data, 128, begin, length) && c.callData == data[begin..begin + length]
  }

  /** Exactly which bytes are read as a call, and as which one: the low bits of each word count. */
  lemma CallAccepted(data: seq<Byte>, c: LogicCall)
    requires |data| < INT64_LIMIT
    ensures DecodeLogicCall(data) == Success(c) <==> CallIn(data, c)
  {
    hide Number, Decode, ReadSpan, Span;
    SpanExactly(data, 128);
    SpanInside(data, 128);
    if |data| >= 160 {
      CallWords(data);
      var span := ReadSpan(data, 128);
      if span.Success? { assert Span(data, 128, span.value.begin, span.value.length); }
      if CallIn(data, c) {
        var begin: nat, length: nat :| Span(data, 128, begin, length) && c.callData == data[begin..begin + length];
        assert span == Success(AxelarProxy.Span(begin, length));
      }
    }
  }

  lemma CallWords(data: seq<Byte>)
    requires |data| >= 160
    ensures WordAt(data, 0) == WordValueAt(data, 0) && WordAt(data, 32) == WordValueAt(data, 32)
    ensures WordAt(data, 64) == WordValueAt(data, 64) && WordAt(data, 96) == WordValueAt(data, 96)
  {
    DecodeIsNumber(data[0..32]);
    DecodeIsNumber(data[32..64]);
    DecodeIsNumber(data[64..96]);
    DecodeIsNumber(data[96..128]);
  }

  lemma SpanInside(data: seq<Byte>, at: nat)
    ensures ReadSpan(data, at).Success? ==> at + 32 <= |data|
    ensures forall begin: nat, length: nat :: Span(data, at, begin, length) ==> begin + length <= |data|
  {}

  /** The bytes are an upgrade with these parts. */
  ghost predicate UpgradeIn(data: seq<Byte>, u: Upgrade) {
    && |data| >= 96 && WordValueAt(data, 0) == 1
    && u.newProxy == WordValueAt(data, 32) % 0x1_00000000_00000000_00000000_00000000_00000000
    && exists begin: nat, length: nat :: Span(data, 64, begin, length) && |u.targets| == length && TargetsAt(data, begin, u.targets)
  }

  ghost predicate TargetsAt(data: seq<Byte>, begin: nat, targets: seq<Address>) {
    && begin + 32 * |targets| <= |data|
    && forall i :: 0 <= i < |targets| ==>
         targets[i] == WordValueAt(data, begin + 32 * i) % 0x1_00000000_00000000_00000000_00000000_00000000
  }

  lemma {:induction false} ReadAddressesAt(data: seq<Byte>, n: nat, i: nat)
    requires 32 * n <= |data| && i < n
    ensures ReadAddresses(data, n)[i] == WordAt(data, 32 * i) % ADDRESS_LIMIT
  {
    hide WordAt;
    if i < n - 1 { ReadAddressesAt(data, n - 1, i); }
  }

  lemma TargetsRead(data: seq<Byte>, begin: nat, targets: seq<Address>)
    requires begin <= |data|
    ensures TargetsAt(data, begin, targets) <==>
              32 * |targets| <= |data| - begin && ReadAddresses(data[begin..], |targets|) == targets
  {
    hide Number, Decode, ReadAddresses;
    if 32 * |targets| <= |data| - begin {
      var rest, n := data[begin..], |targets|;
      forall i | 0 <= i < n
        ensures ReadAddresses(rest, n)[i] == WordValueAt(data, begin + 32 * i) % ADDRESS_LIMIT
      {
        ReadAddressesAt(rest, n, i);
        assert rest[32 * i..32 * i + 32] == data[begin + 32 * i..begin + 32 * i + 32];
        DecodeIsNumber(data[begin + 32 * i..begin + 32 * i + 32]);
      }
    }
  }

  /** Exactly which bytes are read as an upgrade, and as which one. */
  lemma UpgradeAccepted(data: seq<Byte>, u: Upgrade)
    requires |data| < INT64_LIMIT
    ensures DecodeUpgrade(data) == Success(u) <==> UpgradeIn(data, u)
  {
    hide Number, Decode, ReadSpan, Span, ReadAddresses, TargetsAt;
    SpanExactly(data, 64);
    SpanInside(data, 64);
    if |data| >= 96 {
      DecodeIsNumber(data[0..32]);
      DecodeIsNumber(data[32..64]);
      var span := ReadSpan(data, 64);
      if span.Success? {
        assert Span(data, 64, span.value.begin, span.value.length);
        TargetsRead(data, span.value.begin, u.targets);
      }
      if UpgradeIn(data, u) {
        var begin: nat, length: nat :| Span(data, 64, begin, length) && |u.targets| == length && TargetsAt(data, begin, u.targets);
        assert span == Success(AxelarProxy.Span(begin, length));
      }
    }
  }
}
