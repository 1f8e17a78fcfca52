/** Byte keys of scheduled and winning corks, and the order in which they are iterated. */
module CorkKeys {
  import opened AxelarProxy
  import opened BigEndian
  import opened CorkTypes
  import opened Integers

  function ScheduledPrefix(chain: uint64): seq<Byte> { [3] + Encode(8, chain) }
  function ScheduledAtPrefix(chain: uint64, height: uint64): seq<Byte> { ScheduledPrefix(chain) + Encode(8, height) }
  function WinningPrefix(chain: uint64): seq<Byte> { [6] + Encode(8, chain) }

  function ScheduledTail(k: ScheduledKey): seq<Byte> { Encode(32, k.id) + (Encode(20, k.validator) + Encode(20, k.contract)) }
  function ScheduledKeyBytes(k: ScheduledKey): seq<Byte> { ScheduledAtPrefix(k.chain, k.height) + ScheduledTail(k) }
  function WinningTail(k: WinningKey): seq<Byte> { Encode(8, k.height) + Encode(20, k.contract) }
  function WinningKeyBytes(k: WinningKey): seq<Byte> { WinningPrefix(k.chain) + WinningTail(k) }

  /** The place of a scheduled cork among those of its chain and height. */
  function ScheduledRank(k: ScheduledKey): nat { (k.id * ADDRESS_LIMIT + k.validator) * ADDRESS_LIMIT + k.contract }

  const RANK_LIMIT := WORD_LIMIT * ADDRESS_LIMIT * ADDRESS_LIMIT

  /** Its place among all those of its chain: earlier heights first. */
  function ChainRank(k: ScheduledKey): nat { k.height * RANK_LIMIT + ScheduledRank(k) }

  /** The place of a winning cork among those of its chain: earlier heights first. */
  function WinningRank(k: WinningKey): nat { k.height * ADDRESS_LIMIT + k.contract }

  lemma KeyWidths()
    ensures Pow256(8) == UINT64_LIMIT && Pow256(20) == ADDRESS_LIMIT && Pow256(32) == WORD_LIMIT
  {
    WordWidth();
    assert Pow256(4) == 0x1_0000_0000;
    PowSum(4, 4);
    PowSum(8, 8);
    PowSum(16, 4);
  }

  lemma SamePrefixOrder(p: seq<Byte>, x: seq<Byte>, y: seq<Byte>)
    ensures Before(p + x, p + y) <==> Before(x, y)
  {
    NotBeforeSelf(p);
    BeforeParts(p, x, p, y);
  }

  /** Iterating a chain's winning corks visits them by rank. */
  lemma WinningOrder(a: WinningKey, b: WinningKey)
    requires a.chain == b.chain
    ensures Before(WinningKeyBytes(a), WinningKeyBytes(b)) <==> WinningRank(a) < WinningRank(b)
    ensures WinningRank(a) == WinningRank(b) ==> a == b
  {
    hide Encode, Before, Pow256;
    KeyWidths();
    SamePrefixOrder(WinningPrefix(a.chain), WinningTail(a), WinningTail(b));
    NumberThenTail(8, a.height, Encode(20, a.contract), b.height, Encode(20, b.contract));
    EncodeOrder(20, a.contract, b.contract);
  }

  /** Iterating the corks scheduled for a chain and height visits them by rank. */
  lemma ScheduledOrder(a: ScheduledKey, b: ScheduledKey)
    requires a.chain == b.chain && a.height == b.height
    ensures Before(ScheduledKeyBytes(a), ScheduledKeyBytes(b)) <==> ScheduledRank(a) < ScheduledRank(b)
    ensures ScheduledRank(a) == ScheduledRank(b) ==> a == b
  {
    hide Encode, Before, Pow256;
    KeyWidths();
    SamePrefixOrder(ScheduledAtPrefix(a.chain, a.height), ScheduledTail(a), ScheduledTail(b));
    var s, t := Encode(20, a.validator) + Encode(20, a.contract), Encode(20, b.validator) + Encode(20, b.contract);
    NumberThenTail(32, a.id, s, b.id, t);
    NumberThenTail(20, a.validator, Encode(20, a.contract), b.validator, Encode(20, b.contract));
    EncodeOrder(20, a.contract, b.contract);
  }

  /** Iterating all the corks scheduled for a chain visits them by chain rank, and so by height. */
  lemma ScheduledChainOrder(a: ScheduledKey, b: ScheduledKey)
    requires a.chain == b.chain
    ensures Before(ScheduledKeyBytes(a), ScheduledKeyBytes(b)) <==> ChainRank(a) < ChainRank(b)
    ensures ChainRank(a) == ChainRank(b) ==> a == b
    ensures ChainRank(a) < ChainRank(b) ==> a.height <= b.height
  {
    hide Encode, Before, Pow256, ScheduledTail, ScheduledRank;
    KeyWidths();
    RankBelowLimit(a);
    RankBelowLimit(b);
    var p, x, y := ScheduledPrefix(a.chain), Encode(8, a.height) + ScheduledTail(a), Encode(8, b.height) + ScheduledTail(b);
    SamePrefixOrder(p, x, y);
    assert ScheduledKeyBytes(a) == p + x && ScheduledKeyBytes(b) == p + y;
    NumberThenTail(8, a.height, ScheduledTail(a), b.height, ScheduledTail(b));
    if a.height == b.height {
      ScheduledOrder(a, b);
      SamePrefixOrder(ScheduledAtPrefix(a.chain, a.height), ScheduledTail(a), ScheduledTail(b));
    }
  }

  lemma RankBelowLimit(k: ScheduledKey)
    ensures ScheduledRank(k) < RANK_LIMIT
  {}

  /** What the iterators cut out of a key is what went into it. */
  lemma ScheduledKeyParts(k: ScheduledKey)
    ensures var bytes := ScheduledKeyBytes(k);
            && |bytes| == 89 && bytes[0] == 3
            && Decode(bytes[1..9]) == k.chain && Decode(bytes[9..17]) == k.height && Decode(bytes[17..49]) == k.id
            && Decode(bytes[49..69]) == k.validator && Decode(bytes[69..89]) == k.contract
  {
    KeyWidths();
    hide Encode, Decode, Pow256;
    var bytes := ScheduledKeyBytes(k);
    assert bytes[1..9] == Encode(8, k.chain);
    assert bytes[9..17] == Encode(8, k.height);
    assert bytes[17..49] == Encode(32, k.id);
    assert bytes[49..69] == Encode(20, k.validator);
    assert bytes[69..89] == Encode(20, k.contract);
    DecodeEncode(8, k.chain);
    DecodeEncode(8, k.height);
    DecodeEncode(32, k.id);
    DecodeEncode(20, k.validator);
    DecodeEncode(20, k.contract);
  }

  lemma WinningKeyParts(k: WinningKey)
    ensures var bytes := WinningKeyBytes(k);
            && |bytes| == 37 && bytes[0] == 6
            && Decode(bytes[1..9]) == k.chain && Decode(bytes[9..17]) == k.height && Decode(bytes[17..37]) == k.contract
  {
    KeyWidths();
    hide Encode, Decode, Pow256;
    var bytes := WinningKeyBytes(k);
    assert bytes[1..9] == Encode(8, k.chain);
    assert bytes[9..17] == Encode(8, k.height);
    assert bytes[17..37] == Encode(20, k.contract);
    DecodeEncode(8, k.chain);
    DecodeEncode(8, k.height);
    DecodeEncode(20, k.contract);
  }

  lemma PartsEqual(x: seq<Byte>, y: seq<Byte>, a: seq<Byte>, b: seq<Byte>)
    requires |x| == |a|
    ensures x + y == a + b <==> x == a && y == b
  {
    assert (x + y)[..|x|] == x && (x + y)[|x|..] == y;
    assert (a + b)[..|a|] == a && (a + b)[|a|..] == b;
  }

  lemma PrefixOfConcat(p: seq<Byte>, x: seq<Byte>, tail: seq<Byte>)
    requires |p| == |x|
    ensures p <= x + tail <==> p == x
  {
    assert (x + tail)[..|x|] == x;
  }

  /** A key lies under a prefix exactly when it names that chain (and height). */
  lemma PrefixesExact(chain: uint64, height: uint64, k: ScheduledKey, w: WinningKey)
    ensures ScheduledAtPrefix(chain, height) <= ScheduledKeyBytes(k) <==> k.chain == chain && k.height == height
    ensures WinningPrefix(chain) <= WinningKeyBytes(w) <==> w.chain == chain
  {
    hide Encode, Pow256, ScheduledTail, WinningTail;
    KeyWidths();
    EncodeOrder(8, chain, k.chain);
    EncodeOrder(8, height, k.height);
    EncodeOrder(8, chain, w.chain);
    PrefixOfConcat(ScheduledAtPrefix(chain, height), ScheduledAtPrefix(k.chain, k.height), ScheduledTail(k));
    PartsEqual(ScheduledPrefix(chain), Encode(8, height), ScheduledPrefix(k.chain), Encode(8, k.height));
    PartsEqual([3], Encode(8, chain), [3], Encode(8, k.chain));
    PrefixOfConcat(WinningPrefix(chain), WinningPrefix(w.chain), WinningTail(w));
    PartsEqual([6], Encode(8, chain), [6], Encode(8, w.chain));
  }
}
