/** The auction store's byte keys, and what iterating them by prefix yields. */
module StoreKeys {
  import opened AuctionInvariant
  import opened AuctionSpec
  import opened BigEndian
  import opened Collections
  import opened Integers

  /** What the auction store holds under a key. */
  datatype Slot =
    | ActiveAuction(id: uint32)
    | EndedAuction(id: uint32)
    | BidSlot(auctionId: uint32, bidId: uint64)
    | TokenPriceSlot(denom: seq<Byte>)
    | LastAuctionId
    | LastBidId

  function ActiveAuctionsPrefix(): seq<Byte> { [1] }
  function EndedAuctionsPrefix(): seq<Byte> { [2] }
  function BidsByAuctionPrefix(): seq<Byte> { [3] }
  function TokenPricesPrefix(): seq<Byte> { [4] }
  function BidsByAuctionIdPrefix(auctionId: uint32): seq<Byte> { BidsByAuctionPrefix() + Encode(4, auctionId) }

  function Key(slot: Slot): seq<Byte> {
    match slot
    case ActiveAuction(id) => ActiveAuctionsPrefix() + Encode(4, id)
    case EndedAuction(id) => EndedAuctionsPrefix() + Encode(4, id)
    case BidSlot(auctionId, bidId) => BidsByAuctionIdPrefix(auctionId) + Encode(8, bidId)
    case TokenPriceSlot(denom) => TokenPricesPrefix() + denom
    case LastAuctionId => [5]
    case LastBidId => [6]
  }

  lemma Widths()
    ensures Pow256(4) == UINT32_LIMIT && Pow256(8) == UINT64_LIMIT
  {
    assert Pow256(2) == 0x1_0000;
    assert Pow256(3) == 0x100_0000;
    assert Pow256(5) == 0x100_0000_0000;
    assert Pow256(6) == 0x1_0000_0000_0000;
    assert Pow256(7) == 0x100_0000_0000_0000;
  }

  /** No two records share a key. */
  lemma KeysAreDistinct(a: Slot, b: Slot)
    requires Key(a) == Key(b)
    ensures a == b
  {
    hide Encode;
    Widths();
    var x, y := Key(a), Key(b);
    assert x[0] == y[0];
    match a {
      case ActiveAuction(id) => SamePart(1, 4, id, b.id, x, y);
      case EndedAuction(id) => SamePart(1, 4, id, b.id, x, y);
      case BidSlot(auctionId, bidId) =>
        BidKeyParts(auctionId, bidId);
        BidKeyParts(b.auctionId, b.bidId);
        SamePart(1, 4, auctionId, b.auctionId, x, y);
        SamePart(5, 8, bidId, b.bidId, x, y);
      case TokenPriceSlot(denom) => assert denom == x[1..] && b.denom == y[1..];
      case _ =>
    }
  }

  /** The bytes of every key: one for the kind, then the ids in big-endian order. */
  lemma KeyParts(slot: Slot)
    ensures var key := Key(slot);
            match slot
            case ActiveAuction(id) => |key| == 5 && key[0] == 1 && Decode(key[1..5]) == id
            case EndedAuction(id) => |key| == 5 && key[0] == 2 && Decode(key[1..5]) == id
            case BidSlot(auctionId, bidId) => |key| == 13 && key[0] == 3 && Decode(key[1..5]) == auctionId && Decode(key[5..13]) == bidId
            case TokenPriceSlot(denom) => key == [4] + denom
            case LastAuctionId => key == [5]
            case LastBidId => key == [6]
  {
    hide Encode, Decode;
    Widths();
    match slot {
      case ActiveAuction(id) => DecodeEncode(4, id); assert Key(slot)[1..5] == Encode(4, id);
      case EndedAuction(id) => DecodeEncode(4, id); assert Key(slot)[1..5] == Encode(4, id);
      case BidSlot(auctionId, bidId) =>
        BidKeyParts(auctionId, bidId);
        DecodeEncode(4, auctionId);
        DecodeEncode(8, bidId);
      case _ =>
    }
  }

  lemma BidKeyParts(auctionId: uint32, bidId: uint64)
    ensures var key := Key(BidSlot(auctionId, bidId));
            |key| == 13 && key[1..5] == Encode(4, auctionId) && key[5..13] == Encode(8, bidId)
  {
    hide Encode;
  }

  /** Equal keys hold equal numbers at equal places. */
  lemma SamePart(at: nat, width: nat, m: nat, n: nat, x: seq<Byte>, y: seq<Byte>)
    requires x == y && at + width <= |x| && m < Pow256(width) && n < Pow256(width)
    requires x[at..at + width] == Encode(width, m) && y[at..at + width] == Encode(width, n)
    ensures m == n
  {
    EncodeOrder(width, m, n);
  }

  /** A key starts with an auction's bid prefix exactly when it is the key of one of its bids. */
  lemma BidPrefixExact(auctionId: uint32, slot: Slot)
    ensures BidsByAuctionIdPrefix(auctionId) <= Key(slot) <==> slot.BidSlot? && slot.auctionId == auctionId
  {
    hide Encode;
    Widths();
    var p, k := BidsByAuctionIdPrefix(auctionId), Key(slot);
    if p <= k {
      assert p[0] == k[0];
      assert k[..5] == p && k[..5] == BidsByAuctionIdPrefix(slot.auctionId);
      SamePart(1, 4, auctionId, slot.auctionId, p, k[..5]);
    }
  }

  lemma BidKeyOrder(auctionId: uint32, x: uint64, y: uint64)
    ensures Before(Key(BidSlot(auctionId, x)), Key(BidSlot(auctionId, y))) <==> x < y
  {
    hide Encode;
    Widths();
    var p := BidsByAuctionIdPrefix(auctionId);
    NotBeforeSelf(p);
    BeforeParts(p, Encode(8, x), p, Encode(8, y));
    EncodeOrder(8, x, y);
  }

  // ----- iteration -----

  /** The store holds the bids of the state among its other records. */
  ghost predicate Holds(store: set<Slot>, s: State) {
    forall a: uint32, b: uint64 :: BidSlot(a, b) in store <==> (a as nat, b as nat) in s.bids
  }

  /** Iterating a prefix visits the keys that start with it, in byte order. */
  ghost predicate Iteration(store: set<Slot>, prefix: seq<Byte>, visited: seq<Slot>) {
    && (forall slot :: slot in visited <==> slot in store && prefix <= Key(slot))
    && (forall i, j :: 0 <= i < j < |visited| ==> Before(Key(visited[i]), Key(visited[j])))
  }

  function BidIdOf(slot: Slot): nat
    requires slot.BidSlot?
  {
    slot.bidId
  }

  function BidIdsOf(visited: seq<Slot>): (ids: seq<nat>)
    requires forall slot :: slot in visited ==> slot.BidSlot?
    ensures |ids| == |visited|
    ensures forall i :: 0 <= i < |visited| ==> ids[i] == visited[i].bidId
  {
    seq(|visited|, i requires 0 <= i < |visited| => BidIdOf(visited[i]))
  }

  /** Iterating an auction's bid prefix yields exactly that auction's bids, in ascending id. */
  lemma IterationYieldsBids(store: set<Slot>, s: State, auctionId: uint32, visited: seq<Slot>)
    requires Bids(s) && Holds(store, s) && Iteration(store, BidsByAuctionIdPrefix(auctionId), visited)
    ensures forall slot :: slot in visited ==> slot.BidSlot? && slot.auctionId == auctionId
    ensures BidIdsOf(visited) == Sorted(BidIds(s.bids, auctionId))
  {
    hide Key, BidsByAuctionIdPrefix, Sorted, Before, BidShape;
    forall slot | slot in visited ensures slot.BidSlot? && slot.auctionId == auctionId {
      BidPrefixExact(auctionId, slot);
    }
    var ids := BidIdsOf(visited);
    forall i, j | 0 <= i < j < |ids| ensures ids[i] < ids[j] {
      BidKeyOrder(auctionId, visited[i].bidId, visited[j].bidId);
      assert visited[i] in visited && visited[j] in visited;
      assert visited[i] == BidSlot(auctionId, visited[i].bidId) && visited[j] == BidSlot(auctionId, visited[j].bidId);
    }
    forall id: nat ensures id in ids <==> id in BidIds(s.bids, auctionId) {
      if id in ids {
        var i :| 0 <= i < |ids| && ids[i] == id;
        assert visited[i] in visited && visited[i] == BidSlot(auctionId, visited[i].bidId);
      }
      if id in BidIds(s.bids, auctionId) {
        var slot := BidSlot(auctionId, id);
        BidPrefixExact(auctionId, slot);
        assert slot in visited;
        var i :| 0 <= i < |visited| && visited[i] == slot;
        assert ids[i] == id;
      }
    }
    SortedUnique(ids, BidIds(s.bids, auctionId));
  }
}
