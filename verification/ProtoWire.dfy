/** The Protocol Buffers wire format as the generated cork codec reads and writes it: varints, tags, skipping. */
module ProtoWire {
  import opened BigEndian
  import opened Integers
  import opened Outcomes

  datatype WireError =
    | IntOverflow | UnexpectedEOF | InvalidLength | EndGroup | IllegalTag | WrongWireType
    | UnexpectedEndOfGroup | IllegalWireType

  /** A value, and how many bytes it took. */
  datatype Read<+T> = Read(value: T, size: nat)

  // ----- varints -----

  /** Base 128, the least significant group first; all groups but the last have the high bit set. */
  function EncodeVarint(v: nat): (r: seq<Byte>)
    ensures |r| >= 1
  {
    if v < 128 then [v] else [v % 128 + 128] + EncodeVarint(v / 128)
  }

  /** The groups from `shift` on, as a number. A group at shift 64 or above is refused. */
  function ReadGroups(bs: seq<Byte>, shift: nat): (r: Result<Read<nat>, WireError>)
    ensures r.Success? ==> 1 <= r.value.size <= |bs|
  {
    if shift >= 64 then Failure(IntOverflow)
    else if bs == [] then Failure(UnexpectedEOF)
    else if bs[0] < 128 then Success(Read(bs[0], 1))
    else
      var rest :- ReadGroups(bs[1..], shift + 7);
      Success(Read(bs[0] - 128 + 128 * rest.value, rest.size + 1))
  }

  /** A varint keeps the low 64 bits. */
  function DecodeVarint(bs: seq<Byte>): (r: Result<Read<uint64>, WireError>)
    ensures r.Success? ==> 1 <= r.value.size <= |bs|
  {
    var groups :- ReadGroups(bs, 0);
    Success(Read(WrapUint64(groups.value), groups.size))
  }

  function Pow128(n: nat): (p: int)
    ensures p >= 1
  {
    if n == 0 then 1 else 128 * Pow128(n - 1)
  }

  /** Groups that were written are read back, if they end below shift 64. */
  lemma {:induction false} GroupsBack(v: nat, shift: nat, rest: seq<Byte>)
    requires shift <= 63 && shift % 7 == 0 && v < Pow128((70 - shift) / 7)
    ensures ReadGroups(EncodeVarint(v) + rest, shift) == Success(Read(v, |EncodeVarint(v)|))
  {
    var bs := EncodeVarint(v) + rest;
    if v < 128 {
      assert bs[0] == v;
    } else {
      assert (70 - shift) / 7 - 1 == (70 - (shift + 7)) / 7;
      GroupsBack(v / 128, shift + 7, rest);
      assert bs[0] == v % 128 + 128;
      assert bs[1..] == EncodeVarint(v / 128) + rest;
    }
  }

  lemma Pow128Ten()
    ensures Pow128(10) >= UINT64_LIMIT
  {
    assert Pow128(5) == 0x8_0000_0000;
    assert Pow128(8) == 0x100_0000_0000_0000;
  }

  /** Every uint64 is read back from its encoding, whatever follows. */
  lemma VarintBack(v: uint64, rest: seq<Byte>)
    ensures DecodeVarint(EncodeVarint(v) + rest) == Success(Read(v, |EncodeVarint(v)|))
  {
    Pow128Ten();
    GroupsBack(v, 0, rest);
  }

  /** What follows a varint does not matter to reading it. */
  lemma {:induction false} GroupsLocal(bs: seq<Byte>, more: seq<Byte>, shift: nat)
    requires ReadGroups(bs, shift).Success?
    ensures ReadGroups(bs + more, shift) == ReadGroups(bs, shift)
  {
    assert (bs + more)[0] == bs[0];
    if bs[0] >= 128 {
      GroupsLocal(bs[1..], more, shift + 7);
      assert (bs + more)[1..] == bs[1..] + more;
    }
  }

  lemma VarintLocal(bs: seq<Byte>, more: seq<Byte>)
    requires DecodeVarint(bs).Success?
    ensures DecodeVarint(bs + more) == DecodeVarint(bs)
  {
    GroupsLocal(bs, more, 0);
  }

  // ----- the size of a varint -----

  /** The number of bits of `x`. */
  function Len64(x: nat): (n: nat)
    ensures x > 0 ==> n > 0
  {
    if x == 0 then 0 else 1 + Len64(x / 2)
  }

  /** `x` with its lowest bit set. */
  function WithLowBit(x: nat): nat { if x % 2 == 0 then x + 1 else x }

  function Sov(x: nat): nat { (Len64(WithLowBit(x)) + 6) / 7 }

  lemma LowBitKeepsLength(x: nat)
    requires x > 0
    ensures Len64(WithLowBit(x)) == Len64(x)
  {}

  /** Dropping a group of 7 bits drops 7 from the length. */
  lemma GroupLength(x: nat)
    requires x >= 128
    ensures Len64(x) == 7 + Len64(x / 128)
  {
    assert Len64(x) == 1 + Len64(x / 2);
    assert Len64(x / 2) == 1 + Len64(x / 2 / 2) && x / 2 / 2 == x / 4;
    assert Len64(x / 4) == 1 + Len64(x / 4 / 2) && x / 4 / 2 == x / 8;
    assert Len64(x / 8) == 1 + Len64(x / 8 / 2) && x / 8 / 2 == x / 16;
    assert Len64(x / 16) == 1 + Len64(x / 16 / 2) && x / 16 / 2 == x / 32;
    assert Len64(x / 32) == 1 + Len64(x / 32 / 2) && x / 32 / 2 == x / 64;
    assert Len64(x / 64) == 1 + Len64(x / 64 / 2) && x / 64 / 2 == x / 128;
  }

  lemma ShortLength(x: nat)
    requires 0 < x < 128
    ensures 1 <= Len64(x) <= 7
  {
    assert Len64(x) == 1 + Len64(x / 2);
    assert x / 2 / 2 == x / 4 && x / 4 / 2 == x / 8 && x / 8 / 2 == x / 16 && x / 16 / 2 == x / 32 && x / 32 / 2 == x / 64;
    assert x / 64 <= 1;
    assert Len64(x / 64) <= 1;
    assert Len64(x / 32) <= 2;
    assert Len64(x / 16) <= 3;
    assert Len64(x / 8) <= 4;
    assert Len64(x / 4) <= 5;
    assert Len64(x / 2) <= 6;
  }

  /** The computed size is the length of the encoding. */
  lemma {:induction false} SovIsVarintLength(x: nat)
    ensures Sov(x) == |EncodeVarint(x)|
  {
    if x < 128 {
      ShortLength(WithLowBit(x));
    } else {
      SovIsVarintLength(x / 128);
      LowBitKeepsLength(x);
      LowBitKeepsLength(x / 128);
      GroupLength(x);
    }
  }

  // ----- skipping -----

  /** The size of one element (a tag with its value, or an opening or closing group tag) and the depth after it. */
  datatype Element = Element(size: nat, depth: nat)

  function ReadElement(bs: seq<Byte>, depth: nat): (r: Result<Element, WireError>)
    ensures r.Success? ==> r.value.size >= 1
  {
    var tag :- DecodeVarint(bs);
    var body := bs[tag.size..];
    match tag.value % 8
    case 0 => var v :- ReadGroups(body, 0); Success(Element(tag.size + v.size, depth))
    case 1 => Success(Element(tag.size + 8, depth))
    case 2 =>
      var length :- DecodeVarint(body);
      if length.value >= INT64_LIMIT then Failure(InvalidLength)
      else Success(Element(tag.size + length.size + length.value, depth))
    case 3 => Success(Element(tag.size, depth + 1))
    case 4 => if depth == 0 then Failure(UnexpectedEndOfGroup) else Success(Element(tag.size, depth - 1))
    case 5 => Success(Element(tag.size + 4, depth))
    case _ => Failure(IllegalWireType)
  }

  /** How many bytes to skip until every group is closed; possibly more than there are. */
  function Skip(bs: seq<Byte>, depth: nat): (r: Result<nat, WireError>)
    ensures r.Success? ==> r.value >= 1
    decreases |bs|
  {
    if bs == [] then Failure(UnexpectedEOF) else
      var e :- ReadElement(bs, depth);
      if e.depth == 0 then Success(e.size)
      else if e.size >= |bs| then Failure(UnexpectedEOF)
      else
        var rest :- Skip(bs[e.size..], e.depth);
        Success(e.size + rest)
  }

  lemma ElementLocal(bs: seq<Byte>, more: seq<Byte>, depth: nat)
    requires ReadElement(bs, depth).Success?
    ensures ReadElement(bs + more, depth) == ReadElement(bs, depth)
  {
    hide DecodeVarint, ReadGroups;
    VarintLocal(bs, more);
    var tag := DecodeVarint(bs).value;
    assert (bs + more)[tag.size..] == bs[tag.size..] + more;
    if tag.value % 8 == 0 { GroupsLocal(bs[tag.size..], more, 0); }
    if tag.value % 8 == 2 { VarintLocal(bs[tag.size..], more); }
  }

  /** What follows a skipped field does not matter to skipping it. */
  lemma {:induction false} SkipLocal(bs: seq<Byte>, more: seq<Byte>, depth: nat)
    requires Skip(bs, depth).Success?
    ensures Skip(bs + more, depth) == Skip(bs, depth)
    decreases |bs|
  {
    hide ReadElement;
    ElementLocal(bs, more, depth);
    var e := ReadElement(bs, depth).value;
    if e.depth > 0 {
      SkipLocal(bs[e.size..], more, e.depth);
      assert (bs + more)[e.size..] == bs[e.size..] + more;
    }
  }
}
