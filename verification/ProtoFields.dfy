/** Fields and messages: the loop that every generated `Unmarshal` runs, over any message type. */
module ProtoFields {
  import opened BigEndian
  import opened Integers
  import opened Outcomes
  import opened ProtoWire

  /** How a message type stores a field number. */
  datatype Kind = VarintKind | BytesKind | UnknownKind

  datatype Value = Varint(v: uint64) | Data(bytes: seq<Byte>)

  /** A known field, or one that was skipped. */
  datatype Field = Known(num: nat, value: Value) | Skipped

  /** A message type: which fields it knows, and what a field does to a message. */
  datatype Codec<!M> = Codec(kind: nat -> Kind, apply: (M, nat, Value) -> Result<M, WireError>)

  // ----- one field -----

  /** The tag's field number, read as an int32: only its low 32 bits count. */
  function FieldNumber(tag: uint64): int {
    var n := tag / 8 % 0x1_0000_0000;
    if n < 0x8000_0000 then n else n - 0x1_0000_0000
  }

  function ReadField(kind: nat -> Kind, bs: seq<Byte>): (r: Result<Read<Field>, WireError>)
    ensures r.Success? ==> 1 <= r.value.size <= |bs|
  {
    var tag :- DecodeVarint(bs);
    var num, wireType := FieldNumber(tag.value), tag.value % 8;
    if wireType == 4 then Failure(EndGroup)
    else if num <= 0 then Failure(IllegalTag)
    else match kind(num)
    case VarintKind => if wireType != 0 then Failure(WrongWireType) else ReadVarintField(bs, num, tag.size)
    case BytesKind => if wireType != 2 then Failure(WrongWireType) else ReadBytesField(bs, num, tag.size)
    case UnknownKind => ReadUnknownField(bs)
  }

  function ReadVarintField(bs: seq<Byte>, num: nat, at: nat): (r: Result<Read<Field>, WireError>)
    requires 1 <= at <= |bs|
    ensures r.Success? ==> 1 <= r.value.size <= |bs|
  {
    var v :- DecodeVarint(bs[at..]);
    Success(Read(Known(num, Varint(v.value)), at + v.size))
  }

  function ReadBytesField(bs: seq<Byte>, num: nat, at: nat): (r: Result<Read<Field>, WireError>)
    requires 1 <= at <= |bs|
    ensures r.Success? ==> 1 <= r.value.size <= |bs|
  {
    var length :- DecodeVarint(bs[at..]);
    var from := at + length.size;
    if length.value >= INT64_LIMIT then Failure(InvalidLength)
    else if from + length.value > |bs| then Failure(UnexpectedEOF)
    else Success(Read(Known(num, Data(bs[from..from + length.value])), from + length.value))
  }

  function ReadUnknownField(bs: seq<Byte>): (r: Result<Read<Field>, WireError>)
    ensures r.Success? ==> 1 <= r.value.size <= |bs|
  {
    var n :- Skip(bs, 0);
    if n > |bs| then Failure(UnexpectedEOF) else Success(Read(Skipped, n))
  }

  // ----- a whole message -----

  function Apply<M>(c: Codec<M>, m: M, f: Field): Result<M, WireError> {
    match f
    case Known(num, value) => c.apply(m, num, value)
    case Skipped => Success(m)
  }

  /** Read fields until the bytes are used up, each time on a strictly shorter remainder. */
  function Unmarshal<M>(c: Codec<M>, m: M, bs: seq<Byte>): Result<M, WireError>
    decreases |bs|
  {
    if bs == [] then Success(m) else
      var f :- ReadField(c.kind, bs);
      var m' :- Apply(c, m, f.value);
      Unmarshal(c, m', bs[f.size..])
  }

  // ----- a field is read the same whatever follows it -----

  lemma VarintFieldLocal(bs: seq<Byte>, more: seq<Byte>, num: nat, at: nat)
    requires 1 <= at <= |bs| && ReadVarintField(bs, num, at).Success?
    ensures ReadVarintField(bs + more, num, at) == ReadVarintField(bs, num, at)
  {
    hide DecodeVarint;
    assert (bs + more)[at..] == bs[at..] + more;
    VarintLocal(bs[at..], more);
  }

  lemma BytesFieldLocal(bs: seq<Byte>, more: seq<Byte>, num: nat, at: nat)
    requires 1 <= at <= |bs| && ReadBytesField(bs, num, at).Success?
    ensures ReadBytesField(bs + more, num, at) == ReadBytesField(bs, num, at)
  {
    hide DecodeVarint;
    assert (bs + more)[at..] == bs[at..] + more;
    VarintLocal(bs[at..], more);
    var length := DecodeVarint(bs[at..]).value;
    var from := at + length.size;
    assert (bs + more)[from..from + length.value] == bs[from..from + length.value];
  }

  lemma FieldLocal(kind: nat -> Kind, bs: seq<Byte>, more: seq<Byte>)
    requires ReadField(kind, bs).Success?
    ensures ReadField(kind, bs + more) == ReadField(kind, bs)
  {
    hide DecodeVarint, ReadVarintField, ReadBytesField, Skip, FieldNumber;
    VarintLocal(bs, more);
    var tag := DecodeVarint(bs).value;
    var num := FieldNumber(tag.value);
    match kind(num) {
      case VarintKind => VarintFieldLocal(bs, more, num, tag.size);
      case BytesKind => BytesFieldLocal(bs, more, num, tag.size);
      case UnknownKind => SkipLocal(bs, more, 0);
    }
  }

  /** Unmarshalling a concatenation continues from the message that the first part gave. */
  lemma {:induction false} UnmarshalConcat<M>(c: Codec<M>, m: M, x: seq<Byte>, y: seq<Byte>)
    requires Unmarshal(c, m, x).Success?
    ensures Unmarshal(c, m, x + y) == Unmarshal(c, Unmarshal(c, m, x).value, y)
    decreases |x|
  {
    hide ReadField;
    if x == [] {
      assert x + y == y;
    } else {
      FieldLocal(c.kind, x, y);
      var f := ReadField(c.kind, x).value;
      assert (x + y)[f.size..] == x[f.size..] + y;
      UnmarshalConcat(c, Apply(c, m, f.value).value, x[f.size..], y);
    }
  }

  // ----- unknown fields -----

  /** A well-formed field of any number: a varint, eight or four bytes, length-delimited bytes, or a group of fields. */
  datatype Unknown =
    | UnknownVarint(num: nat, v: uint64)
    | Unknown64(num: nat, eight: seq<Byte>)
    | UnknownBytes(num: nat, bytes: seq<Byte>)
    | Group(num: nat, members: Members)
    | Unknown32(num: nat, four: seq<Byte>)

  datatype Members = End | Member(first: Unknown, rest: Members)

  const FIELD_LIMIT := 0x8000_0000

  predicate WellFormed(u: Unknown) {
    && 0 < u.num < FIELD_LIMIT
    && match u
       case UnknownVarint(_, _) => true
       case Unknown64(_, eight) => |eight| == 8
       case UnknownBytes(_, bytes) => |bytes| < INT64_LIMIT
       case Group(_, members) => AllWellFormed(members)
       case Unknown32(_, four) => |four| == 4
  }

  predicate AllWellFormed(ms: Members) {
    ms.Member? ==> WellFormed(ms.first) && AllWellFormed(ms.rest)
  }

  function Tag(num: nat, wireType: nat): nat { 8 * num + wireType }

  function EncodeUnknown(u: Unknown): seq<Byte> {
    match u
    case UnknownVarint(num, v) => EncodeVarint(Tag(num, 0)) + EncodeVarint(v)
    case Unknown64(num, eight) => EncodeVarint(Tag(num, 1)) + eight
    case UnknownBytes(num, bytes) => EncodeVarint(Tag(num, 2)) + (EncodeVarint(|bytes|) + bytes)
    case Group(num, members) => EncodeVarint(Tag(num, 3)) + EncodeMembers(members) + EncodeVarint(Tag(num, 4))
    case Unknown32(num, four) => EncodeVarint(Tag(num, 5)) + four
  }

  function EncodeMembers(ms: Members): seq<Byte> {
    match ms
    case End => []
    case Member(first, rest) => EncodeUnknown(first) + EncodeMembers(rest)
  }

  /** A tag at the front is read back, and the rest is what follows it. */
  lemma TagBack(num: nat, wireType: nat, rest: seq<Byte>)
    requires num < FIELD_LIMIT && wireType < 8
    ensures var tag := EncodeVarint(Tag(num, wireType));
            && DecodeVarint(tag + rest) == Success(Read(Tag(num, wireType), |tag|))
            && (tag + rest)[|tag|..] == rest
            && Tag(num, wireType) % 8 == wireType && FieldNumber(Tag(num, wireType)) == num
  {
    VarintBack(Tag(num, wireType), rest);
  }

  /** An element that is not a group is passed over at any depth. */
  lemma ElementBack(u: Unknown, rest: seq<Byte>, depth: nat)
    requires WellFormed(u) && !u.Group?
    ensures ReadElement(EncodeUnknown(u) + rest, depth) == Success(Element(|EncodeUnknown(u)|, depth))
  {
    hide DecodeVarint, ReadGroups, EncodeVarint, FieldNumber;
    match u {
      case UnknownVarint(num, v) =>
        TagBack(num, 0, EncodeVarint(v) + rest);
        assert EncodeUnknown(u) + rest == EncodeVarint(Tag(num, 0)) + (EncodeVarint(v) + rest);
        Pow128Ten();
        GroupsBack(v, 0, rest);
      case Unknown64(num, eight) =>
        TagBack(num, 1, eight + rest);
        assert EncodeUnknown(u) + rest == EncodeVarint(Tag(num, 1)) + (eight + rest);
      case UnknownBytes(num, bytes) =>
        TagBack(num, 2, EncodeVarint(|bytes|) + (bytes + rest));
        assert EncodeUnknown(u) + rest == EncodeVarint(Tag(num, 2)) + (EncodeVarint(|bytes|) + (bytes + rest));
        VarintBack(|bytes|, bytes + rest);
      case Unknown32(num, four) =>
        TagBack(num, 5, four + rest);
        assert EncodeUnknown(u) + rest == EncodeVarint(Tag(num, 5)) + (four + rest);
    }
  }

  lemma OpenBack(num: nat, rest: seq<Byte>, depth: nat)
    requires num < FIELD_LIMIT
    ensures ReadElement(EncodeVarint(Tag(num, 3)) + rest, depth) == Success(Element(|EncodeVarint(Tag(num, 3))|, depth + 1))
    ensures ReadElement(EncodeVarint(Tag(num, 4)) + rest, depth + 1) == Success(Element(|EncodeVarint(Tag(num, 4))|, depth))
  {
    hide DecodeVarint, ReadGroups, EncodeVarint, FieldNumber;
    TagBack(num, 3, rest);
    TagBack(num, 4, rest);
  }

  /** Inside a group, a well-formed field is passed over whole. */
  lemma {:induction false} SkipInside(u: Unknown, rest: seq<Byte>, depth: nat)
    requires WellFormed(u) && depth > 0 && rest != []
    ensures Skip(EncodeUnknown(u) + rest, depth) == Plus(|EncodeUnknown(u)|, Skip(rest, depth))
    decreases u
  {
    hide ReadElement, EncodeVarint;
    if u.Group? {
      var open, close, inner := EncodeVarint(Tag(u.num, 3)), EncodeVarint(Tag(u.num, 4)), EncodeMembers(u.members);
      assert EncodeUnknown(u) + rest == open + (inner + (close + rest));
      OpenBack(u.num, inner + (close + rest), depth);
      SkipOne(open, inner + (close + rest), depth, depth + 1);
      SkipMembers(u.members, close + rest, depth + 1);
      OpenBack(u.num, rest, depth);
      SkipOne(close, rest, depth + 1, depth);
    } else {
      ElementBack(u, rest, depth);
      SkipOne(EncodeUnknown(u), rest, depth, depth);
    }
  }

  lemma {:induction false} SkipMembers(ms: Members, rest: seq<Byte>, depth: nat)
    requires AllWellFormed(ms) && depth > 0 && rest != []
    ensures Skip(EncodeMembers(ms) + rest, depth) == Plus(|EncodeMembers(ms)|, Skip(rest, depth))
    decreases ms
  {
    hide Skip, EncodeUnknown;
    if ms.End? {
      assert EncodeMembers(ms) + rest == rest;
    } else {
      assert EncodeMembers(ms) + rest == EncodeUnknown(ms.first) + (EncodeMembers(ms.rest) + rest);
      SkipInside(ms.first, EncodeMembers(ms.rest) + rest, depth);
      SkipMembers(ms.rest, rest, depth);
    }
  }

  function Plus(n: nat, r: Result<nat, WireError>): Result<nat, WireError> {
    if r.Success? then Success(n + r.value) else r
  }

  /** One step of skipping that stays inside a group. */
  lemma SkipOne(e: seq<Byte>, rest: seq<Byte>, depth: nat, after: nat)
    requires ReadElement(e + rest, depth) == Success(Element(|e|, after)) && after > 0 && rest != [] && e != []
    ensures Skip(e + rest, depth) == Plus(|e|, Skip(rest, after))
  {
    assert (e + rest)[|e|..] == rest;
  }

  /** A well-formed field, with however deeply nested groups, is skipped exactly. */
  lemma SkipExactly(u: Unknown)
    requires WellFormed(u)
    ensures Skip(EncodeUnknown(u), 0) == Success(|EncodeUnknown(u)|)
  {
    hide ReadElement, EncodeVarint;
    if u.Group? {
      var open, close, inner := EncodeVarint(Tag(u.num, 3)), EncodeVarint(Tag(u.num, 4)), EncodeMembers(u.members);
      assert EncodeUnknown(u) == open + (inner + close);
      OpenBack(u.num, inner + close, 0);
      SkipOne(open, inner + close, 0, 1);
      SkipMembers(u.members, close, 1);
      OpenBack(u.num, [], 0);
      assert close + [] == close;
      assert Skip(close, 1) == Success(|close|);
    } else {
      ElementBack(u, [], 0);
      assert EncodeUnknown(u) + [] == EncodeUnknown(u);
    }
  }

  lemma UnknownFieldRead(kind: nat -> Kind, u: Unknown)
    requires WellFormed(u) && kind(u.num) == UnknownKind
    ensures EncodeUnknown(u) != []
    ensures ReadField(kind, EncodeUnknown(u)) == Success(Read(Skipped, |EncodeUnknown(u)|))
  {
    hide Skip, DecodeVarint, EncodeVarint, FieldNumber;
    SkipExactly(u);
    var bs := EncodeUnknown(u);
    match u {
      case UnknownVarint(num, v) => TagBack(num, 0, EncodeVarint(v));
      case Unknown64(num, eight) => TagBack(num, 1, eight);
      case UnknownBytes(num, bytes) => TagBack(num, 2, EncodeVarint(|bytes|) + bytes);
      case Group(num, members) =>
        TagBack(num, 3, EncodeMembers(members) + EncodeVarint(Tag(num, 4)));
        assert bs == EncodeVarint(Tag(num, 3)) + (EncodeMembers(members) + EncodeVarint(Tag(num, 4)));
      case Unknown32(num, four) => TagBack(num, 5, four);
    }
  }

  /** Inserting any well-formed unknown field between fields changes nothing. */
  lemma UnknownFieldIgnored<M>(c: Codec<M>, m: M, x: seq<Byte>, u: Unknown, y: seq<Byte>)
    requires Unmarshal(c, m, x).Success? && WellFormed(u) && c.kind(u.num) == UnknownKind
    ensures Unmarshal(c, m, x + EncodeUnknown(u) + y) == Unmarshal(c, m, x + y)
  {
    hide ReadField;
    var e, m' := EncodeUnknown(u), Unmarshal(c, m, x).value;
    UnknownFieldRead(c.kind, u);
    assert Unmarshal(c, m', e) == Success(m') by { assert e[|e|..] == []; }
    assert x + e + y == x + (e + y);
    UnmarshalConcat(c, m, x, e + y);
    UnmarshalConcat(c, m', e, y);
    UnmarshalConcat(c, m, x, y);
  }

  // ----- writing fields -----

  function WireType(v: Value): nat { if v.Varint? then 0 else 2 }

  function EncodeField(num: nat, v: Value): seq<Byte> {
    EncodeVarint(Tag(num, WireType(v))) + match v
      case Varint(x) => EncodeVarint(x)
      case Data(bytes) => EncodeVarint(|bytes|) + bytes
  }

  /** The field suits the message type, and its length fits an int. */
  predicate Fits(kind: nat -> Kind, num: nat, v: Value) {
    && 0 < num < FIELD_LIMIT
    && match v
       case Varint(_) => kind(num) == VarintKind
       case Data(bytes) => kind(num) == BytesKind && |bytes| < INT64_LIMIT
  }

  lemma FieldBack(kind: nat -> Kind, num: nat, v: Value)
    requires Fits(kind, num, v)
    ensures EncodeField(num, v) != []
    ensures ReadField(kind, EncodeField(num, v)) == Success(Read(Known(num, v), |EncodeField(num, v)|))
  {
    hide DecodeVarint, EncodeVarint, FieldNumber;
    var bs := EncodeField(num, v);
    match v {
      case Varint(x) =>
        TagBack(num, 0, EncodeVarint(x));
        VarintBack(x, []);
        assert EncodeVarint(x) + [] == EncodeVarint(x);
      case Data(bytes) =>
        var tag := EncodeVarint(Tag(num, 2));
        TagBack(num, 2, EncodeVarint(|bytes|) + bytes);
        VarintBack(|bytes|, bytes);
        assert bs[|tag|..] == EncodeVarint(|bytes|) + bytes;
        assert bs[|tag| + |EncodeVarint(|bytes|)|..|bs|] == bytes;
    }
  }

  /** An encoded field does to the message what the field does, and the rest is read from there. */
  lemma FieldThen<M>(c: Codec<M>, m: M, num: nat, v: Value, rest: seq<Byte>)
    requires Fits(c.kind, num, v) && c.apply(m, num, v).Success?
    ensures Unmarshal(c, m, EncodeField(num, v) + rest) == Unmarshal(c, c.apply(m, num, v).value, rest)
  {
    hide ReadField, EncodeField;
    var bs := EncodeField(num, v);
    FieldBack(c.kind, num, v);
    assert Unmarshal(c, m, bs) == c.apply(m, num, v) by { assert bs[|bs|..] == []; }
    UnmarshalConcat(c, m, bs, rest);
  }
}
