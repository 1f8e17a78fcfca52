/** The bytes of the cork records, tag by tag, and which bytes are read as a number or as a field. */
module ProtoLayout {
  import opened BigEndian
  import opened Integers
  import opened Outcomes
  import opened ProtoFields
  import opened ProtoRecords
  import opened ProtoWire

  // ----- varints -----

  /** The low seven bits of each byte, the least significant group first. */
  function GroupsValue(bs: seq<Byte>): nat {
    if bs == [] then 0 else bs[0] % 128 + 128 * GroupsValue(bs[1..])
  }

  /** Every byte but the last has its high bit set. */
  ghost predicate Chained(bs: seq<Byte>) {
    bs != [] && bs[|bs| - 1] < 128 && forall i :: 0 <= i < |bs| - 1 ==> bs[i] >= 128
  }

  /** A written varint is chained, has the value, and no group too many. */
  lemma {:induction false} VarintWritten(v: nat)
    ensures var bs := EncodeVarint(v);
            Chained(bs) && GroupsValue(bs) == v && (|bs| > 1 ==> bs[|bs| - 1] > 0)
  {
    if v >= 128 {
      VarintWritten(v / 128);
      var rest := EncodeVarint(v / 128);
      var bs := [v % 128 + 128] + rest;
      assert bs[1..] == rest;
      assert forall i :: 1 <= i < |bs| ==> bs[i] == rest[i - 1];
    }
  }

  /** The first `n` bytes are a varint of at most ten bytes. */
  ghost predicate VarintIn(bs: seq<Byte>, n: nat, most: int) {
    1 <= n <= |bs| && n <= most && Chained(bs[..n])
  }

  lemma {:induction false} GroupsRead(bs: seq<Byte>, shift: nat)
    requires shift % 7 == 0 && shift <= 70
    ensures forall v: nat, n: nat ::
              ReadGroups(bs, shift) == Success(Read(v, n)) <==> VarintIn(bs, n, 10 - shift / 7) && v == GroupsValue(bs[..n])
    decreases |bs|
  {
    hide GroupsValue, Chained;
    if shift < 64 && bs != [] {
      if bs[0] < 128 {
        forall v: nat, n: nat ensures ReadGroups(bs, shift) == Success(Read(v, n)) <==> VarintIn(bs, n, 10 - shift / 7) && v == GroupsValue(bs[..n]) {
          if 1 <= n <= |bs| { ShortChain(bs, n); }
        }
      } else {
        GroupsRead(bs[1..], shift + 7);
        forall v: nat, n: nat ensures ReadGroups(bs, shift) == Success(Read(v, n)) <==> VarintIn(bs, n, 10 - shift / 7) && v == GroupsValue(bs[..n]) {
          if 1 <= n <= |bs| { LongChain(bs, n); }
          LongRead(bs, shift, v, n);
        }
      }
    }
  }

  lemma ShortChain(bs: seq<Byte>, n: nat)
    requires 1 <= n <= |bs| && bs[0] < 128
    ensures Chained(bs[..n]) <==> n == 1
    ensures GroupsValue(bs[..1]) == bs[0]
  {
    assert bs[..n][0] == bs[0];
  }

  lemma LongChain(bs: seq<Byte>, n: nat)
    requires 1 <= n <= |bs| && bs[0] >= 128
    ensures Chained(bs[..n]) <==> n >= 2 && Chained(bs[1..][..n - 1])
    ensures GroupsValue(bs[..n]) == bs[0] - 128 + 128 * GroupsValue(bs[1..][..n - 1])
  {
    assert bs[..n][1..] == bs[1..][..n - 1];
    if n >= 2 {
      var a, b := bs[..n], bs[1..][..n - 1];
      assert a[|a| - 1] == b[|b| - 1];
      if Chained(b) { assert forall i :: 1 <= i < |a| - 1 ==> a[i] == b[i - 1]; }
      if Chained(a) { assert forall i :: 0 <= i < |b| - 1 ==> b[i] == a[i + 1]; }
    }
  }

  lemma LongRead(bs: seq<Byte>, shift: nat, v: nat, n: nat)
    requires shift % 7 == 0 && shift < 64 && bs != [] && bs[0] >= 128
    requires forall w: nat, m: nat ::
               ReadGroups(bs[1..], shift + 7) == Success(Read(w, m)) <==> VarintIn(bs[1..], m, 9 - shift / 7) && w == GroupsValue(bs[1..][..m])
    ensures ReadGroups(bs, shift) == Success(Read(v, n)) <==>
              n >= 2 && VarintIn(bs[1..], n - 1, 9 - shift / 7) && v == bs[0] - 128 + 128 * GroupsValue(bs[1..][..n - 1])
  {
    hide GroupsValue, Chained;
    var rest := ReadGroups(bs[1..], shift + 7);
    if n >= 2 && VarintIn(bs[1..], n - 1, 9 - shift / 7) && v == bs[0] - 128 + 128 * GroupsValue(bs[1..][..n - 1]) {
      VarintFits(bs[1..], n - 1, 9 - shift / 7);
      assert rest == Success(Read(GroupsValue(bs[1..][..n - 1]), n - 1));
    }
    if rest.Success? { VarintFits(bs[1..], rest.value.size, 9 - shift / 7); }
  }

  lemma VarintFits(bs: seq<Byte>, n: nat, most: int)
    ensures VarintIn(bs, n, most) ==> 1 <= n <= |bs|
  {}

  /** Exactly which bytes are read as a number: a chain of at most ten bytes, of whose value the low 64 bits count. */
  lemma VarintAccepted(bs: seq<Byte>, v: uint64, n: nat)
    ensures DecodeVarint(bs) == Success(Read(v, n)) <==> VarintIn(bs, n, 10) && v == GroupsValue(bs[..n]) % 0x1_0000_0000_0000_0000
  {
    hide ReadGroups, GroupsValue, Chained;
    GroupsRead(bs, 0);
    if VarintIn(bs, n, 10) {
      assert ReadGroups(bs, 0) == Success(Read(GroupsValue(bs[..n]), n));
    }
  }

  // ----- records -----

  /** A number under a one-byte tag; nothing for zero. */
  function Num(tag: Byte, v: uint64): seq<Byte> { if v == 0 then [] else [tag] + EncodeVarint(v) }

  /** Bytes under a one-byte tag, with their length. */
  function Block(tag: Byte, bytes: seq<Byte>): seq<Byte> { [tag] + EncodeVarint(|bytes|) + bytes }

  /** Likewise; nothing for no bytes. */
  function Text(tag: Byte, bytes: seq<Byte>): seq<Byte> { if bytes == [] then [] else Block(tag, bytes) }

  function Blocks(tag: Byte, entries: seq<seq<Byte>>): seq<Byte> {
    if entries == [] then [] else Block(tag, entries[0]) + Blocks(tag, entries[1..])
  }

  lemma FieldBytes(num: nat, v: uint64, bytes: seq<Byte>)
    requires 0 < num <= 4
    ensures OptVarint(num, v) == Num(8 * num, v)
    ensures EncodeField(num, Data(bytes)) == Block(8 * num + 2, bytes) && OptBytes(num, bytes) == Text(8 * num + 2, bytes)
  {
    hide EncodeVarint;
    SmallTag(num, Varint(v));
    SmallTag(num, Data(bytes));
  }

  lemma {:induction false} AllBytes(num: nat, entries: seq<seq<Byte>>)
    requires 0 < num <= 4
    ensures EncodeAll(num, entries) == Blocks(8 * num + 2, entries)
  {
    hide EncodeField, Block;
    if entries != [] {
      FieldBytes(num, 0, entries[0]);
      AllBytes(num, entries[1..]);
    }
  }

  /** A nested cork that is there is written even if it is empty. */
  function Nested(c: Option<AxelarCork>): seq<Byte> { if c.None? then [] else Block(0x0a, c.value.Encode()) }

  lemma NestedBytes(c: Option<AxelarCork>)
    ensures OptCork(1, c) == Nested(c)
  {
    hide EncodeField, Block;
    if c.Some? { FieldBytes(1, 0, c.value.Encode()); }
  }

  lemma CorkLayout(m: AxelarCork)
    ensures m.Encode() == Text(0x0a, m.call) + Num(0x10, m.chainId) + Text(0x1a, m.target) + Num(0x20, m.deadline)
  {
    hide OptBytes, OptVarint, Text, Num;
    FieldBytes(1, 0, m.call);
    FieldBytes(2, m.chainId, []);
    FieldBytes(3, 0, m.target);
    FieldBytes(4, m.deadline, []);
  }

  lemma ScheduledLayout(m: ScheduledAxelarCork)
    ensures m.Encode() == Nested(m.cork) + Num(0x10, m.blockHeight) + Text(0x1a, m.validator) + Text(0x22, m.id)
  {
    hide OptBytes, OptVarint, OptCork, Text, Num, Nested;
    NestedBytes(m.cork);
    FieldBytes(2, m.blockHeight, []);
    FieldBytes(3, 0, m.validator);
    FieldBytes(4, 0, m.id);
  }

  lemma ResultLayout(m: AxelarCorkResult)
    ensures m.Encode() == Nested(m.cork) + Num(0x10, m.blockHeight) + (if m.approved then [0x18, 1] else []) + Text(0x22, m.percentage)
  {
    hide OptBytes, OptCork, Text, Nested;
    NestedBytes(m.cork);
    FieldBytes(2, m.blockHeight, []);
    FieldBytes(3, BoolValue(m.approved), []);
    FieldBytes(4, 0, m.percentage);
    assert EncodeVarint(1) == [1];
  }

  lemma NonceLayout(m: AxelarContractCallNonce)
    ensures m.Encode() == Num(0x08, m.chainId) + Text(0x12, m.contract) + Num(0x18, m.nonce)
  {
    hide OptBytes, OptVarint, Text, Num;
    FieldBytes(1, m.chainId, []);
    FieldBytes(2, 0, m.contract);
    FieldBytes(3, m.nonce, []);
  }

  /** A negative threshold is written as the uint64 that is 2^64 above it. */
  lemma UpgradeDataLayout(m: AxelarUpgradeData)
    ensures m.Encode() == Num(0x08, m.chainId) + Text(0x12, m.payload)
                          + Num(0x18, if m.threshold < 0 then m.threshold + 0x1_0000_0000_0000_0000 else m.threshold)
  {
    hide OptBytes, OptVarint, Text, Num;
    FieldBytes(1, m.chainId, []);
    FieldBytes(2, 0, m.payload);
    FieldBytes(3, AsUint64(m.threshold), []);
  }

  lemma ListsLayout(corks: ScheduledAxelarCorks, results: AxelarCorkResults, cellars: CellarIDSet)
    ensures corks.Encode() == Blocks(0x0a, corks.Entries())
    ensures results.Encode() == Blocks(0x0a, results.Entries())
    ensures cellars.Encode() == Num(0x08, cellars.chainId) + Blocks(0x12, cellars.ids)
  {
    hide OptVarint, EncodeAll, Num, Blocks;
    AllBytes(1, corks.Entries());
    AllBytes(1, results.Entries());
    AllBytes(2, cellars.ids);
    FieldBytes(1, cellars.chainId, []);
  }

  // ----- fields -----

  /** Exactly when a field is refused for its tag alone: a closing group, a number that is not positive as an int32, or a known
      field of another wire type. */
  lemma TagsRefused(kind: nat -> Kind, bs: seq<Byte>)
    requires DecodeVarint(bs).Success?
    ensures var tag := DecodeVarint(bs).value.value;
            var number := tag / 8 % 0x1_0000_0000;
            && (tag % 8 == 4 <==> ReadField(kind, bs) == Failure(EndGroup))
            && (tag % 8 != 4 && (number == 0 || number >= 0x8000_0000) ==> ReadField(kind, bs) == Failure(IllegalTag))
            && (tag % 8 != 4 && 0 < number < 0x8000_0000 && kind(number).VarintKind? && tag % 8 != 0 ==> ReadField(kind, bs) == Failure(WrongWireType))
            && (tag % 8 != 4 && 0 < number < 0x8000_0000 && kind(number).BytesKind? && tag % 8 != 2 ==> ReadField(kind, bs) == Failure(WrongWireType))
  {
    hide DecodeVarint, Skip;
    NoEndGroup(bs);
    NoEndGroup(bs[DecodeVarint(bs).value.size..]);
  }

  lemma NoEndGroup(bs: seq<Byte>)
    ensures DecodeVarint(bs) != Failure(EndGroup) && ReadUnknownField(bs) != Failure(EndGroup)
  {
    NoEndGroupSkip(bs, 0);
    NoEndGroupGroups(bs, 0);
  }

  lemma {:induction false} NoEndGroupGroups(bs: seq<Byte>, shift: nat)
    ensures ReadGroups(bs, shift).Failure? ==> ReadGroups(bs, shift).error == IntOverflow || ReadGroups(bs, shift).error == UnexpectedEOF
    decreases |bs|
  {
    if shift < 64 && bs != [] && bs[0] >= 128 { NoEndGroupGroups(bs[1..], shift + 7); }
  }

  lemma {:induction false} NoEndGroupSkip(bs: seq<Byte>, depth: nat)
    ensures Skip(bs, depth) != Failure(EndGroup)
    decreases |bs|
  {
    hide ReadGroups;
    if bs != [] {
      NoEndGroupGroups(bs, 0);
      var tag := DecodeVarint(bs);
      if tag.Success? { NoEndGroupGroups(bs[tag.value.size..], 0); }
      var e := ReadElement(bs, depth);
      if e.Success? && e.value.depth > 0 && e.value.size < |bs| { NoEndGroupSkip(bs[e.value.size..], e.value.depth); }
    }
  }

  /** Of unknown fields, wire types 6 and 7 are refused, and fixed-width ones need their 8 or 4 bytes. */
  lemma UnknownFieldBounds(bs: seq<Byte>)
    requires DecodeVarint(bs).Success?
    ensures var tag, r := DecodeVarint(bs).value, ReadUnknownField(bs);
            && (tag.value % 8 >= 6 ==> r == Failure(IllegalWireType))
            && (tag.value % 8 == 4 ==> r == Failure(UnexpectedEndOfGroup))
            && (tag.value % 8 == 1 ==> r == if tag.size + 8 <= |bs| then Success(Read(Skipped, tag.size + 8)) else Failure(UnexpectedEOF))
            && (tag.value % 8 == 5 ==> r == if tag.size + 4 <= |bs| then Success(Read(Skipped, tag.size + 4)) else Failure(UnexpectedEOF))
  {
    hide DecodeVarint;
  }

  /** A field of bytes: its length must be below 2^63 and within the data. */
  lemma BytesFieldExactly(bs: seq<Byte>, num: nat, at: nat)
    requires 1 <= at <= |bs| && DecodeVarint(bs[at..]).Success?
    ensures var length := DecodeVarint(bs[at..]).value;
            var from := at + length.size;
            && (length.value >= 0x8000_0000_0000_0000 <==> ReadBytesField(bs, num, at) == Failure(InvalidLength))
            && (length.value < 0x8000_0000_0000_0000 && from + length.value > |bs| ==> ReadBytesField(bs, num, at) == Failure(UnexpectedEOF))
            && (length.value < 0x8000_0000_0000_0000 && from + length.value <= |bs| ==>
                  ReadBytesField(bs, num, at) == Success(Read(Known(num, Data(bs[from..from + length.value])), from + length.value)))
  {
    hide DecodeVarint;
  }
}
