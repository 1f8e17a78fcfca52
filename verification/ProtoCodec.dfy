/** The generated codec's loops: writing a buffer from its end, reading one from its start. */
module ProtoCodec {
  import opened BigEndian
  import opened Integers
  import opened Outcomes
  import opened ProtoFields
  import opened ProtoRecords
  import opened ProtoWire

  // ----- writing backwards -----

  /** Between `from` and `to` the buffer now holds `bytes`; the rest is as it was. */
  ghost predicate Patched(before: seq<Byte>, after: seq<Byte>, from: nat, to: nat, bytes: seq<Byte>) {
    && from <= to <= |before| && |after| == |before|
    && after[..from] == before[..from] && after[from..to] == bytes && after[to..] == before[to..]
  }

  /** Two adjacent writes are one. */
  lemma PatchTwice(s0: seq<Byte>, s1: seq<Byte>, s2: seq<Byte>, from: nat, mid: nat, to: nat, front: seq<Byte>, back: seq<Byte>)
    requires Patched(s0, s1, mid, to, back) && Patched(s1, s2, from, mid, front)
    ensures Patched(s0, s2, from, to, front + back)
  {
    assert s2[..from] == s1[..mid][..from] == s0[..mid][..from] == s0[..from];
    assert s2[to..] == s2[mid..][to - mid..] && s1[to..] == s1[mid..][to - mid..];
    assert s2[mid..to] == s2[mid..][..to - mid] == s1[mid..][..to - mid] == s1[mid..to];
    assert s2[from..to] == s2[from..mid] + s2[mid..to];
  }

  lemma PatchNothing(s: seq<Byte>, at: nat)
    requires at <= |s|
    ensures Patched(s, s, at, at, [])
  {}

  lemma FirstGroup(v: nat)
    ensures EncodeVarint(v) == if v < 128 then [v] else [v % 128 + 128] + EncodeVarint(v / 128)
  {}

  /** Write a varint that ends at `offset`, and return where it begins. */
  method EncodeVarintBefore(a: array<Byte>, offset: nat, v: uint64) returns (base: nat)
    requires Sov(v) <= offset <= a.Length
    modifies a
    ensures base == offset - Sov(v)
    ensures Patched(old(a[..]), a[..], base, offset, EncodeVarint(v))
  {
    hide Sov, EncodeVarint;
    SovIsVarintLength(v);
    base := offset - Sov(v);
    var at, rest: nat := base, v;
    while rest >= 128
      invariant base <= at <= offset && |EncodeVarint(rest)| == offset - at
      invariant EncodeVarint(v) == a[base..at] + EncodeVarint(rest)
      invariant a[..base] == old(a[..base]) && a[offset..] == old(a[offset..])
    {
      FirstGroup(rest);
      ghost var written := a[base..at];
      a[at] := rest % 128 + 128;
      rest := rest / 128;
      at := at + 1;
      assert a[base..at] == written + [a[at - 1]];
    }
    FirstGroup(rest);
    a[at] := rest;
  }

  /** Write a tag, which the generated code does as one byte. */
  method PutTag(a: array<Byte>, end: nat, num: nat, wireType: nat) returns (i: nat)
    requires 0 < num <= 4 && wireType < 8 && 1 <= end <= a.Length
    modifies a
    ensures i == end - 1 && Patched(old(a[..]), a[..], i, end, EncodeVarint(Tag(num, wireType)))
  {
    i := end - 1;
    a[i] := 8 * num + wireType;
  }

  method PutVarint(a: array<Byte>, end: nat, num: nat, v: uint64) returns (i: nat)
    requires 0 < num <= 4 && SizeVarint(v) <= end <= a.Length
    modifies a
    ensures i == end - SizeVarint(v) && Patched(old(a[..]), a[..], i, end, OptVarint(num, v))
  {
    hide Sov, EncodeVarint, Patched;
    i := end;
    PatchNothing(a[..], end);
    if v != 0 {
      i := EncodeVarintBefore(a, i, v);
      ghost var mid, s1 := i, a[..];
      i := PutTag(a, i, num, 0);
      PatchTwice(old(a[..]), s1, a[..], i, mid, end, EncodeVarint(Tag(num, 0)), EncodeVarint(v));
    }
  }

  /** Copy the bytes, then write their length and the tag before them. */
  method PutData(a: array<Byte>, end: nat, num: nat, bytes: seq<Byte>) returns (i: nat)
    requires 0 < num <= 4 && |bytes| < INT64_LIMIT && SizeData(|bytes|) <= end <= a.Length
    modifies a
    ensures i == end - SizeData(|bytes|) && Patched(old(a[..]), a[..], i, end, EncodeField(num, Data(bytes)))
  {
    hide Sov, EncodeVarint, Patched;
    i := end - |bytes|;
    CopyInto(a, i, bytes);
    i := PutHeader(a, i, num, |bytes|);
    FieldParts(num, bytes);
    ghost var header := EncodeVarint(Tag(num, 2)) + EncodeVarint(|bytes|);
    PatchTwice(old(a[..]), Copied(old(a[..]), end - |bytes|, bytes), a[..], i, end - |bytes|, end, header, bytes);
  }

  lemma FieldParts(num: nat, bytes: seq<Byte>)
    ensures EncodeField(num, Data(bytes)) == EncodeVarint(Tag(num, 2)) + EncodeVarint(|bytes|) + bytes
  {
    hide EncodeVarint;
  }

  ghost function Copied(s: seq<Byte>, at: nat, bytes: seq<Byte>): seq<Byte>
    requires at + |bytes| <= |s|
  {
    s[..at] + bytes + s[at + |bytes|..]
  }

  method CopyInto(a: array<Byte>, at: nat, bytes: seq<Byte>)
    requires at + |bytes| <= a.Length
    modifies a
    ensures a[..] == Copied(old(a[..]), at, bytes)
    ensures Patched(old(a[..]), a[..], at, at + |bytes|, bytes)
  {
    for k := 0 to |bytes|
      invariant a[..at] == old(a[..at]) && a[at..at + k] == bytes[..k] && a[at + k..] == old(a[at + k..])
    {
      a[at + k] := bytes[k];
    }
    assert a[at + |bytes|..] == old(a[at + |bytes|..]);
    assert a[..] == a[..at] + a[at..at + |bytes|] + a[at + |bytes|..];
  }

  /** The length and the tag of a length-delimited field whose contents are already there. */
  method PutHeader(a: array<Byte>, end: nat, num: nat, length: nat) returns (i: nat)
    requires 0 < num <= 4 && length < INT64_LIMIT && 1 + Sov(length) <= end <= a.Length
    modifies a
    ensures i == end - 1 - Sov(length)
    ensures Patched(old(a[..]), a[..], i, end, EncodeVarint(Tag(num, 2)) + EncodeVarint(length))
  {
    hide Sov, EncodeVarint, Patched;
    i := EncodeVarintBefore(a, end, length);
    ghost var mid, s1 := i, a[..];
    i := PutTag(a, i, num, 2);
    PatchTwice(old(a[..]), s1, a[..], i, mid, end, EncodeVarint(Tag(num, 2)), EncodeVarint(length));
  }

  method PutBytes(a: array<Byte>, end: nat, num: nat, bytes: seq<Byte>) returns (i: nat)
    requires 0 < num <= 4 && |bytes| < INT64_LIMIT && SizeBytes(|bytes|) <= end <= a.Length
    modifies a
    ensures i == end - SizeBytes(|bytes|) && Patched(old(a[..]), a[..], i, end, OptBytes(num, bytes))
  {
    hide SizeData, EncodeField, Patched;
    i := end;
    PatchNothing(a[..], end);
    if |bytes| > 0 { i := PutData(a, end, num, bytes); }
  }

  // ----- one record after the other -----

  method MarshalCork(m: AxelarCork, a: array<Byte>, end: nat) returns (i: nat)
    requires m.Size() < INT64_LIMIT && m.Size() <= end <= a.Length
    modifies a
    ensures i == end - m.Size() && Patched(old(a[..]), a[..], i, end, m.Encode())
  {
    hide SizeVarint, SizeBytes, OptVarint, OptBytes, Patched;
    SizeCovers(m.call, m.target);
    ghost var s0 := a[..];
    PatchNothing(s0, end);
    i := PutVarint(a, end, 4, m.deadline);
    ghost var e4, i4, s4 := OptVarint(4, m.deadline) + [], i, a[..];
    assert e4 == OptVarint(4, m.deadline);
    i := PutBytes(a, i, 3, m.target);
    ghost var e3, i3, s3 := OptBytes(3, m.target) + e4, i, a[..];
    PatchTwice(s0, s4, s3, i3, i4, end, OptBytes(3, m.target), e4);
    i := PutVarint(a, i, 2, m.chainId);
    ghost var e2, i2, s2 := OptVarint(2, m.chainId) + e3, i, a[..];
    PatchTwice(s0, s3, s2, i2, i3, end, OptVarint(2, m.chainId), e3);
    i := PutBytes(a, i, 1, m.call);
    PatchTwice(s0, s2, a[..], i, i2, end, OptBytes(1, m.call), e2);
  }

  lemma SizeCovers(x: seq<Byte>, y: seq<Byte>)
    ensures |x| <= SizeBytes(|x|) && |y| <= SizeBytes(|y|)
  {}

  /** A nested cork is written in place, then its length and tag before it. */
  method PutCork(a: array<Byte>, end: nat, num: nat, cork: Option<AxelarCork>) returns (i: nat)
    requires 0 < num <= 4 && SizeCork(cork) < INT64_LIMIT && SizeCork(cork) <= end <= a.Length
    modifies a
    ensures i == end - SizeCork(cork) && Patched(old(a[..]), a[..], i, end, OptCork(num, cork))
  {
    hide AxelarCork.Encode, AxelarCork.Size, Sov, EncodeVarint, Patched;
    i := end;
    PatchNothing(a[..], end);
    if cork.Some? {
      var m := cork.value;
      CorkSize(m);
      i := MarshalCork(m, a, end);
      ghost var mid, s1 := i, a[..];
      i := PutHeader(a, i, num, m.Size());
      FieldParts(num, m.Encode());
      PatchTwice(old(a[..]), s1, a[..], i, mid, end, EncodeVarint(Tag(num, 2)) + EncodeVarint(m.Size()), m.Encode());
    }
  }

  method MarshalScheduled(m: ScheduledAxelarCork, a: array<Byte>, end: nat) returns (i: nat)
    requires m.Size() < INT64_LIMIT && m.Size() <= end <= a.Length
    modifies a
    ensures i == end - m.Size() && Patched(old(a[..]), a[..], i, end, m.Encode())
  {
    hide SizeVarint, SizeBytes, SizeCork, OptVarint, OptBytes, OptCork, Patched;
    SizeCovers(m.validator, m.id);
    ghost var s0 := a[..];
    i := PutBytes(a, end, 4, m.id);
    ghost var e4, i4, s4 := OptBytes(4, m.id) + [], i, a[..];
    assert e4 == OptBytes(4, m.id);
    i := PutBytes(a, i, 3, m.validator);
    ghost var e3, i3, s3 := OptBytes(3, m.validator) + e4, i, a[..];
    PatchTwice(s0, s4, s3, i3, i4, end, OptBytes(3, m.validator), e4);
    i := PutVarint(a, i, 2, m.blockHeight);
    ghost var e2, i2, s2 := OptVarint(2, m.blockHeight) + e3, i, a[..];
    PatchTwice(s0, s3, s2, i2, i3, end, OptVarint(2, m.blockHeight), e3);
    i := PutCork(a, i, 1, m.cork);
    PatchTwice(s0, s2, a[..], i, i2, end, OptCork(1, m.cork), e2);
  }

  /** A true flag is the byte 1 with its tag before it. */
  method PutFlag(a: array<Byte>, end: nat, num: nat, flag: bool) returns (i: nat)
    requires 0 < num <= 4 && (if flag then 2 else 0) <= end <= a.Length
    modifies a
    ensures i == end - (if flag then 2 else 0) && Patched(old(a[..]), a[..], i, end, OptVarint(num, BoolValue(flag)))
  {
    i := end;
    if flag {
      i := i - 1;
      a[i] := 1;
      ghost var s1 := a[..];
      assert Patched(old(a[..]), s1, i, end, EncodeVarint(1));
      i := PutTag(a, i, num, 0);
      PatchTwice(old(a[..]), s1, a[..], i, end - 1, end, EncodeVarint(Tag(num, 0)), EncodeVarint(1));
    }
  }

  method MarshalResult(m: AxelarCorkResult, a: array<Byte>, end: nat) returns (i: nat)
    requires m.Size() < INT64_LIMIT && m.Size() <= end <= a.Length
    modifies a
    ensures i == end - m.Size() && Patched(old(a[..]), a[..], i, end, m.Encode())
  {
    hide SizeVarint, SizeBytes, SizeCork, OptVarint, OptBytes, OptCork, Patched;
    SizeCovers(m.percentage, []);
    ghost var s0 := a[..];
    i := PutBytes(a, end, 4, m.percentage);
    ghost var e4, i4, s4 := OptBytes(4, m.percentage) + [], i, a[..];
    assert e4 == OptBytes(4, m.percentage);
    i := PutFlag(a, i, 3, m.approved);
    ghost var e3, i3, s3 := OptVarint(3, BoolValue(m.approved)) + e4, i, a[..];
    PatchTwice(s0, s4, s3, i3, i4, end, OptVarint(3, BoolValue(m.approved)), e4);
    i := PutVarint(a, i, 2, m.blockHeight);
    ghost var e2, i2, s2 := OptVarint(2, m.blockHeight) + e3, i, a[..];
    PatchTwice(s0, s3, s2, i2, i3, end, OptVarint(2, m.blockHeight), e3);
    i := PutCork(a, i, 1, m.cork);
    PatchTwice(s0, s2, a[..], i, i2, end, OptCork(1, m.cork), e2);
  }

  method MarshalNonce(m: AxelarContractCallNonce, a: array<Byte>, end: nat) returns (i: nat)
    requires m.Size() < INT64_LIMIT && m.Size() <= end <= a.Length
    modifies a
    ensures i == end - m.Size() && Patched(old(a[..]), a[..], i, end, m.Encode())
  {
    hide SizeVarint, SizeBytes, OptVarint, OptBytes, Patched;
    SizeCovers(m.contract, []);
    ghost var s0 := a[..];
    i := PutVarint(a, end, 3, m.nonce);
    ghost var e3, i3, s3 := OptVarint(3, m.nonce) + [], i, a[..];
    assert e3 == OptVarint(3, m.nonce);
    i := PutBytes(a, i, 2, m.contract);
    ghost var e2, i2, s2 := OptBytes(2, m.contract) + e3, i, a[..];
    PatchTwice(s0, s3, s2, i2, i3, end, OptBytes(2, m.contract), e3);
    i := PutVarint(a, i, 1, m.chainId);
    PatchTwice(s0, s2, a[..], i, i2, end, OptVarint(1, m.chainId), e2);
  }

  method MarshalUpgrade(m: AxelarUpgradeData, a: array<Byte>, end: nat) returns (i: nat)
    requires m.Size() < INT64_LIMIT && m.Size() <= end <= a.Length
    modifies a
    ensures i == end - m.Size() && Patched(old(a[..]), a[..], i, end, m.Encode())
  {
    hide SizeVarint, SizeBytes, OptVarint, OptBytes, Patched;
    SizeCovers(m.payload, []);
    ghost var s0 := a[..];
    i := PutVarint(a, end, 3, AsUint64(m.threshold));
    ghost var e3, i3, s3 := OptVarint(3, AsUint64(m.threshold)) + [], i, a[..];
    assert e3 == OptVarint(3, AsUint64(m.threshold));
    i := PutBytes(a, i, 2, m.payload);
    ghost var e2, i2, s2 := OptBytes(2, m.payload) + e3, i, a[..];
    PatchTwice(s0, s3, s2, i2, i3, end, OptBytes(2, m.payload), e3);
    i := PutVarint(a, i, 1, m.chainId);
    PatchTwice(s0, s2, a[..], i, i2, end, OptVarint(1, m.chainId), e2);
  }

  // ----- repeated fields, from the last entry to the first -----

  lemma {:induction false} SizeOfTail(sizes: seq<nat>, i: nat)
    requires i <= |sizes|
    ensures SizeAll(sizes[i..]) <= SizeAll(sizes)
    ensures i < |sizes| ==> SizeAll(sizes[i..]) == SizeData(sizes[i]) + SizeAll(sizes[i + 1..])
  {
    hide SizeData;
    if i < |sizes| { assert sizes[i..][1..] == sizes[i + 1..]; }
    if i > 0 {
      SizeOfTail(sizes[1..], i - 1);
      assert sizes[1..][i - 1..] == sizes[i..];
    } else {
      assert sizes[0..] == sizes;
    }
  }

  /** One more entry before those already written. */
  lemma PatchEntry(s0: seq<Byte>, s1: seq<Byte>, s2: seq<Byte>, i: nat, mid: nat, end: nat, num: nat, entries: seq<seq<Byte>>, k: nat)
    requires k < |entries|
    requires Patched(s0, s1, mid, end, EncodeAll(num, entries[k + 1..]))
    requires Patched(s1, s2, i, mid, EncodeField(num, Data(entries[k])))
    ensures Patched(s0, s2, i, end, EncodeAll(num, entries[k..]))
  {
    hide Patched, EncodeField;
    PatchTwice(s0, s1, s2, i, mid, end, EncodeField(num, Data(entries[k])), EncodeAll(num, entries[k + 1..]));
    assert entries[k..][1..] == entries[k + 1..];
  }

  /** A nested record is in place; its length and tag complete the field. */
  method PutNestedHeader(a: array<Byte>, at: nat, num: nat, size: nat, ghost s0: seq<Byte>, ghost encoded: seq<Byte>) returns (i: nat)
    requires 0 < num <= 4 && |encoded| == size < INT64_LIMIT && SizeData(size) <= at + size <= a.Length
    requires Patched(s0, a[..], at, at + size, encoded)
    modifies a
    ensures i == at + size - SizeData(size) && Patched(s0, a[..], i, at + size, EncodeField(num, Data(encoded)))
  {
    hide Sov, EncodeVarint, Patched;
    ghost var s1 := a[..];
    i := PutHeader(a, at, num, size);
    FieldParts(num, encoded);
    PatchTwice(s0, s1, a[..], i, at, at + size, EncodeVarint(Tag(num, 2)) + EncodeVarint(size), encoded);
  }

  method MarshalScheduleds(m: ScheduledAxelarCorks, a: array<Byte>, end: nat) returns (i: nat)
    requires m.Size() < INT64_LIMIT && m.Size() <= end <= a.Length
    modifies a
    ensures i == end - m.Size() && Patched(old(a[..]), a[..], i, end, m.Encode())
  {
    hide SizeData, SizeAll, EncodeAll, EncodeField, Patched, ScheduledAxelarCork.Encode, ScheduledAxelarCork.Size;
    ghost var s0, sizes, entries := a[..], m.Sizes(), m.Entries();
    i := end;
    NoEntries(s0, end, 1, sizes, entries);
    for k := |m.corks| downto 0
      invariant i == end - SizeAll(sizes[k..]) && Patched(s0, a[..], i, end, EncodeAll(1, entries[k..]))
    {
      SizeOfTail(sizes, k);
      EntryFits(sizes[k]);
      ScheduledSize(m.corks[k]);
      ghost var mid, s1 := i, a[..];
      i := MarshalScheduled(m.corks[k], a, i);
      i := PutNestedHeader(a, i, 1, m.corks[k].Size(), s1, entries[k]);
      PatchEntry(s0, s1, a[..], i, mid, end, 1, entries, k);
    }
    assert sizes[0..] == sizes && entries[0..] == entries;
  }

  lemma NoEntries(s: seq<Byte>, end: nat, num: nat, sizes: seq<nat>, entries: seq<seq<Byte>>)
    requires end <= |s| && |sizes| == |entries|
    ensures SizeAll(sizes[|sizes|..]) == 0 && SizeAll(sizes) >= 0
    ensures Patched(s, s, end, end, EncodeAll(num, entries[|entries|..]))
  {}

  lemma EntryFits(n: nat)
    ensures n < SizeData(n)
  {}

  method MarshalResults(m: AxelarCorkResults, a: array<Byte>, end: nat) returns (i: nat)
    requires m.Size() < INT64_LIMIT && m.Size() <= end <= a.Length
    modifies a
    ensures i == end - m.Size() && Patched(old(a[..]), a[..], i, end, m.Encode())
  {
    hide SizeData, SizeAll, EncodeAll, EncodeField, Patched, AxelarCorkResult.Encode, AxelarCorkResult.Size;
    ghost var s0, sizes, entries := a[..], m.Sizes(), m.Entries();
    i := end;
    NoEntries(s0, end, 1, sizes, entries);
    for k := |m.results| downto 0
      invariant i == end - SizeAll(sizes[k..]) && Patched(s0, a[..], i, end, EncodeAll(1, entries[k..]))
    {
      SizeOfTail(sizes, k);
      EntryFits(sizes[k]);
      ResultSize(m.results[k]);
      ghost var mid, s1 := i, a[..];
      i := MarshalResult(m.results[k], a, i);
      i := PutNestedHeader(a, i, 1, m.results[k].Size(), s1, entries[k]);
      PatchEntry(s0, s1, a[..], i, mid, end, 1, entries, k);
    }
    assert sizes[0..] == sizes && entries[0..] == entries;
  }

  method MarshalCellars(m: CellarIDSet, a: array<Byte>, end: nat) returns (i: nat)
    requires m.Size() < INT64_LIMIT && m.Size() <= end <= a.Length
    modifies a
    ensures i == end - m.Size() && Patched(old(a[..]), a[..], i, end, m.Encode())
  {
    hide SizeData, SizeAll, SizeVarint, OptVarint, EncodeAll, EncodeField, Patched;
    ghost var s0, sizes := a[..], m.Sizes();
    i := end;
    NoEntries(s0, end, 2, sizes, m.ids);
    for k := |m.ids| downto 0
      invariant i == end - SizeAll(sizes[k..]) && Patched(s0, a[..], i, end, EncodeAll(2, m.ids[k..]))
    {
      SizeOfTail(sizes, k);
      EntryFits(sizes[k]);
      ghost var mid, s1 := i, a[..];
      i := PutData(a, i, 2, m.ids[k]);
      PatchEntry(s0, s1, a[..], i, mid, end, 2, m.ids, k);
    }
    assert sizes[0..] == sizes && m.ids[0..] == m.ids;
    ghost var mid, s1 := i, a[..];
    i := PutVarint(a, i, 1, m.chainId);
    PatchTwice(s0, s1, a[..], i, mid, end, OptVarint(1, m.chainId), EncodeAll(2, m.ids));
  }

  /** The size is the sum over the entries. */
  method SizeScheduleds(m: ScheduledAxelarCorks) returns (n: nat)
    ensures n == |m.Encode()|
  {
    hide SizeData, ScheduledAxelarCork.Size, ScheduledAxelarCork.Encode;
    ghost var sizes := m.Sizes();
    n := 0;
    for k := 0 to |m.corks|
      invariant n + SizeAll(sizes[k..]) == SizeAll(sizes)
    {
      SizeOfTail(sizes, k);
      n := n + SizeData(m.corks[k].Size());
    }
    ScheduledsSize(m);
  }

  /** A buffer of exactly the computed size is filled exactly. */
  method Marshal(m: ScheduledAxelarCorks) returns (a: array<Byte>)
    requires m.Size() < INT64_LIMIT
    ensures fresh(a) && a[..] == m.Encode()
    ensures Unmarshal(SCHEDULEDS, EMPTY_SCHEDULEDS, a[..]) == Success(m)
  {
    hide Unmarshal, ScheduledAxelarCorks.Encode, ScheduledAxelarCorks.Size;
    ScheduledsSize(m);
    var size := SizeScheduleds(m);
    a := new Byte[size];
    var i := MarshalScheduleds(m, a, size);
    assert a[..] == a[i..size];
    ScheduledsRoundTrip(m);
  }

  // ----- reading forwards -----

  /** Reading from `index` on gave the groups so far: `k` of them, worth `value`. */
  ghost predicate GroupsSoFar(bs: seq<Byte>, k: nat, value: nat)
    requires k <= |bs|
  {
    ReadGroups(bs, 0) == Shifted(value, k, ReadGroups(bs[k..], 7 * k))
  }

  ghost function Shifted(value: nat, k: nat, r: Result<Read<nat>, WireError>): Result<Read<nat>, WireError> {
    if r.Success? then Success(Read(value + Pow128(k) * r.value.value, k + r.value.size)) else r
  }

  lemma NoGroupsYet(bs: seq<Byte>)
    ensures GroupsSoFar(bs, 0, 0)
  {
    assert bs[0..] == bs;
    assert Pow128(0) == 1;
  }

  lemma Regroup(value: int, p: int, g: int, x: int)
    ensures value + p * (g + 128 * x) == (value + g * p) + (128 * p) * x
  {}

  lemma GroupIsNat(g: nat, p: nat)
    ensures g * p >= 0
  {}

  /** Reading on from the next byte. */
  lemma ReadOn(bs: seq<Byte>, k: nat)
    requires k < |bs| && 7 * k < 64
    ensures ReadGroups(bs[k..], 7 * k) ==
            if bs[k] < 128 then Success(Read(bs[k], 1)) else NextGroup(bs[k] - 128, ReadGroups(bs[k + 1..], 7 * (k + 1)))
  {
    assert bs[k..][1..] == bs[k + 1..];
  }

  ghost function NextGroup(g: nat, r: Result<Read<nat>, WireError>): Result<Read<nat>, WireError> {
    if r.Success? then Success(Read(g + 128 * r.value.value, r.value.size + 1)) else r
  }

  lemma OneMoreGroup(bs: seq<Byte>, k: nat, value: nat, value': nat)
    requires k < |bs| && 7 * k < 64 && bs[k] >= 128 && GroupsSoFar(bs, k, value)
    requires value' == value + (bs[k] - 128) * Pow128(k)
    ensures GroupsSoFar(bs, k + 1, value')
  {
    ReadOn(bs, k);
    assert Pow128(k + 1) == 128 * Pow128(k);
    hide ReadGroups, Pow128;
    var rest := ReadGroups(bs[k + 1..], 7 * (k + 1));
    if rest.Success? { Regroup(value, Pow128(k), bs[k] - 128, rest.value.value); }
  }

  lemma Commute(p: int, g: int)
    ensures p * g == g * p
  {}

  lemma LastGroup(bs: seq<Byte>, k: nat, value: nat, value': nat)
    requires k < |bs| && 7 * k < 64 && bs[k] < 128 && GroupsSoFar(bs, k, value)
    requires value' == value + bs[k] * Pow128(k)
    ensures ReadGroups(bs, 0) == Success(Read(value', k + 1))
  {
    ReadOn(bs, k);
    hide ReadGroups, Pow128;
    Commute(Pow128(k), bs[k]);
  }

  /** Gather the groups of a varint, each shifted into its place; bits beyond 64 fall away. */
  method ReadVarint(data: seq<Byte>, index: nat) returns (r: Result<Read<uint64>, WireError>)
    requires index <= |data|
    ensures r == DecodeVarint(data[index..])
  {
    hide ReadGroups, Pow128, GroupsSoFar, WrapUint64;
    ghost var bs := data[index..];
    ghost var exact: nat := 0;
    var value: uint64 := 0;
    var place: int, k: nat := 1, 0;
    NoGroupsYet(bs);
    NoneRead();
    while true
      invariant 0 <= k <= 10 && index + k <= |data| && place == Pow128(k)
      invariant GroupsSoFar(bs, k, exact) && value == WrapUint64(exact)
      decreases 10 - k
    {
      NoMoreGroups(bs, k, exact);
      if 7 * k >= 64 { return Failure(IntOverflow); }
      if index + k >= |data| { return Failure(UnexpectedEOF); }
      var b: int := data[index + k];
      GroupIsNat(b % 128, place);
      WrapStep(exact, b % 128 * place);
      value := WrapUint64(value + b % 128 * place);
      if b < 128 {
        LastGroup(bs, k, exact, exact + b % 128 * place);
        return Success(Read(value, k + 1));
      }
      OneMoreGroup(bs, k, exact, exact + b % 128 * place);
      NextPlace(k);
      exact := exact + b % 128 * place;
      k, place := k + 1, 128 * place;
    }
  }

  lemma NoneRead()
    ensures Pow128(0) == 1 && WrapUint64(0) == 0
  {}

  lemma WrapStep(x: nat, y: nat)
    ensures WrapUint64(WrapUint64(x) + y) == WrapUint64(x + y)
  {}

  lemma NextPlace(k: nat)
    ensures Pow128(k + 1) == 128 * Pow128(k)
  {}

  /** What it means that a varint cannot go on. */
  lemma NoMoreGroups(bs: seq<Byte>, k: nat, value: nat)
    requires k <= |bs| && GroupsSoFar(bs, k, value)
    ensures 7 * k >= 64 ==> ReadGroups(bs, 0) == Failure(IntOverflow)
    ensures 7 * k < 64 && k == |bs| ==> ReadGroups(bs, 0) == Failure(UnexpectedEOF)
  {}

  // ----- skipping -----

  method ReadElementAt(data: seq<Byte>, index: nat, depth: nat) returns (r: Result<Element, WireError>)
    requires index <= |data|
    ensures r == ReadElement(data[index..], depth)
  {
    hide DecodeVarint, ReadGroups;
    var tag := ReadVarint(data, index);
    if tag.Failure? { return Failure(tag.error); }
    var at := index + tag.value.size;
    assert data[index..][tag.value.size..] == data[at..];
    match tag.value.value % 8 {
      case 0 =>
        var v := ReadVarint(data, at);
        DecodedGroups(data[at..]);
        if v.Failure? { return Failure(v.error); }
        return Success(Element(tag.value.size + v.value.size, depth));
      case 1 => return Success(Element(tag.value.size + 8, depth));
      case 2 =>
        var length := ReadVarint(data, at);
        if length.Failure? { return Failure(length.error); }
        if length.value.value >= INT64_LIMIT { return Failure(InvalidLength); }
        return Success(Element(tag.value.size + length.value.size + length.value.value, depth));
      case 3 => return Success(Element(tag.value.size, depth + 1));
      case 4 =>
        if depth == 0 { return Failure(UnexpectedEndOfGroup); }
        return Success(Element(tag.value.size, depth - 1));
      case 5 => return Success(Element(tag.value.size + 4, depth));
      case _ => return Failure(IllegalWireType);
    }
  }

  lemma DecodedGroups(bs: seq<Byte>)
    ensures DecodeVarint(bs).Success? <==> ReadGroups(bs, 0).Success?
    ensures DecodeVarint(bs).Success? ==> DecodeVarint(bs).value.size == ReadGroups(bs, 0).value.size
    ensures DecodeVarint(bs).Failure? ==> DecodeVarint(bs).error == ReadGroups(bs, 0).error
  {}

  /** Pass over elements until every group is closed. */
  method SkipField(data: seq<Byte>, index: nat) returns (r: Result<nat, WireError>)
    requires index <= |data|
    ensures r == Skip(data[index..], 0)
  {
    hide ReadElement, SkipsOn, Skip;
    ghost var bs := data[index..];
    var at, depth: nat := 0, 0;
    NothingSkipped(bs);
    while index + at < |data|
      invariant SkipsOn(bs, at, depth)
      decreases |data| - index - at
    {
      var e := ReadElementAt(data, index + at, depth);
      assert data[index + at..] == bs[at..];
      SkipStep(bs, at, depth);
      if e.Failure? { return Failure(e.error); }
      at, depth := at + e.value.size, e.value.depth;
      if depth == 0 { return Success(at); }
    }
    SkipEnds(bs, at, depth);
    return Failure(UnexpectedEOF);
  }

  /** Skipping from the start is skipping from `at` at this depth. */
  ghost predicate SkipsOn(bs: seq<Byte>, at: nat, depth: nat) {
    Skip(bs, 0) == if at <= |bs| then Plus(at, Skip(bs[at..], depth)) else Failure(UnexpectedEOF)
  }

  lemma NothingSkipped(bs: seq<Byte>)
    ensures SkipsOn(bs, 0, 0)
  {
    assert bs[0..] == bs;
  }

  lemma SkipEnds(bs: seq<Byte>, at: nat, depth: nat)
    requires SkipsOn(bs, at, depth) && at >= |bs|
    ensures Skip(bs, 0) == Failure(UnexpectedEOF)
  {
    if at == |bs| { assert bs[at..] == []; }
  }

  lemma SkipStep(bs: seq<Byte>, at: nat, depth: nat)
    requires SkipsOn(bs, at, depth) && at < |bs|
    ensures match ReadElement(bs[at..], depth)
            case Failure(e) => Skip(bs, 0) == Failure(e)
            case Success(e) => if e.depth == 0 then Skip(bs, 0) == Success(at + e.size) else SkipsOn(bs, at + e.size, e.depth)
  {
    hide ReadElement;
    var e := ReadElement(bs[at..], depth);
    if e.Success? && e.value.depth > 0 && at + e.value.size <= |bs| {
      assert bs[at..][e.value.size..] == bs[at + e.value.size..];
      if at + e.value.size == |bs| { assert bs[at + e.value.size..] == []; }
    }
  }

  // ----- a record -----

  method ReadFieldAt(kind: nat -> Kind, data: seq<Byte>, index: nat) returns (r: Result<Read<Field>, WireError>)
    requires index < |data|
    ensures r == ReadField(kind, data[index..])
  {
    hide DecodeVarint, Skip;
    var tag := ReadVarint(data, index);
    if tag.Failure? { return Failure(tag.error); }
    var num, wireType := FieldNumber(tag.value.value), tag.value.value % 8;
    if wireType == 4 { return Failure(EndGroup); }
    if num <= 0 { return Failure(IllegalTag); }
    var at := index + tag.value.size;
    assert data[index..][tag.value.size..] == data[at..];
    match kind(num) {
      case VarintKind =>
        if wireType != 0 { return Failure(WrongWireType); }
        var v := ReadVarint(data, at);
        if v.Failure? { return Failure(v.error); }
        return Success(Read(Known(num, Varint(v.value.value)), tag.value.size + v.value.size));
      case BytesKind =>
        if wireType != 2 { return Failure(WrongWireType); }
        var length := ReadVarint(data, at);
        if length.Failure? { return Failure(length.error); }
        if length.value.value >= INT64_LIMIT { return Failure(InvalidLength); }
        var from := at + length.value.size;
        var postIndex := from + length.value.value;
        if postIndex > |data| { return Failure(UnexpectedEOF); }
        assert data[index..][from - index..postIndex - index] == data[from..postIndex];
        return Success(Read(Known(num, Data(data[from..postIndex])), postIndex - index));
      case UnknownKind =>
        var skippy := SkipField(data, index);
        if skippy.Failure? { return Failure(skippy.error); }
        if index + skippy.value > |data| { return Failure(UnexpectedEOF); }
        return Success(Read(Skipped, skippy.value));
    }
  }

  /** The loop of every generated `Unmarshal`: read a field, store it, go on behind it. */
  method UnmarshalRecord<M>(c: Codec<M>, m0: M, data: seq<Byte>) returns (r: Result<M, WireError>)
    ensures r == Unmarshal(c, m0, data)
  {
    hide ReadField;
    var m, index := m0, 0;
    assert data[0..] == data;
    while index < |data|
      invariant index <= |data| && Unmarshal(c, m0, data) == Unmarshal(c, m, data[index..])
    {
      var f := ReadFieldAt(c.kind, data, index);
      if f.Failure? { return Failure(f.error); }
      assert data[index..][f.value.size..] == data[index + f.value.size..];
      var applied := Apply(c, m, f.value.value);
      if applied.Failure? { return Failure(applied.error); }
      m := applied.value;
      index := index + f.value.size;
    }
    return Success(m);
  }

  /** The loop for one cork, its fields set one by one. */
  method UnmarshalCork(m: AxelarCork, data: seq<Byte>) returns (r: Result<AxelarCork, WireError>)
    ensures r == Unmarshal(CORK, m, data)
  {
    hide ReadField;
    var call, chainId, target, deadline := m.call, m.chainId, m.target, m.deadline;
    var index := 0;
    assert data[0..] == data;
    while index < |data|
      invariant index <= |data|
      invariant Unmarshal(CORK, m, data) == Unmarshal(CORK, AxelarCork(call, chainId, target, deadline), data[index..])
    {
      var f := ReadFieldAt(CorkKind, data, index);
      if f.Failure? { return Failure(f.error); }
      assert data[index..][f.value.size..] == data[index + f.value.size..];
      index := index + f.value.size;
      match f.value.value {
        case Skipped =>
        case Known(num, Varint(x)) => if num == 2 { chainId := x; } else { deadline := x; }
        case Known(num, Data(bytes)) => if num == 1 { call := bytes; } else { target := bytes; }
      }
    }
    return Success(AxelarCork(call, chainId, target, deadline));
  }
}
