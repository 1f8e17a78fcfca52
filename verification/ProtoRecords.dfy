/** The cork records: their encodings, their decoders, and what decoding an encoding gives. */
module ProtoRecords {
  import opened BigEndian
  import opened Integers
  import opened Outcomes
  import opened ProtoFields
  import opened ProtoWire

  // ----- fields that are left out when they hold the default -----

  function OptVarint(num: nat, v: uint64): seq<Byte> { if v == 0 then [] else EncodeField(num, Varint(v)) }
  function OptBytes(num: nat, bytes: seq<Byte>): seq<Byte> { if bytes == [] then [] else EncodeField(num, Data(bytes)) }

  /** A scalar of the second message wins unless it is the default. */
  function Later<T(==)>(a: T, b: T, default_: T): T { if b == default_ then a else b }

  function SizeVarint(v: uint64): nat { if v == 0 then 0 else 1 + Sov(v) }
  function SizeBytes(n: nat): nat { if n == 0 then 0 else SizeData(n) }
  function SizeData(n: nat): nat { 1 + n + Sov(n) }

  /** The tags of the fields 1 to 4 are single bytes. */
  lemma SmallTag(num: nat, v: Value)
    requires 0 < num <= 4
    ensures EncodeVarint(Tag(num, WireType(v))) == [Tag(num, WireType(v))]
  {}

  lemma FieldSize(num: nat, v: Value)
    requires 0 < num <= 4
    ensures |EncodeField(num, v)| == match v case Varint(x) => 1 + Sov(x) case Data(bytes) => SizeData(|bytes|)
  {
    hide EncodeVarint, Sov;
    SmallTag(num, v);
    match v {
      case Varint(x) => SovIsVarintLength(x);
      case Data(bytes) => SovIsVarintLength(|bytes|);
    }
  }

  lemma OptSizes(num: nat, v: uint64, bytes: seq<Byte>)
    requires 0 < num <= 4
    ensures |OptVarint(num, v)| == SizeVarint(v) && |OptBytes(num, bytes)| == SizeBytes(|bytes|)
  {
    hide EncodeField, Sov;
    FieldSize(num, Varint(v));
    FieldSize(num, Data(bytes));
  }

  /** The contents of a field are no longer than the field. */
  lemma FieldCovers(num: nat, bytes: seq<Byte>)
    ensures |bytes| < |EncodeField(num, Data(bytes))| && |bytes| <= |OptBytes(num, bytes)|
  {
    hide EncodeVarint;
  }

  lemma VarintThen<M>(c: Codec<M>, m: M, num: nat, v: uint64, rest: seq<Byte>, m': M)
    requires 0 < num <= 4 && c.kind(num) == VarintKind
    requires if v == 0 then m' == m else c.apply(m, num, Varint(v)) == Success(m')
    ensures Unmarshal(c, m, OptVarint(num, v) + rest) == Unmarshal(c, m', rest)
  {
    hide Unmarshal, EncodeField;
    if v == 0 { assert OptVarint(num, v) + rest == rest; } else { FieldThen(c, m, num, Varint(v), rest); }
  }

  lemma BytesThen<M>(c: Codec<M>, m: M, num: nat, bytes: seq<Byte>, rest: seq<Byte>, m': M)
    requires 0 < num <= 4 && c.kind(num) == BytesKind && |bytes| < INT64_LIMIT
    requires if bytes == [] then m' == m else c.apply(m, num, Data(bytes)) == Success(m')
    ensures Unmarshal(c, m, OptBytes(num, bytes) + rest) == Unmarshal(c, m', rest)
  {
    hide Unmarshal, EncodeField;
    if bytes == [] { assert OptBytes(num, bytes) + rest == rest; } else { FieldThen(c, m, num, Data(bytes), rest); }
  }

  lemma NothingLeft<M>(c: Codec<M>, m: M)
    ensures Unmarshal(c, m, []) == Success(m)
  {}

  // ----- AxelarCork -----

  datatype AxelarCork = AxelarCork(call: seq<Byte>, chainId: uint64, target: seq<Byte>, deadline: uint64) {
    function Encode(): seq<Byte> {
      OptBytes(1, call) + (OptVarint(2, chainId) + (OptBytes(3, target) + (OptVarint(4, deadline) + [])))
    }

    function Size(): nat { SizeBytes(|call|) + SizeVarint(chainId) + SizeBytes(|target|) + SizeVarint(deadline) }

    function Merge(b: AxelarCork): AxelarCork {
      AxelarCork(Later(call, b.call, []), Later(chainId, b.chainId, 0), Later(target, b.target, []), Later(deadline, b.deadline, 0))
    }
  }

  const EMPTY_CORK := AxelarCork([], 0, [], 0)

  function CorkKind(num: nat): Kind {
    if num == 1 || num == 3 then BytesKind else if num == 2 || num == 4 then VarintKind else UnknownKind
  }

  function CorkApply(m: AxelarCork, num: nat, v: Value): Result<AxelarCork, WireError> {
    match v
    case Data(bytes) => if num == 1 then Success(m.(call := bytes)) else Success(m.(target := bytes))
    case Varint(x) => if num == 2 then Success(m.(chainId := x)) else Success(m.(deadline := x))
  }

  const CORK := Codec(CorkKind, CorkApply)

  lemma CorkSize(m: AxelarCork)
    ensures |m.Encode()| == m.Size()
  {
    hide OptBytes, OptVarint, SizeBytes, SizeVarint;
    OptSizes(1, 0, m.call);
    OptSizes(2, m.chainId, []);
    OptSizes(3, 0, m.target);
    OptSizes(4, m.deadline, []);
  }

  /** Decoding an encoding into a message merges the two. */
  lemma CorkMerges(a: AxelarCork, b: AxelarCork)
    requires |b.Encode()| < INT64_LIMIT
    ensures Unmarshal(CORK, a, b.Encode()) == Success(a.Merge(b))
  {
    hide Unmarshal, OptBytes, OptVarint;
    FieldCovers(1, b.call);
    FieldCovers(3, b.target);
    var a1 := a.(call := Later(a.call, b.call, []));
    var a2 := a1.(chainId := Later(a.chainId, b.chainId, 0));
    var a3 := a2.(target := Later(a.target, b.target, []));
    var rest4 := OptVarint(4, b.deadline) + [];
    var rest3 := OptBytes(3, b.target) + rest4;
    BytesThen(CORK, a, 1, b.call, OptVarint(2, b.chainId) + rest3, a1);
    VarintThen(CORK, a1, 2, b.chainId, rest3, a2);
    BytesThen(CORK, a2, 3, b.target, rest4, a3);
    VarintThen(CORK, a3, 4, b.deadline, [], a.Merge(b));
    NothingLeft(CORK, a.Merge(b));
  }

  lemma CorkRoundTrip(m: AxelarCork)
    requires |m.Encode()| < INT64_LIMIT
    ensures Unmarshal(CORK, EMPTY_CORK, m.Encode()) == Success(m)
  {
    hide Unmarshal;
    CorkMerges(EMPTY_CORK, m);
  }

  // ----- an optional nested cork -----

  function OptCork(num: nat, c: Option<AxelarCork>): seq<Byte> {
    if c.None? then [] else EncodeField(num, Data(c.value.Encode()))
  }

  function SizeCork(c: Option<AxelarCork>): nat {
    if c.None? then 0 else SizeData(c.value.Size())
  }

  function OrEmpty(c: Option<AxelarCork>): AxelarCork { if c.None? then EMPTY_CORK else c.value }

  function MergeCork(a: Option<AxelarCork>, b: Option<AxelarCork>): Option<AxelarCork> {
    if b.None? then a else Some(OrEmpty(a).Merge(b.value))
  }

  /** Reading a nested cork into one that may already be there. */
  function ReadCork(c: Option<AxelarCork>, bytes: seq<Byte>): Result<Option<AxelarCork>, WireError> {
    var cork :- Unmarshal(CORK, OrEmpty(c), bytes);
    Success(Some(cork))
  }

  lemma ReadCorkMerges(a: Option<AxelarCork>, b: AxelarCork)
    requires |b.Encode()| < INT64_LIMIT
    ensures ReadCork(a, b.Encode()) == Success(MergeCork(a, Some(b)))
  {
    hide Unmarshal;
    CorkMerges(OrEmpty(a), b);
  }

  lemma OptCorkSize(num: nat, c: Option<AxelarCork>)
    requires 0 < num <= 4
    ensures |OptCork(num, c)| == SizeCork(c)
    ensures c.Some? ==> |c.value.Encode()| < |OptCork(num, c)|
  {
    hide EncodeField, SizeData;
    if c.Some? {
      CorkSize(c.value);
      FieldSize(num, Data(c.value.Encode()));
      FieldCovers(num, c.value.Encode());
    }
  }

  lemma NestedThen<M>(c: Codec<M>, m: M, num: nat, cork: Option<AxelarCork>, rest: seq<Byte>, m': M)
    requires 0 < num <= 4 && c.kind(num) == BytesKind && |OptCork(num, cork)| < INT64_LIMIT
    requires if cork.None? then m' == m else c.apply(m, num, Data(cork.value.Encode())) == Success(m')
    ensures Unmarshal(c, m, OptCork(num, cork) + rest) == Unmarshal(c, m', rest)
  {
    hide Unmarshal, EncodeField;
    OptCorkSize(num, cork);
    if cork.None? { assert OptCork(num, cork) + rest == rest; } else { FieldThen(c, m, num, Data(cork.value.Encode()), rest); }
  }

  // ----- ScheduledAxelarCork -----

  datatype ScheduledAxelarCork = ScheduledAxelarCork(cork: Option<AxelarCork>, blockHeight: uint64, validator: seq<Byte>, id: seq<Byte>) {
    function Encode(): seq<Byte> {
      OptCork(1, cork) + (OptVarint(2, blockHeight) + (OptBytes(3, validator) + (OptBytes(4, id) + [])))
    }

    function Size(): nat { SizeCork(cork) + SizeVarint(blockHeight) + SizeBytes(|validator|) + SizeBytes(|id|) }

    function Merge(b: ScheduledAxelarCork): ScheduledAxelarCork {
      ScheduledAxelarCork(MergeCork(cork, b.cork), Later(blockHeight, b.blockHeight, 0),
                          Later(validator, b.validator, []), Later(id, b.id, []))
    }
  }

  const EMPTY_SCHEDULED := ScheduledAxelarCork(None, 0, [], [])

  function ScheduledKind(num: nat): Kind {
    if num == 1 || num == 3 || num == 4 then BytesKind else if num == 2 then VarintKind else UnknownKind
  }

  function ScheduledApply(m: ScheduledAxelarCork, num: nat, v: Value): Result<ScheduledAxelarCork, WireError> {
    match v
    case Varint(x) => Success(m.(blockHeight := x))
    case Data(bytes) =>
      if num == 1 then
        var cork :- ReadCork(m.cork, bytes);
        Success(m.(cork := cork))
      else if num == 3 then Success(m.(validator := bytes))
      else Success(m.(id := bytes))
  }

  const SCHEDULED := Codec(ScheduledKind, ScheduledApply)

  lemma ScheduledSize(m: ScheduledAxelarCork)
    ensures |m.Encode()| == m.Size()
  {
    hide OptBytes, OptVarint, OptCork, SizeBytes, SizeVarint, SizeCork;
    OptCorkSize(1, m.cork);
    OptSizes(2, m.blockHeight, []);
    OptSizes(3, 0, m.validator);
    OptSizes(4, 0, m.id);
  }

  lemma ScheduledMerges(a: ScheduledAxelarCork, b: ScheduledAxelarCork)
    requires |b.Encode()| < INT64_LIMIT
    ensures Unmarshal(SCHEDULED, a, b.Encode()) == Success(a.Merge(b))
  {
    hide Unmarshal, OptBytes, OptVarint, OptCork, AxelarCork.Encode, AxelarCork.Merge, ReadCork;
    FieldCovers(3, b.validator);
    FieldCovers(4, b.id);
    OptCorkSize(1, b.cork);
    if b.cork.Some? { ReadCorkMerges(a.cork, b.cork.value); }
    var a1 := a.(cork := MergeCork(a.cork, b.cork));
    var a2 := a1.(blockHeight := Later(a.blockHeight, b.blockHeight, 0));
    var a3 := a2.(validator := Later(a.validator, b.validator, []));
    var rest4 := OptBytes(4, b.id) + [];
    var rest3 := OptBytes(3, b.validator) + rest4;
    NestedThen(SCHEDULED, a, 1, b.cork, OptVarint(2, b.blockHeight) + rest3, a1);
    VarintThen(SCHEDULED, a1, 2, b.blockHeight, rest3, a2);
    BytesThen(SCHEDULED, a2, 3, b.validator, rest4, a3);
    BytesThen(SCHEDULED, a3, 4, b.id, [], a.Merge(b));
    NothingLeft(SCHEDULED, a.Merge(b));
  }

  lemma ScheduledRoundTrip(m: ScheduledAxelarCork)
    requires |m.Encode()| < INT64_LIMIT
    ensures Unmarshal(SCHEDULED, EMPTY_SCHEDULED, m.Encode()) == Success(m)
  {
    hide Unmarshal;
    ScheduledMerges(EMPTY_SCHEDULED, m);
  }

  // ----- AxelarCorkResult -----

  datatype AxelarCorkResult = AxelarCorkResult(cork: Option<AxelarCork>, blockHeight: uint64, approved: bool, percentage: seq<Byte>) {
    function Encode(): seq<Byte> {
      OptCork(1, cork) + (OptVarint(2, blockHeight) + (OptVarint(3, BoolValue(approved)) + (OptBytes(4, percentage) + [])))
    }

    function Size(): nat { SizeCork(cork) + SizeVarint(blockHeight) + (if approved then 2 else 0) + SizeBytes(|percentage|) }

    function Merge(b: AxelarCorkResult): AxelarCorkResult {
      AxelarCorkResult(MergeCork(cork, b.cork), Later(blockHeight, b.blockHeight, 0),
                       approved || b.approved, Later(percentage, b.percentage, []))
    }
  }

  function BoolValue(b: bool): uint64 { if b then 1 else 0 }

  const EMPTY_RESULT := AxelarCorkResult(None, 0, false, [])

  function ResultKind(num: nat): Kind {
    if num == 1 || num == 4 then BytesKind else if num == 2 || num == 3 then VarintKind else UnknownKind
  }

  function ResultApply(m: AxelarCorkResult, num: nat, v: Value): Result<AxelarCorkResult, WireError> {
    match v
    case Varint(x) => if num == 2 then Success(m.(blockHeight := x)) else Success(m.(approved := x != 0))
    case Data(bytes) =>
      if num == 1 then
        var cork :- ReadCork(m.cork, bytes);
        Success(m.(cork := cork))
      else Success(m.(percentage := bytes))
  }

  const RESULT := Codec(ResultKind, ResultApply)

  lemma ResultSize(m: AxelarCorkResult)
    ensures |m.Encode()| == m.Size()
  {
    hide OptBytes, OptVarint, OptCork, SizeBytes, SizeCork;
    OptCorkSize(1, m.cork);
    OptSizes(2, m.blockHeight, []);
    OptSizes(3, BoolValue(m.approved), []);
    OptSizes(4, 0, m.percentage);
    assert Sov(1) == 1;
  }

  lemma ResultMerges(a: AxelarCorkResult, b: AxelarCorkResult)
    requires |b.Encode()| < INT64_LIMIT
    ensures Unmarshal(RESULT, a, b.Encode()) == Success(a.Merge(b))
  {
    hide Unmarshal, OptBytes, OptVarint, OptCork, AxelarCork.Encode, AxelarCork.Merge, ReadCork;
    FieldCovers(4, b.percentage);
    OptCorkSize(1, b.cork);
    if b.cork.Some? { ReadCorkMerges(a.cork, b.cork.value); }
    var a1 := a.(cork := MergeCork(a.cork, b.cork));
    var a2 := a1.(blockHeight := Later(a.blockHeight, b.blockHeight, 0));
    var a3 := a2.(approved := a.approved || b.approved);
    var rest4 := OptBytes(4, b.percentage) + [];
    var rest3 := OptVarint(3, BoolValue(b.approved)) + rest4;
    NestedThen(RESULT, a, 1, b.cork, OptVarint(2, b.blockHeight) + rest3, a1);
    VarintThen(RESULT, a1, 2, b.blockHeight, rest3, a2);
    VarintThen(RESULT, a2, 3, BoolValue(b.approved), rest4, a3);
    BytesThen(RESULT, a3, 4, b.percentage, [], a.Merge(b));
    NothingLeft(RESULT, a.Merge(b));
  }

  lemma ResultRoundTrip(m: AxelarCorkResult)
    requires |m.Encode()| < INT64_LIMIT
    ensures Unmarshal(RESULT, EMPTY_RESULT, m.Encode()) == Success(m)
  {
    hide Unmarshal;
    ResultMerges(EMPTY_RESULT, m);
  }

  // ----- repeated fields -----

  /** Every entry as one field, in order. */
  function EncodeAll(num: nat, entries: seq<seq<Byte>>): seq<Byte> {
    if entries == [] then [] else EncodeField(num, Data(entries[0])) + EncodeAll(num, entries[1..])
  }

  function SizeAll(sizes: seq<nat>): nat {
    if sizes == [] then 0 else SizeData(sizes[0]) + SizeAll(sizes[1..])
  }

  lemma {:induction false} AllSizes(num: nat, entries: seq<seq<Byte>>, sizes: seq<nat>)
    requires 0 < num <= 4 && |sizes| == |entries| && forall i :: 0 <= i < |entries| ==> sizes[i] == |entries[i]|
    ensures |EncodeAll(num, entries)| == SizeAll(sizes)
  {
    hide EncodeField, SizeData;
    if entries != [] {
      FieldSize(num, Data(entries[0]));
      AllSizes(num, entries[1..], sizes[1..]);
    }
  }

  lemma {:induction false} EntriesCovered(num: nat, entries: seq<seq<Byte>>, i: nat)
    requires i < |entries|
    ensures |entries[i]| < |EncodeAll(num, entries)|
  {
    hide EncodeField;
    FieldCovers(num, entries[0]);
    if i > 0 { EntriesCovered(num, entries[1..], i - 1); }
  }

  /** Reading the entries one by one leads through the messages `ms`. */
  lemma {:induction false} AllThen<M>(c: Codec<M>, num: nat, entries: seq<seq<Byte>>, ms: seq<M>)
    requires 0 < num <= 4 && c.kind(num) == BytesKind && |ms| == |entries| + 1
    requires forall i :: 0 <= i < |entries| ==> |entries[i]| < INT64_LIMIT && c.apply(ms[i], num, Data(entries[i])) == Success(ms[i + 1])
    ensures Unmarshal(c, ms[0], EncodeAll(num, entries)) == Success(ms[|entries|])
    decreases |entries|
  {
    hide Unmarshal, EncodeField;
    if entries == [] {
      NothingLeft(c, ms[0]);
    } else {
      assert c.apply(ms[0], num, Data(entries[0])) == Success(ms[0 + 1]);
      FieldThen(c, ms[0], num, Data(entries[0]), EncodeAll(num, entries[1..]));
      forall i | 0 <= i < |entries[1..]| ensures c.apply(ms[1..][i], num, Data(entries[1..][i])) == Success(ms[1..][i + 1]) {
        assert ms[1..][i] == ms[i + 1] && entries[1..][i] == entries[i + 1] && ms[1..][i + 1] == ms[i + 2];
      }
      AllThen(c, num, entries[1..], ms[1..]);
    }
  }

  // ----- ScheduledAxelarCorks -----

  datatype ScheduledAxelarCorks = ScheduledAxelarCorks(corks: seq<ScheduledAxelarCork>) {
    function Entries(): (r: seq<seq<Byte>>)
      ensures |r| == |corks| && forall i :: 0 <= i < |corks| ==> r[i] == corks[i].Encode()
    {
      seq(|corks|, i requires 0 <= i < |corks| => corks[i].Encode())
    }

    function Encode(): seq<Byte> { EncodeAll(1, Entries()) }

    function Sizes(): (r: seq<nat>)
      ensures |r| == |corks| && forall i :: 0 <= i < |corks| ==> r[i] == corks[i].Size()
    {
      seq(|corks|, i requires 0 <= i < |corks| => corks[i].Size())
    }

    function Size(): nat { SizeAll(Sizes()) }

    function Merge(b: ScheduledAxelarCorks): ScheduledAxelarCorks { ScheduledAxelarCorks(corks + b.corks) }
  }

  const EMPTY_SCHEDULEDS := ScheduledAxelarCorks([])

  function OnlyFirst(num: nat): Kind { if num == 1 then BytesKind else UnknownKind }

  function ScheduledsApply(m: ScheduledAxelarCorks, num: nat, v: Value): Result<ScheduledAxelarCorks, WireError> {
    match v
    case Varint(_) => Success(m)
    case Data(bytes) =>
      var entry :- Unmarshal(SCHEDULED, EMPTY_SCHEDULED, bytes);
      Success(ScheduledAxelarCorks(m.corks + [entry]))
  }

  const SCHEDULEDS := Codec(OnlyFirst, ScheduledsApply)

  lemma ScheduledsSize(m: ScheduledAxelarCorks)
    ensures |m.Encode()| == m.Size()
  {
    hide SizeAll, EncodeAll, ScheduledAxelarCork.Encode, ScheduledAxelarCork.Size;
    forall i | 0 <= i < |m.corks| ensures m.Sizes()[i] == |m.Entries()[i]| { ScheduledSize(m.corks[i]); }
    AllSizes(1, m.Entries(), m.Sizes());
  }

  lemma ScheduledsMerge(a: ScheduledAxelarCorks, b: ScheduledAxelarCorks)
    requires |b.Encode()| < INT64_LIMIT
    ensures Unmarshal(SCHEDULEDS, a, b.Encode()) == Success(a.Merge(b))
  {
    hide Unmarshal, EncodeAll, ScheduledAxelarCork.Encode;
    var n := |b.corks|;
    var ms := seq(n + 1, i requires 0 <= i <= n => ScheduledAxelarCorks(a.corks + b.corks[..i]));
    forall i | 0 <= i < n
      ensures |b.Entries()[i]| < INT64_LIMIT && ScheduledsApply(ms[i], 1, Data(b.Entries()[i])) == Success(ms[i + 1])
    {
      EntriesCovered(1, b.Entries(), i);
      ScheduledRoundTrip(b.corks[i]);
      assert a.corks + b.corks[..i] + [b.corks[i]] == a.corks + b.corks[..i + 1];
    }
    AllThen(SCHEDULEDS, 1, b.Entries(), ms);
    assert a.corks + b.corks[..0] == a.corks && b.corks[..n] == b.corks;
  }

  lemma ScheduledsRoundTrip(m: ScheduledAxelarCorks)
    requires |m.Encode()| < INT64_LIMIT
    ensures Unmarshal(SCHEDULEDS, EMPTY_SCHEDULEDS, m.Encode()) == Success(m)
  {
    hide Unmarshal;
    ScheduledsMerge(EMPTY_SCHEDULEDS, m);
    assert [] + m.corks == m.corks;
  }

  // ----- AxelarCorkResults -----

  datatype AxelarCorkResults = AxelarCorkResults(results: seq<AxelarCorkResult>) {
    function Entries(): (r: seq<seq<Byte>>)
      ensures |r| == |results| && forall i :: 0 <= i < |results| ==> r[i] == results[i].Encode()
    {
      seq(|results|, i requires 0 <= i < |results| => results[i].Encode())
    }

    function Encode(): seq<Byte> { EncodeAll(1, Entries()) }

    function Sizes(): (r: seq<nat>)
      ensures |r| == |results| && forall i :: 0 <= i < |results| ==> r[i] == results[i].Size()
    {
      seq(|results|, i requires 0 <= i < |results| => results[i].Size())
    }

    function Size(): nat { SizeAll(Sizes()) }

    function Merge(b: AxelarCorkResults): AxelarCorkResults { AxelarCorkResults(results + b.results) }
  }

  const EMPTY_RESULTS := AxelarCorkResults([])

  function ResultsApply(m: AxelarCorkResults, num: nat, v: Value): Result<AxelarCorkResults, WireError> {
    match v
    case Varint(_) => Success(m)
    case Data(bytes) =>
      var entry :- Unmarshal(RESULT, EMPTY_RESULT, bytes);
      Success(AxelarCorkResults(m.results + [entry]))
  }

  const RESULTS := Codec(OnlyFirst, ResultsApply)

  lemma ResultsSize(m: AxelarCorkResults)
    ensures |m.Encode()| == m.Size()
  {
    hide SizeAll, EncodeAll, AxelarCorkResult.Encode, AxelarCorkResult.Size;
    forall i | 0 <= i < |m.results| ensures m.Sizes()[i] == |m.Entries()[i]| { ResultSize(m.results[i]); }
    AllSizes(1, m.Entries(), m.Sizes());
  }

  lemma ResultsMerge(a: AxelarCorkResults, b: AxelarCorkResults)
    requires |b.Encode()| < INT64_LIMIT
    ensures Unmarshal(RESULTS, a, b.Encode()) == Success(a.Merge(b))
  {
    hide Unmarshal, EncodeAll, AxelarCorkResult.Encode;
    var n := |b.results|;
    var ms := seq(n + 1, i requires 0 <= i <= n => AxelarCorkResults(a.results + b.results[..i]));
    forall i | 0 <= i < n
      ensures |b.Entries()[i]| < INT64_LIMIT && ResultsApply(ms[i], 1, Data(b.Entries()[i])) == Success(ms[i + 1])
    {
      EntriesCovered(1, b.Entries(), i);
      ResultRoundTrip(b.results[i]);
      assert a.results + b.results[..i] + [b.results[i]] == a.results + b.results[..i + 1];
    }
    AllThen(RESULTS, 1, b.Entries(), ms);
    assert a.results + b.results[..0] == a.results && b.results[..n] == b.results;
  }

  lemma ResultsRoundTrip(m: AxelarCorkResults)
    requires |m.Encode()| < INT64_LIMIT
    ensures Unmarshal(RESULTS, EMPTY_RESULTS, m.Encode()) == Success(m)
  {
    hide Unmarshal;
    ResultsMerge(EMPTY_RESULTS, m);
    assert [] + m.results == m.results;
  }

  // ----- CellarIDSet -----

  datatype CellarIDSet = CellarIDSet(chainId: uint64, ids: seq<seq<Byte>>) {
    function Encode(): seq<Byte> { OptVarint(1, chainId) + EncodeAll(2, ids) }

    function Sizes(): (r: seq<nat>)
      ensures |r| == |ids| && forall i :: 0 <= i < |ids| ==> r[i] == |ids[i]|
    {
      seq(|ids|, i requires 0 <= i < |ids| => |ids[i]|)
    }

    function Size(): nat { SizeVarint(chainId) + SizeAll(Sizes()) }

    function Merge(b: CellarIDSet): CellarIDSet { CellarIDSet(Later(chainId, b.chainId, 0), ids + b.ids) }
  }

  const EMPTY_CELLARS := CellarIDSet(0, [])

  function CellarsKind(num: nat): Kind { if num == 1 then VarintKind else if num == 2 then BytesKind else UnknownKind }

  function CellarsApply(m: CellarIDSet, num: nat, v: Value): Result<CellarIDSet, WireError> {
    match v
    case Varint(x) => Success(m.(chainId := x))
    case Data(bytes) => Success(m.(ids := m.ids + [bytes]))
  }

  const CELLARS := Codec(CellarsKind, CellarsApply)

  lemma CellarsSize(m: CellarIDSet)
    ensures |m.Encode()| == m.Size()
  {
    hide SizeAll, EncodeAll, OptVarint, SizeVarint;
    OptSizes(1, m.chainId, []);
    AllSizes(2, m.ids, m.Sizes());
  }

  lemma CellarsMerge(a: CellarIDSet, b: CellarIDSet)
    requires |b.Encode()| < INT64_LIMIT
    ensures Unmarshal(CELLARS, a, b.Encode()) == Success(a.Merge(b))
  {
    hide Unmarshal, EncodeAll, OptVarint;
    var n, chain := |b.ids|, Later(a.chainId, b.chainId, 0);
    var ms := seq(n + 1, i requires 0 <= i <= n => CellarIDSet(chain, a.ids + b.ids[..i]));
    assert a.ids + b.ids[..0] == a.ids && b.ids[..n] == b.ids;
    VarintThen(CELLARS, a, 1, b.chainId, EncodeAll(2, b.ids), ms[0]);
    forall i | 0 <= i < n ensures |b.ids[i]| < INT64_LIMIT && CellarsApply(ms[i], 2, Data(b.ids[i])) == Success(ms[i + 1]) {
      EntriesCovered(2, b.ids, i);
      assert a.ids + b.ids[..i] + [b.ids[i]] == a.ids + b.ids[..i + 1];
    }
    AllThen(CELLARS, 2, b.ids, ms);
  }

  lemma CellarsRoundTrip(m: CellarIDSet)
    requires |m.Encode()| < INT64_LIMIT
    ensures Unmarshal(CELLARS, EMPTY_CELLARS, m.Encode()) == Success(m)
  {
    hide Unmarshal;
    CellarsMerge(EMPTY_CELLARS, m);
    assert [] + m.ids == m.ids;
  }

  // ----- AxelarContractCallNonce -----

  datatype AxelarContractCallNonce = AxelarContractCallNonce(chainId: uint64, contract: seq<Byte>, nonce: uint64) {
    function Encode(): seq<Byte> { OptVarint(1, chainId) + (OptBytes(2, contract) + (OptVarint(3, nonce) + [])) }

    function Size(): nat { SizeVarint(chainId) + SizeBytes(|contract|) + SizeVarint(nonce) }

    function Merge(b: AxelarContractCallNonce): AxelarContractCallNonce {
      AxelarContractCallNonce(Later(chainId, b.chainId, 0), Later(contract, b.contract, []), Later(nonce, b.nonce, 0))
    }
  }

  const EMPTY_NONCE := AxelarContractCallNonce(0, [], 0)

  function ThreeKind(num: nat): Kind { if num == 2 then BytesKind else if num == 1 || num == 3 then VarintKind else UnknownKind }

  function NonceApply(m: AxelarContractCallNonce, num: nat, v: Value): Result<AxelarContractCallNonce, WireError> {
    match v
    case Varint(x) => if num == 1 then Success(m.(chainId := x)) else Success(m.(nonce := x))
    case Data(bytes) => Success(m.(contract := bytes))
  }

  const NONCE := Codec(ThreeKind, NonceApply)

  lemma NonceSize(m: AxelarContractCallNonce)
    ensures |m.Encode()| == m.Size()
  {
    hide OptBytes, OptVarint, SizeBytes, SizeVarint;
    OptSizes(1, m.chainId, []);
    OptSizes(2, 0, m.contract);
    OptSizes(3, m.nonce, []);
  }

  lemma NonceMerges(a: AxelarContractCallNonce, b: AxelarContractCallNonce)
    requires |b.Encode()| < INT64_LIMIT
    ensures Unmarshal(NONCE, a, b.Encode()) == Success(a.Merge(b))
  {
    hide Unmarshal, OptBytes, OptVarint;
    FieldCovers(2, b.contract);
    var a1 := a.(chainId := Later(a.chainId, b.chainId, 0));
    var a2 := a1.(contract := Later(a.contract, b.contract, []));
    var rest3 := OptVarint(3, b.nonce) + [];
    VarintThen(NONCE, a, 1, b.chainId, OptBytes(2, b.contract) + rest3, a1);
    BytesThen(NONCE, a1, 2, b.contract, rest3, a2);
    VarintThen(NONCE, a2, 3, b.nonce, [], a.Merge(b));
    NothingLeft(NONCE, a.Merge(b));
  }

  lemma NonceRoundTrip(m: AxelarContractCallNonce)
    requires |m.Encode()| < INT64_LIMIT
    ensures Unmarshal(NONCE, EMPTY_NONCE, m.Encode()) == Success(m)
  {
    hide Unmarshal;
    NonceMerges(EMPTY_NONCE, m);
  }

  // ----- AxelarUpgradeData -----

  datatype AxelarUpgradeData = AxelarUpgradeData(chainId: uint64, payload: seq<Byte>, threshold: int64) {
    function Encode(): seq<Byte> { OptVarint(1, chainId) + (OptBytes(2, payload) + (OptVarint(3, AsUint64(threshold)) + [])) }

    function Size(): nat { SizeVarint(chainId) + SizeBytes(|payload|) + SizeVarint(AsUint64(threshold)) }

    function Merge(b: AxelarUpgradeData): AxelarUpgradeData {
      AxelarUpgradeData(Later(chainId, b.chainId, 0), Later(payload, b.payload, []), Later(threshold, b.threshold, 0))
    }
  }

  const EMPTY_UPGRADE := AxelarUpgradeData(0, [], 0)

  function UpgradeApply(m: AxelarUpgradeData, num: nat, v: Value): Result<AxelarUpgradeData, WireError> {
    match v
    case Varint(x) => if num == 1 then Success(m.(chainId := x)) else Success(m.(threshold := AsInt64(x)))
    case Data(bytes) => Success(m.(payload := bytes))
  }

  const UPGRADE := Codec(ThreeKind, UpgradeApply)

  lemma UpgradeSize(m: AxelarUpgradeData)
    ensures |m.Encode()| == m.Size()
  {
    hide OptBytes, OptVarint, SizeBytes, SizeVarint;
    OptSizes(1, m.chainId, []);
    OptSizes(2, 0, m.payload);
    OptSizes(3, AsUint64(m.threshold), []);
  }

  lemma UpgradeMerges(a: AxelarUpgradeData, b: AxelarUpgradeData)
    requires |b.Encode()| < INT64_LIMIT
    ensures Unmarshal(UPGRADE, a, b.Encode()) == Success(a.Merge(b))
  {
    hide Unmarshal, OptBytes, OptVarint;
    FieldCovers(2, b.payload);
    var a1 := a.(chainId := Later(a.chainId, b.chainId, 0));
    var a2 := a1.(payload := Later(a.payload, b.payload, []));
    var rest3 := OptVarint(3, AsUint64(b.threshold)) + [];
    VarintThen(UPGRADE, a, 1, b.chainId, OptBytes(2, b.payload) + rest3, a1);
    BytesThen(UPGRADE, a1, 2, b.payload, rest3, a2);
    VarintThen(UPGRADE, a2, 3, AsUint64(b.threshold), [], a.Merge(b));
    NothingLeft(UPGRADE, a.Merge(b));
  }

  /** Negative thresholds included. */
  lemma UpgradeRoundTrip(m: AxelarUpgradeData)
    requires |m.Encode()| < INT64_LIMIT
    ensures Unmarshal(UPGRADE, EMPTY_UPGRADE, m.Encode()) == Success(m)
  {
    hide Unmarshal;
    UpgradeMerges(EMPTY_UPGRADE, m);
  }

  // ----- two encodings, one after the other -----

  /** Decoding two encodings in a row merges the second into the first, for any record whose decoder merges. */
  lemma ConcatenationMerges<M>(c: Codec<M>, empty: M, x: seq<Byte>, a: M, y: seq<Byte>, merged: M)
    requires Unmarshal(c, empty, x) == Success(a) && Unmarshal(c, a, y) == Success(merged)
    ensures Unmarshal(c, empty, x + y) == Success(merged)
  {
    hide Unmarshal;
    UnmarshalConcat(c, empty, x, y);
  }

  /** Last one wins, nested corks merge. */
  lemma ScheduledConcatenation(a: ScheduledAxelarCork, b: ScheduledAxelarCork)
    requires |a.Encode()| < INT64_LIMIT && |b.Encode()| < INT64_LIMIT
    ensures Unmarshal(SCHEDULED, EMPTY_SCHEDULED, a.Encode() + b.Encode()) == Success(a.Merge(b))
  {
    hide Unmarshal, ScheduledAxelarCork.Encode, ScheduledAxelarCork.Merge;
    ScheduledRoundTrip(a);
    ScheduledMerges(a, b);
    ConcatenationMerges(SCHEDULED, EMPTY_SCHEDULED, a.Encode(), a, b.Encode(), a.Merge(b));
  }

  lemma ResultConcatenation(a: AxelarCorkResult, b: AxelarCorkResult)
    requires |a.Encode()| < INT64_LIMIT && |b.Encode()| < INT64_LIMIT
    ensures Unmarshal(RESULT, EMPTY_RESULT, a.Encode() + b.Encode()) == Success(a.Merge(b))
  {
    hide Unmarshal, AxelarCorkResult.Encode, AxelarCorkResult.Merge;
    ResultRoundTrip(a);
    ResultMerges(a, b);
    ConcatenationMerges(RESULT, EMPTY_RESULT, a.Encode(), a, b.Encode(), a.Merge(b));
  }

  /** Repeated fields append. */
  lemma CellarsConcatenation(a: CellarIDSet, b: CellarIDSet)
    requires |a.Encode()| < INT64_LIMIT && |b.Encode()| < INT64_LIMIT
    ensures Unmarshal(CELLARS, EMPTY_CELLARS, a.Encode() + b.Encode()) == Success(a.Merge(b))
  {
    hide Unmarshal, CellarIDSet.Encode, CellarIDSet.Merge;
    CellarsRoundTrip(a);
    CellarsMerge(a, b);
    ConcatenationMerges(CELLARS, EMPTY_CELLARS, a.Encode(), a, b.Encode(), a.Merge(b));
  }
}
