/**
 The Geneva metrics frame: a pure encoder for what the exporter must leave in its buffer,
 and a strict decoder written from the format's grammar, with the theorems that connect them.
 */
module GenevaFormat {
  import opened Wrappers
  import opened Bytes

  const BUFFER_SIZE := 65360
  const MAX_DIMENSION_NAME := 256
  const MAX_DIMENSION_VALUE := 1024
  const BINARY_HEADER := 4
  const METRIC_PAYLOAD := 24
  const EXTERNAL_PAYLOAD := 40

  const UINT64_METRIC := 50
  const DOUBLE_METRIC := 55
  const DISTRIBUTION_METRIC := 56

  const TICKS_PER_SECOND := 10000000
  const SECONDS_TO_UNIX_TIME := 11644473600

  function Ascii(s: string): bytes {
    seq(|s|, i requires 0 <= i < |s| => s[i] as int % 256)
  }

  const ACCOUNT_KEY: bytes := Ascii("_microsoft_metrics_account")
  const NAMESPACE_KEY: bytes := Ascii("_microsoft_metrics_namespace")

  lemma KeysAre()
    ensures ACCOUNT_KEY == Ascii("_microsoft_metrics_account") && NAMESPACE_KEY == Ascii("_microsoft_metrics_namespace")
  {
  }

  datatype Dimension = Dimension(name: bytes, value: bytes)

  datatype Bucket = Bucket(bound: nat, count: nat)

  /** The fixed numeric part of a frame after its dimension count. */
  datatype Section =
    | Single(ticks: nat, value: nat)
    | Distribution(count: nat, ticks: nat, sum: nat, min: nat, max: nat)

  /** Everything one serializer call is given. */
  datatype Metric = Metric(
    event: nat, section: Section, account: bytes, ns: bytes, name: bytes,
    prepopulated: seq<Dimension>, attributes: seq<Dimension>, buckets: seq<Bucket>)

  /** What a receiver learns from one frame. */
  datatype Message = Message(
    event: nat, section: Section, account: bytes, ns: bytes, name: bytes,
    names: seq<bytes>, values: seq<bytes>, container: bytes, buckets: seq<Bucket>)

  ghost predicate WellTyped(m: Metric) {
    if m.section.Single? then (m.event == UINT64_METRIC || m.event == DOUBLE_METRIC) && m.buckets == []
    else m.event == DISTRIBUTION_METRIC
  }

  // ----- Which strings a frame holds.

  predicate Exported(d: Dimension) {
    |d.name| <= MAX_DIMENSION_NAME && d.name != ACCOUNT_KEY && d.name != NAMESPACE_KEY
  }

  function ShortNames(ds: seq<Dimension>): seq<bytes> {
    if ds == [] then []
    else (if |ds[0].name| > MAX_DIMENSION_NAME then [] else [ds[0].name]) + ShortNames(ds[1..])
  }

  /** The values the exporter writes for the prepopulated dimensions: it filters on the value's own size. */
  function ShortValues(ds: seq<Dimension>): seq<bytes> {
    if ds == [] then []
    else (if |ds[0].value| > MAX_DIMENSION_NAME then [] else [ds[0].value]) + ShortValues(ds[1..])
  }

  /** The values that belong to the names of ShortNames. */
  function ValuesOfShortNames(ds: seq<Dimension>): seq<bytes> {
    if ds == [] then []
    else (if |ds[0].name| > MAX_DIMENSION_NAME then [] else [ds[0].value]) + ValuesOfShortNames(ds[1..])
  }

  function Clip(v: bytes): bytes {
    if |v| > MAX_DIMENSION_VALUE then v[..MAX_DIMENSION_VALUE] else v
  }

  function AttributeNames(ds: seq<Dimension>): seq<bytes> {
    if ds == [] then []
    else (if Exported(ds[0]) then [ds[0].name] else []) + AttributeNames(ds[1..])
  }

  function AttributeValues(ds: seq<Dimension>): seq<bytes> {
    if ds == [] then []
    else (if Exported(ds[0]) then [Clip(ds[0].value)] else []) + AttributeValues(ds[1..])
  }

  lemma ShortNamesStep(ds: seq<Dimension>, i: nat)
    requires i < |ds|
    ensures ShortNames(ds[i..]) == (if |ds[i].name| > MAX_DIMENSION_NAME then [] else [ds[i].name]) + ShortNames(ds[i + 1..])
  {
    assert ds[i..][1..] == ds[i + 1..];
  }

  lemma ShortValuesStep(ds: seq<Dimension>, i: nat)
    requires i < |ds|
    ensures ShortValues(ds[i..]) == (if |ds[i].value| > MAX_DIMENSION_NAME then [] else [ds[i].value]) + ShortValues(ds[i + 1..])
  {
    assert ds[i..][1..] == ds[i + 1..];
  }

  lemma AttributeNamesStep(ds: seq<Dimension>, i: nat)
    requires i < |ds|
    ensures AttributeNames(ds[i..]) == (if Exported(ds[i]) then [ds[i].name] else []) + AttributeNames(ds[i + 1..])
  {
    assert ds[i..][1..] == ds[i + 1..];
  }

  lemma AttributeValuesStep(ds: seq<Dimension>, i: nat)
    requires i < |ds|
    ensures AttributeValues(ds[i..]) == (if Exported(ds[i]) then [Clip(ds[i].value)] else []) + AttributeValues(ds[i + 1..])
  {
    assert ds[i..][1..] == ds[i + 1..];
  }

  /** One attribute: kept up to 256 bytes of name unless the key is reserved, its value cut to 1024 bytes. */
  lemma OneAttribute(d: Dimension)
    ensures var kept := |d.name| <= 256 && d.name != Ascii("_microsoft_metrics_account") && d.name != Ascii("_microsoft_metrics_namespace");
      && AttributeNames([d]) == (if kept then [d.name] else [])
      && AttributeValues([d]) == (if !kept then [] else if |d.value| > 1024 then [d.value[..1024]] else [d.value])
  {
    assert [d][1..] == [];
  }

  /** One prepopulated pair: its name and its value are kept up to 256 bytes, each for itself. */
  lemma OnePrepopulated(d: Dimension)
    ensures ShortNames([d]) == (if |d.name| <= 256 then [d.name] else [])
    ensures ShortValues([d]) == (if |d.value| <= 256 then [d.value] else [])
    ensures ValuesOfShortNames([d]) == (if |d.name| <= 256 then [d.value] else [])
  {
    assert [d][1..] == [];
  }

  lemma {:induction false} ConcatByCons<T, U>(all: seq<T> -> seq<U>, one: T -> seq<U>, a: seq<T>, b: seq<T>)
    requires all([]) == [] && forall t, s :: all([t] + s) == one(t) + all(s)
    ensures all(a + b) == all(a) + all(b)
  {
    if a == [] {
      assert a + b == b;
    } else {
      var t, rest := a[0], a[1..];
      ConcatByCons(all, one, rest, b);
      assert a == [t] + rest;
      Assoc([t], rest, b);
      Assoc(one(t), all(rest), all(b));
    }
  }

  /** Attributes are filtered one by one, in order. */
  lemma AttributesConcat(a: seq<Dimension>, b: seq<Dimension>)
    ensures AttributeNames(a + b) == AttributeNames(a) + AttributeNames(b)
    ensures AttributeValues(a + b) == AttributeValues(a) + AttributeValues(b)
  {
    var names, values := (ds: seq<Dimension>) => AttributeNames(ds), (ds: seq<Dimension>) => AttributeValues(ds);
    var name, value := (d: Dimension) => AttributeNames([d]), (d: Dimension) => AttributeValues([d]);
    forall d, ds ensures names([d] + ds) == name(d) + names(ds) && values([d] + ds) == value(d) + values(ds) {
      OneAttribute(d);
      assert ([d] + ds)[1..] == ds;
    }
    ConcatByCons(names, name, a, b);
    ConcatByCons(values, value, a, b);
  }

  /** And so are prepopulated names and values. */
  lemma PrepopulatedConcat(a: seq<Dimension>, b: seq<Dimension>)
    ensures ShortNames(a + b) == ShortNames(a) + ShortNames(b)
    ensures ShortValues(a + b) == ShortValues(a) + ShortValues(b)
  {
    var names, values := (ds: seq<Dimension>) => ShortNames(ds), (ds: seq<Dimension>) => ShortValues(ds);
    var name, value := (d: Dimension) => ShortNames([d]), (d: Dimension) => ShortValues([d]);
    forall d, ds ensures names([d] + ds) == name(d) + names(ds) && values([d] + ds) == value(d) + values(ds) {
      OnePrepopulated(d);
      assert ([d] + ds)[1..] == ds;
    }
    ConcatByCons(names, name, a, b);
    ConcatByCons(values, value, a, b);
  }

  /** The value of the last dimension called `key`, or `default`. */
  function LastValue(key: bytes, ds: seq<Dimension>, default: bytes): bytes {
    if ds == [] then default
    else if ds[|ds| - 1].name == key then ds[|ds| - 1].value
    else LastValue(key, ds[..|ds| - 1], default)
  }

  lemma {:induction false} LastValueIsLast(key: bytes, ds: seq<Dimension>, default: bytes) returns (i: Option<nat>)
    ensures i.Some? ==> i.value < |ds| && ds[i.value].name == key && LastValue(key, ds, default) == ds[i.value].value
    ensures i.None? ==> LastValue(key, ds, default) == default
    ensures forall j :: (if i.Some? then i.value < j else 0 <= j) && j < |ds| ==> ds[j].name != key
  {
    if ds == [] {
      i := None;
    } else if ds[|ds| - 1].name == key {
      i := Some(|ds| - 1);
    } else {
      i := LastValueIsLast(key, ds[..|ds| - 1], default);
    }
  }

  function Account(m: Metric): bytes { LastValue(ACCOUNT_KEY, m.attributes, m.account) }

  function Namespace(m: Metric): bytes { LastValue(NAMESPACE_KEY, m.attributes, m.ns) }

  function DimensionNames(m: Metric): seq<bytes> {
    ShortNames(m.prepopulated) + AttributeNames(m.attributes)
  }

  /** All strings in the order they are written; the last is the empty auto-pilot container. */
  function Strings(m: Metric): seq<bytes> {
    [Account(m), Namespace(m), m.name] + DimensionNames(m)
    + (ShortValues(m.prepopulated) + AttributeValues(m.attributes)) + [[]]
  }

  /** The strings a receiver should find: every kept name paired with its own value. */
  function PairedStrings(m: Metric): seq<bytes> {
    [Account(m), Namespace(m), m.name] + DimensionNames(m)
    + (ValuesOfShortNames(m.prepopulated) + AttributeValues(m.attributes)) + [[]]
  }

  // ----- The encoder.

  function SectionBytes(s: Section): bytes {
    match s
    case Single(ticks, value) => LE(4, 0) + LE(8, ticks) + LE(8, value)
    case Distribution(count, ticks, sum, min, max) =>
      LE(4, count) + LE(8, ticks) + LE(8, sum) + LE(8, min) + LE(8, max)
  }

  function BucketBytes(bs: seq<Bucket>): (r: bytes)
    ensures |r| == 12 * |bs|
  {
    if bs == [] then [] else LE(8, bs[0].bound) + LE(4, bs[0].count) + BucketBytes(bs[1..])
  }

  /** Version 0, distribution type 2 (value-count pairs), bucket count, buckets. */
  function Trailer(m: Metric): bytes {
    if m.section.Single? then [] else [0, 2] + LE(2, |m.buckets|) + BucketBytes(m.buckets)
  }

  /** The fields of fixed width; the last of the two-byte ones is reserved. */
  function Fields(event: nat, bodyLength: nat, dimensions: nat, s: Section): bytes {
    LE(2, event) + LE(2, bodyLength) + LE(2, dimensions) + LE(2, 0) + SectionBytes(s)
  }

  function FixedPart(m: Metric, bodyLength: nat): bytes {
    Fields(m.event, bodyLength, |DimensionNames(m)|, m.section)
  }

  function Variable(m: Metric): bytes { Strs(Strings(m)) + Trailer(m) }

  function PayloadSize(m: Metric): nat {
    if m.section.Single? then METRIC_PAYLOAD else EXTERNAL_PAYLOAD
  }

  function BodyLength(m: Metric): nat { PayloadSize(m) + |Variable(m)| }

  function Encode(m: Metric): (r: bytes)
    ensures |r| == BINARY_HEADER + BodyLength(m)
  {
    FixedPart(m, BodyLength(m)) + Variable(m)
  }

  /** The bytes that strings take, each with its length in front. */
  function TextSize(ss: seq<bytes>): nat {
    if ss == [] then 0 else 2 + |ss[0]| + TextSize(ss[1..])
  }

  lemma {:induction false} StrsSize(ss: seq<bytes>)
    ensures |Strs(ss)| == TextSize(ss)
  {
    if ss == [] {
    } else {
      StrsSize(ss[1..]);
    }
  }

  lemma EncodeSize(m: Metric)
    ensures |Encode(m)| == (if m.section.Single? then 28 else 48 + 12 * |m.buckets|) + TextSize(Strings(m))
  {
    StrsSize(Strings(m));
  }

  // ----- The decoder: the grammar of the frame, rejecting any byte that is missing or left over.

  function ReadSection(event: nat, b: bytes): Option<(Section, bytes)> {
    if event == DISTRIBUTION_METRIC then
      if |b| < 36 then None else
      Some((Distribution(FromLE(b[..4]), FromLE(b[4..12]), FromLE(b[12..20]), FromLE(b[20..28]), FromLE(b[28..36])), b[36..]))
    else if event == UINT64_METRIC || event == DOUBLE_METRIC then
      if |b| < 20 then None else Some((Single(FromLE(b[4..12]), FromLE(b[12..20])), b[20..]))
    else None
  }

  function ReadBuckets(n: nat, b: bytes): Option<seq<Bucket>> {
    if n == 0 then if b == [] then Some([]) else None
    else if |b| < 12 then None
    else
      match ReadBuckets(n - 1, b[12..])
      case None => None
      case Some(bs) => Some([Bucket(FromLE(b[..8]), FromLE(b[8..12]))] + bs)
  }

  function ReadTrailer(event: nat, b: bytes): Option<seq<Bucket>> {
    if event != DISTRIBUTION_METRIC then if b == [] then Some([]) else None
    else if |b| < 4 || b[0] != 0 || b[1] != 2 then None
    else ReadBuckets(FromLE(b[2..4]), b[4..])
  }

  /** The strings after the fixed part (three identities, n names, n values, the container), then the trailer. */
  function ReadRest(event: nat, section: Section, n: nat, b: bytes): Option<Message> {
    match ReadStrs(4 + 2 * n, b)
    case None => None
    case Some((ss, tail)) =>
      StrsOfReadStrs(4 + 2 * n, b);
      match ReadTrailer(event, tail)
      case None => None
      case Some(bs) =>
        Some(Message(event, section, ss[0], ss[1], ss[2], ss[3..3 + n], ss[3 + n..3 + 2 * n], ss[3 + 2 * n], bs))
  }

  function DecodeBody(event: nat, body: bytes): Option<Message> {
    if |body| < 4 then None else
    match ReadSection(event, body[4..])
    case None => None
    case Some((section, rest)) => ReadRest(event, section, FromLE(body[..2]), rest)
  }

  function Decode(frame: bytes): Option<Message> {
    if |frame| < 4 || FromLE(frame[2..4]) != |frame| - 4 then None
    else DecodeBody(FromLE(frame[..2]), frame[4..])
  }

  // ----- What the receiver should learn: the words as their fields hold them, the pairs as configured.

  function Stored(s: Section): Section {
    match s
    case Single(ticks, value) => Single(ticks % WORD64, value % WORD64)
    case Distribution(count, ticks, sum, min, max) =>
      Distribution(count % WORD32, ticks % WORD64, sum % WORD64, min % WORD64, max % WORD64)
  }

  function StoredBuckets(bs: seq<Bucket>): (r: seq<Bucket>)
    ensures |r| == |bs|
  {
    if bs == [] then [] else [Bucket(bs[0].bound % WORD64, bs[0].count % WORD32)] + StoredBuckets(bs[1..])
  }

  function Intended(m: Metric): Message {
    Message(m.event, Stored(m.section), Account(m), Namespace(m), m.name, DimensionNames(m),
            ValuesOfShortNames(m.prepopulated) + AttributeValues(m.attributes), [], StoredBuckets(m.buckets))
  }

  /** Every prepopulated name is too long exactly when its value is. */
  ghost predicate LimitsAgree(ds: seq<Dimension>) {
    forall i :: 0 <= i < |ds| ==> (|ds[i].name| > MAX_DIMENSION_NAME <==> |ds[i].value| > MAX_DIMENSION_NAME)
  }

  lemma {:induction false} FilterSizes(ds: seq<Dimension>)
    ensures |ValuesOfShortNames(ds)| == |ShortNames(ds)|
    ensures |AttributeValues(ds)| == |AttributeNames(ds)|
  {
    if ds == [] {
    } else {
      FilterSizes(ds[1..]);
    }
  }

  lemma {:induction false} ShortValuesAreShort(ds: seq<Dimension>)
    ensures forall v :: v in ShortValues(ds) ==> |v| <= MAX_DIMENSION_NAME
  {
    if ds == [] {
    } else {
      ShortValuesAreShort(ds[1..]);
    }
  }

  ghost function LongValued(ds: seq<Dimension>): bool {
    exists v :: v in ValuesOfShortNames(ds) && |v| > MAX_DIMENSION_NAME
  }

  /** Without a long value under a short name, writing by value size writes at least every paired value. */
  lemma {:induction false} NoLongValueCounts(ds: seq<Dimension>)
    requires !LongValued(ds)
    ensures |ShortValues(ds)| >= |ValuesOfShortNames(ds)|
    ensures |ShortValues(ds)| == |ValuesOfShortNames(ds)| <==> LimitsAgree(ds)
  {
    if ds == [] {
    } else {
      var d, t := ds[0], ds[1..];
      assert forall v :: v in ValuesOfShortNames(t) ==> v in ValuesOfShortNames(ds);
      if |d.name| <= MAX_DIMENSION_NAME {
        assert d.value in ValuesOfShortNames(ds);
      }
      NoLongValueCounts(t);
      assert LimitsAgree(ds) <==> (|d.name| > MAX_DIMENSION_NAME <==> |d.value| > MAX_DIMENSION_NAME) && LimitsAgree(t) by {
        assert forall i :: 0 <= i < |t| ==> t[i] == ds[i + 1];
        assert forall i :: 1 <= i < |ds| ==> ds[i] == t[i - 1];
      }
    }
  }

  lemma {:induction false} AgreeingLimitsWriteThePairs(ds: seq<Dimension>)
    requires LimitsAgree(ds)
    ensures ShortValues(ds) == ValuesOfShortNames(ds)
  {
    if ds == [] {
    } else {
      assert forall i :: 0 <= i < |ds[1..]| ==> ds[1..][i] == ds[i + 1];
      AgreeingLimitsWriteThePairs(ds[1..]);
    }
  }

  lemma WrittenValuesArePairedIff(ds: seq<Dimension>)
    ensures ShortValues(ds) == ValuesOfShortNames(ds) <==> LimitsAgree(ds)
  {
    if LimitsAgree(ds) {
      AgreeingLimitsWriteThePairs(ds);
    } else if ShortValues(ds) == ValuesOfShortNames(ds) {
      ShortValuesAreShort(ds);
      NoLongValueCounts(ds);
    }
  }

  // ----- Reading back the parts.

  lemma LEMod(width: nat, v: nat)
    ensures LE(width, v % Pow256(width)) == LE(width, v)
  {
    LEKeepsLowBytes(width, v);
    LEOfFromLE(LE(width, v));
  }

  lemma SixSlices(a: bytes, b: bytes, c: bytes, d: bytes, e: bytes, rest: bytes)
    requires |a| == 4 && |b| == |c| == |d| == |e| == 8
    ensures var s := a + b + c + d + e + rest;
      s[..4] == a && s[4..12] == b && s[12..20] == c && s[20..28] == d && s[28..36] == e && s[36..] == rest
  {
  }

  lemma FourSlices(a: bytes, b: bytes, c: bytes, rest: bytes)
    requires |a| == 4 && |b| == |c| == 8
    ensures var s := a + b + c + rest; s[4..12] == b && s[12..20] == c && s[20..] == rest
  {
  }

  lemma ReadSectionOfBytes(m: Metric, rest: bytes)
    requires WellTyped(m)
    ensures ReadSection(m.event, SectionBytes(m.section) + rest) == Some((Stored(m.section), rest))
  {
    WordSizes();
    match m.section
    case Single(ticks, value) =>
      FourSlices(LE(4, 0), LE(8, ticks), LE(8, value), rest);
      LEKeepsLowBytes(8, ticks); LEKeepsLowBytes(8, value);
    case Distribution(count, ticks, sum, min, max) =>
      SixSlices(LE(4, count), LE(8, ticks), LE(8, sum), LE(8, min), LE(8, max), rest);
      LEKeepsLowBytes(4, count); LEKeepsLowBytes(8, ticks); LEKeepsLowBytes(8, sum);
      LEKeepsLowBytes(8, min); LEKeepsLowBytes(8, max);
  }

  lemma {:induction false} ReadBucketsOfBytes(bs: seq<Bucket>)
    ensures ReadBuckets(|bs|, BucketBytes(bs)) == Some(StoredBuckets(bs))
  {
    if bs == [] {
    } else {
      WordSizes();
      var b := BucketBytes(bs);
      assert b[..8] == LE(8, bs[0].bound) && b[8..12] == LE(4, bs[0].count) && b[12..] == BucketBytes(bs[1..]);
      LEKeepsLowBytes(8, bs[0].bound); LEKeepsLowBytes(4, bs[0].count);
      ReadBucketsOfBytes(bs[1..]);
    }
  }

  lemma WordFromBytes(width: nat, b: bytes, v: nat)
    requires |b| == width && FromLE(b) == v % Pow256(width)
    ensures b == LE(width, v)
  {
    LEOfFromLE(b);
    LEMod(width, v);
  }

  lemma BucketFromBytes(b: bytes, k: Bucket)
    requires |b| >= 12 && FromLE(b[..8]) == k.bound % WORD64 && FromLE(b[8..12]) == k.count % WORD32
    ensures b == LE(8, k.bound) + LE(4, k.count) + b[12..]
  {
    WordSizes();
    WordFromBytes(8, b[..8], k.bound);
    WordFromBytes(4, b[8..12], k.count);
    assert b == b[..8] + b[8..12] + b[12..];
  }

  lemma {:induction false} BytesOfReadBuckets(n: nat, b: bytes, bs: seq<Bucket>)
    requires ReadBuckets(n, b) == Some(StoredBuckets(bs))
    ensures b == BucketBytes(bs)
  {
    if n == 0 {
    } else {
      var all := StoredBuckets(bs);
      assert all[1..] == ReadBuckets(n - 1, b[12..]).value;
      assert all == [Bucket(bs[0].bound % WORD64, bs[0].count % WORD32)] + StoredBuckets(bs[1..]);
      assert all[1..] == StoredBuckets(bs[1..]);
      BytesOfReadBuckets(n - 1, b[12..], bs[1..]);
      BucketFromBytes(b, bs[0]);
    }
  }

  lemma ReadWord16(b: bytes, v: nat)
    requires b == LE(2, v) && v < WORD16
    ensures FromLE(b) == v
  {
    WordSizes();
    LEKeepsLowBytes(2, v);
  }

  lemma ReadTrailerOfBytes(m: Metric)
    requires WellTyped(m) && |m.buckets| < WORD16
    ensures ReadTrailer(m.event, Trailer(m)) == Some(StoredBuckets(m.buckets))
  {
    if m.section.Distribution? {
      var b := Trailer(m);
      assert b[2..4] == LE(2, |m.buckets|) && b[4..] == BucketBytes(m.buckets);
      ReadWord16(b[2..4], |m.buckets|);
      ReadBucketsOfBytes(m.buckets);
    }
  }

  lemma BytesOfReadTrailer(m: Metric, b: bytes)
    requires WellTyped(m) && ReadTrailer(m.event, b) == Some(StoredBuckets(m.buckets))
    ensures b == Trailer(m)
  {
    if m.section.Distribution? {
      BytesOfReadBuckets(FromLE(b[2..4]), b[4..], m.buckets);
      BucketCount(FromLE(b[2..4]), b[4..]);
      LEOfFromLE(b[2..4]);
      assert b == [0, 2] + b[2..4] + b[4..];
    }
  }

  lemma {:induction false} BucketCount(n: nat, b: bytes)
    requires ReadBuckets(n, b).Some?
    ensures |ReadBuckets(n, b).value| == n
  {
    if n == 0 {
    } else {
      BucketCount(n - 1, b[12..]);
    }
  }

  /** A frame that fits the buffer has only strings, counters and a length that their 16-bit fields can hold. */
  lemma NothingWraps(m: Metric)
    requires WellTyped(m) && |Encode(m)| <= BUFFER_SIZE
    ensures AllShort(Strings(m))
    ensures |DimensionNames(m)| < WORD16 && |m.buckets| < WORD16
    ensures 32 <= BodyLength(m) < WORD16
  {
    var ss := Strings(m);
    forall i | 0 <= i < |ss| ensures |ss[i]| < WORD16 { StrsLength(ss, i); }
    StrsLength(ss, 0);
    assert |ss| >= |DimensionNames(m)| + 4;
  }

  lemma HeaderSlices(a: bytes, b: bytes, c: bytes, d: bytes, s: bytes, rest: bytes)
    requires |a| == |b| == |c| == |d| == 2
    ensures var f := a + b + c + d + s + rest;
      f[..2] == a && f[2..4] == b && f[4..][..2] == c && f[4..][4..] == s + rest
  {
  }

  lemma FrameParts(m: Metric)
    requires WellTyped(m) && |Encode(m)| <= BUFFER_SIZE
    ensures FromLE(Encode(m)[..2]) == m.event
    ensures FromLE(Encode(m)[2..4]) == |Encode(m)| - 4
    ensures FromLE(Encode(m)[4..][..2]) == |DimensionNames(m)|
    ensures Encode(m)[4..][4..] == SectionBytes(m.section) + Variable(m)
  {
    NothingWraps(m);
    var n := |DimensionNames(m)|;
    var a, b, c := LE(2, m.event), LE(2, BodyLength(m)), LE(2, n);
    HeaderSlices(a, b, c, LE(2, 0), SectionBytes(m.section), Variable(m));
    ReadWord16(a, m.event); ReadWord16(b, BodyLength(m)); ReadWord16(c, n);
  }

  lemma Within(f: bytes, i: nat, j: nat)
    requires 8 <= i <= j <= |f|
    ensures f[4..][4..][i - 8..j - 8] == f[i..j]
  {
  }

  lemma EventStandsFirst(m: Metric)
    requires WellTyped(m) && |Encode(m)| <= BUFFER_SIZE
    ensures FromLE(Encode(m)[..2]) == m.event
  {
    FrameParts(m);
  }

  /** Where the numbers of a single value stand. */
  lemma SingleStandsAt(m: Metric)
    requires WellTyped(m) && |Encode(m)| <= BUFFER_SIZE && m.section.Single?
    ensures var f := Encode(m);
      |f| >= 28 && FromLE(f[12..20]) == m.section.ticks % WORD64 && FromLE(f[20..28]) == m.section.value % WORD64
  {
    var f := Encode(m);
    FrameParts(m);
    ReadSectionOfBytes(m, Variable(m));
    Within(f, 12, 20); Within(f, 20, 28);
  }

  /** Where the numbers of a distribution stand. */
  lemma DistributionStandsAt(m: Metric)
    requires WellTyped(m) && |Encode(m)| <= BUFFER_SIZE && m.section.Distribution?
    ensures var f := Encode(m);
      |f| >= 44 && FromLE(f[8..12]) == m.section.count % WORD32 && FromLE(f[12..20]) == m.section.ticks % WORD64
      && FromLE(f[20..28]) == m.section.sum % WORD64 && FromLE(f[28..36]) == m.section.min % WORD64
      && FromLE(f[36..44]) == m.section.max % WORD64
  {
    var f := Encode(m);
    FrameParts(m);
    ReadSectionOfBytes(m, Variable(m));
    Within(f, 8, 12); Within(f, 12, 20); Within(f, 20, 28); Within(f, 28, 36); Within(f, 36, 44);
  }

  /** Decoding a frame that fits is reading its strings, then its trailer. */
  lemma DecodeIsReadStrs(m: Metric)
    requires WellTyped(m) && |Encode(m)| <= BUFFER_SIZE
    ensures Decode(Encode(m)) == ReadRest(m.event, Stored(m.section), |DimensionNames(m)|, Variable(m))
  {
    FrameParts(m);
    ReadSectionOfBytes(m, Variable(m));
  }

  lemma PairedStringsMeanIntended(m: Metric)
    ensures var n, ss := |DimensionNames(m)|, PairedStrings(m);
      && |ss| == 4 + 2 * n
      && ss[0] == Account(m) && ss[1] == Namespace(m) && ss[2] == m.name
      && ss[3..3 + n] == DimensionNames(m)
      && ss[3 + n..3 + 2 * n] == ValuesOfShortNames(m.prepopulated) + AttributeValues(m.attributes)
      && ss[3 + 2 * n] == []
  {
    FilterSizes(m.prepopulated);
    FilterSizes(m.attributes);
  }

  lemma ReadRestOfStrings(event: nat, section: Section, n: nat, ss: seq<bytes>, tail: bytes)
    requires |ss| == 4 + 2 * n && AllShort(ss) && ReadTrailer(event, tail).Some?
    ensures ReadRest(event, section, n, Strs(ss) + tail)
      == Some(Message(event, section, ss[0], ss[1], ss[2], ss[3..3 + n], ss[3 + n..3 + 2 * n], ss[3 + 2 * n],
                      ReadTrailer(event, tail).value))
  {
    ReadStrsOfStrs(ss, tail);
  }

  /** When the written strings are the paired ones, the receiver learns exactly what was meant. */
  lemma DecodeEncode(m: Metric)
    requires WellTyped(m) && |Encode(m)| <= BUFFER_SIZE && LimitsAgree(m.prepopulated)
    ensures Decode(Encode(m)) == Some(Intended(m))
  {
    NothingWraps(m);
    DecodeIsReadStrs(m);
    AgreeingLimitsWriteThePairs(m.prepopulated);
    PairedStringsMeanIntended(m);
    ReadTrailerOfBytes(m);
    ReadRestOfStrings(m.event, Stored(m.section), |DimensionNames(m)|, Strings(m), Trailer(m));
  }

  function MessageStrings(g: Message): seq<bytes> {
    [g.account, g.ns, g.name] + g.names + g.values + [g.container]
  }

  /** What was read, written again, is what was there. */
  lemma ReadRestInverse(event: nat, section: Section, n: nat, b: bytes) returns (tail: bytes)
    requires ReadRest(event, section, n, b).Some?
    ensures b == Strs(MessageStrings(ReadRest(event, section, n, b).value)) + tail
    ensures ReadTrailer(event, tail) == Some(ReadRest(event, section, n, b).value.buckets)
    ensures |ReadRest(event, section, n, b).value.names| == n
  {
    StrsOfReadStrs(4 + 2 * n, b);
    var (ss, left) := ReadStrs(4 + 2 * n, b).value;
    tail := left;
    assert ss == [ss[0], ss[1], ss[2]] + ss[3..3 + n] + ss[3 + n..3 + 2 * n] + [ss[3 + 2 * n]];
  }

  lemma SixParts(b: bytes)
    requires |b| >= 36
    ensures b == b[..4] + b[4..12] + b[12..20] + b[20..28] + b[28..36] + b[36..]
  {
  }

  lemma FourParts(b: bytes)
    requires |b| >= 20
    ensures b == b[..4] + b[4..12] + b[12..20] + b[20..]
  {
  }

  lemma WordBytes(b: bytes, width: nat)
    requires |b| == width
    ensures LE(width, FromLE(b)) == b
  {
    LEOfFromLE(b);
  }

  lemma SectionInverse(event: nat, b: bytes)
    requires ReadSection(event, b).Some?
    ensures |b| >= 20 && b == SectionWith(ReadSection(event, b).value.0, b[..4]) + ReadSection(event, b).value.1
  {
    if event == DISTRIBUTION_METRIC {
      SixParts(b);
      WordBytes(b[..4], 4); WordBytes(b[4..12], 8); WordBytes(b[12..20], 8); WordBytes(b[20..28], 8); WordBytes(b[28..36], 8);
    } else {
      FourParts(b);
      WordBytes(b[4..12], 8); WordBytes(b[12..20], 8);
    }
  }

  /** A section with its reserved word, where it has one. */
  function SectionWith(s: Section, reserved: bytes): bytes {
    match s
    case Single(ticks, value) => reserved + LE(8, ticks) + LE(8, value)
    case Distribution(count, ticks, sum, min, max) => SectionBytes(s)
  }

  lemma {:induction false} BucketsInverse(n: nat, b: bytes)
    requires ReadBuckets(n, b).Some?
    ensures b == BucketBytes(ReadBuckets(n, b).value)
  {
    if n == 0 {
    } else {
      var bs := ReadBuckets(n, b).value;
      BucketsInverse(n - 1, b[12..]);
      assert bs[1..] == ReadBuckets(n - 1, b[12..]).value;
      LEOfFromLE(b[..8]); LEOfFromLE(b[8..12]);
      assert b == b[..8] + b[8..12] + b[12..];
    }
  }

  function TrailerOf(g: Message): bytes {
    if g.event == DISTRIBUTION_METRIC then [0, 2] + LE(2, |g.buckets|) + BucketBytes(g.buckets) else []
  }

  lemma TrailerInverse(event: nat, b: bytes)
    requires ReadTrailer(event, b).Some?
    ensures var bs := ReadTrailer(event, b).value;
      b == if event == DISTRIBUTION_METRIC then [0, 2] + LE(2, |bs|) + BucketBytes(bs) else []
  {
    if event == DISTRIBUTION_METRIC {
      var n := FromLE(b[2..4]);
      BucketCount(n, b[4..]);
      BucketsInverse(n, b[4..]);
      LEOfFromLE(b[2..4]);
      assert b == [0, 2] + b[2..4] + b[4..];
    }
  }

  /** The decoder loses nothing: what it makes of any frame determines all of it but the two reserved words. */
  lemma DecodeInverse(f: bytes)
    requires Decode(f).Some?
    ensures var g := Decode(f).value;
      |f| >= 28 && f == LE(2, g.event) + LE(2, |f| - 4) + LE(2, |g.names|) + f[6..8]
                        + SectionWith(g.section, f[8..12]) + Strs(MessageStrings(g)) + TrailerOf(g)
  {
    var body, event := f[4..], FromLE(f[..2]);
    var (section, rest) := ReadSection(event, body[4..]).value;
    SectionInverse(event, body[4..]);
    var tail := ReadRestInverse(event, section, FromLE(body[..2]), rest);
    TrailerInverse(event, tail);
    LEOfFromLE(f[..2]); LEOfFromLE(f[2..4]); LEOfFromLE(body[..2]);
    FrameOfParts(f, SectionWith(section, body[4..][..4]), Strs(MessageStrings(Decode(f).value)), tail, rest);
  }

  lemma FrameOfParts(f: bytes, section: bytes, strings: bytes, tail: bytes, rest: bytes)
    requires |f| >= 12 && f[4..][4..] == section + rest && rest == strings + tail
    ensures f == f[..2] + f[2..4] + f[4..][..2] + f[6..8] + section + strings + tail
    ensures f[4..][4..][..4] == f[8..12]
  {
    assert f == f[..2] + f[2..4] + f[4..][..2] + f[6..8] + f[4..][4..];
    Assoc(section, strings, tail);
  }

  lemma CancelTail(a: bytes, b: bytes, t: bytes)
    requires a + t == b + t
    ensures a == b
  {
    assert |a + t| == |b + t|;
    assert a == (a + t)[..|a|] && b == (b + t)[..|b|];
  }

  lemma ReadingIntendedMeansPaired(m: Metric)
    requires WellTyped(m) && |Encode(m)| <= BUFFER_SIZE
    requires Decode(Encode(m)) == Some(Intended(m))
    ensures Strs(Strings(m)) == Strs(PairedStrings(m)) && AllShort(PairedStrings(m))
  {
    NothingWraps(m);
    DecodeIsReadStrs(m);
    var ps := PairedStrings(m);
    var tail := ReadRestInverse(m.event, Stored(m.section), |DimensionNames(m)|, Variable(m));
    assert MessageStrings(Intended(m)) == ps;
    BytesOfReadTrailer(m, tail);
    CancelTail(Strs(Strings(m)), Strs(ps), Trailer(m));
    forall i | 0 <= i < |ps| ensures |ps[i]| < WORD16 { StrsLength(ps, i); }
  }

  lemma SameMiddle(head: seq<bytes>, v: seq<bytes>, w: seq<bytes>, tail: seq<bytes>, end: seq<bytes>)
    requires head + (v + tail) + end == head + (w + tail) + end
    ensures v == w
  {
    var x, y := head + (v + tail) + end, head + (w + tail) + end;
    assert |x| == |y|;
    assert v == x[|head|..|head| + |v|] && w == y[|head|..|head| + |w|];
  }

  /**
   The round trip, with the exact condition under which it holds: a frame that fits decodes to
   the metric it was made from if and only if every prepopulated name is over the limit of 256
   bytes exactly when its value is.
   */
  lemma RoundTrip(m: Metric)
    requires WellTyped(m) && |Encode(m)| <= BUFFER_SIZE
    ensures Decode(Encode(m)) == Some(Intended(m)) <==> LimitsAgree(m.prepopulated)
  {
    if LimitsAgree(m.prepopulated) {
      DecodeEncode(m);
    } else if Decode(Encode(m)) == Some(Intended(m)) {
      ReadingIntendedMeansPaired(m);
      NothingWraps(m);
      StrsInjective(Strings(m), PairedStrings(m));
      SameMiddle([Account(m), Namespace(m), m.name] + DimensionNames(m),
                 ShortValues(m.prepopulated), ValuesOfShortNames(m.prepopulated), AttributeValues(m.attributes), [[]]);
      WrittenValuesArePairedIff(m.prepopulated);
    }
  }

  lemma StrsOfFive(a: bytes, b: bytes, c: bytes, d: bytes, e: bytes)
    ensures |Strs([a, b, c, d, e])| == 10 + |a| + |b| + |c| + |d| + |e|
  {
    assert [a, b, c, d, e][1..] == [b, c, d, e] && [b, c, d, e][1..] == [c, d, e];
    assert [c, d, e][1..] == [d, e] && [d, e][1..] == [e] && [e][1..] == [];
    assert |Strs([e])| == |Str(e)| + |Strs([])|;
    assert |Strs([c, d, e])| == |Str(c)| + |Str(d)| + |Strs([e])|;
  }

  /** The failing case is real: one prepopulated pair with a long value under a short name. */
  lemma RoundTripCanFail(long: bytes)
    requires |long| == 257
    ensures var m := Metric(UINT64_METRIC, Single(0, 0), [], [], [], [Dimension([1], long)], [], []);
      |Encode(m)| <= BUFFER_SIZE && Decode(Encode(m)) != Some(Intended(m))
  {
    var p := [Dimension([1], long)];
    var m := Metric(UINT64_METRIC, Single(0, 0), [], [], [], p, [], []);
    assert p[1..] == [];
    assert ShortNames(p) == [[1]] && ShortValues(p) == [];
    assert Strings(m) == [[], [], [], [1], []];
    StrsOfFive([], [], [], [1], []);
    assert |p[0].value| > MAX_DIMENSION_NAME;
    RoundTrip(m);
  }

  // ----- Time stamps.

  function UnixTimeToWindowsTicks(seconds: nat): nat {
    (seconds + SECONDS_TO_UNIX_TIME) % WORD64 * TICKS_PER_SECOND % WORD64
  }

  /** The ticks are counted from 1601, 100 nanoseconds each, modulo 2^64. */
  lemma TicksAre(seconds: nat)
    ensures UnixTimeToWindowsTicks(seconds) == (seconds + 11644473600) * 10000000 % 0x1_0000_0000_0000_0000
  {
    var t := seconds + SECONDS_TO_UNIX_TIME;
    assert t == WORD64 * (t / WORD64) + t % WORD64;
    ModEqual(t % WORD64 * TICKS_PER_SECOND, t * TICKS_PER_SECOND, WORD64, -(t / WORD64 * TICKS_PER_SECOND));
  }

  /** Dividing the ticks again gives the second back exactly for the times whose tick count fits 64 bits. */
  lemma TicksDivideBackIff(seconds: nat)
    requires seconds < WORD64
    ensures UnixTimeToWindowsTicks(seconds) / TICKS_PER_SECOND - SECONDS_TO_UNIX_TIME == seconds
      <==> (seconds + SECONDS_TO_UNIX_TIME) * TICKS_PER_SECOND < WORD64
  {
  }

  lemma ModEqual(x: int, y: int, m: int, k: int)
    requires m > 0 && x - y == m * k
    ensures x % m == y % m
  {
    assert y == m * (y / m) + y % m;
    assert m * (y / m + k) == m * (y / m) + m * k;
    ModUnique(x, m, y / m + k, y % m);
  }

  lemma ModDifference(x: int, y: int, m: int) returns (k: int)
    requires m > 0 && x % m == y % m
    ensures x - y == m * k
  {
    k := x / m - y / m;
    assert m * k == m * (x / m) - m * (y / m);
  }

  /** 2^57: a second more than this and the ticks repeat, for 10^7 is 2^7 times an odd number. */
  const TICK_PERIOD := 0x200_0000_0000_0000

  /** Division by the odd factor 78125 of the ticks of a second, modulo the period. */
  lemma OddFactorCancels(d: int, q: int) returns (k: int)
    requires d * TICKS_PER_SECOND == WORD64 * q
    ensures d == TICK_PERIOD * k
  {
    assert 78125 * d == TICK_PERIOD * q;
    k := 72942115416262309 * q - 39542 * d;
    assert 78125 * 72942115416262309 == 1 + TICK_PERIOD * 39542;
  }

  /** Two times have the same tick count if and only if they differ by a multiple of 2^57 seconds. */
  lemma TicksAgreeIff(s: nat, t: nat)
    ensures UnixTimeToWindowsTicks(s) == UnixTimeToWindowsTicks(t) <==> s % TICK_PERIOD == t % TICK_PERIOD
  {
    var a, b := (s + SECONDS_TO_UNIX_TIME) % WORD64, (t + SECONDS_TO_UNIX_TIME) % WORD64;
    ShiftedDifference(s, a);
    ShiftedDifference(t, b);
    var i, j := (s + SECONDS_TO_UNIX_TIME) / WORD64, (t + SECONDS_TO_UNIX_TIME) / WORD64;
    assert s - t == a - b + WORD64 * (i - j);
    if s % TICK_PERIOD == t % TICK_PERIOD {
      var k := ModDifference(s, t, TICK_PERIOD);
      ModEqual(a * TICKS_PER_SECOND, b * TICKS_PER_SECOND, WORD64, 78125 * k - (i - j) * TICKS_PER_SECOND);
    } else if UnixTimeToWindowsTicks(s) == UnixTimeToWindowsTicks(t) {
      var q := ModDifference(a * TICKS_PER_SECOND, b * TICKS_PER_SECOND, WORD64);
      var k := OddFactorCancels(a - b, q);
      ModEqual(s, t, TICK_PERIOD, k + 128 * (i - j));
    }
  }

  lemma ShiftedDifference(s: nat, a: nat)
    requires a == (s + SECONDS_TO_UNIX_TIME) % WORD64
    ensures s + SECONDS_TO_UNIX_TIME == WORD64 * ((s + SECONDS_TO_UNIX_TIME) / WORD64) + a
  {
  }

  // ----- Histograms.

  /** The non-empty buckets that have a boundary, in boundary order, from index `i`. */
  function KeptBuckets(bounds: seq<nat>, counts: seq<nat>, i: nat): seq<Bucket>
    requires i <= |bounds|
    decreases |bounds| - i
  {
    if i == |bounds| then []
    else (if i < |counts| && counts[i] > 0 then [Bucket(bounds[i], counts[i])] else []) + KeptBuckets(bounds, counts, i + 1)
  }

  /** The boundaries below n with a count that is not zero, in order. */
  function NonEmptyAt(counts: seq<nat>, i: nat, n: nat): (at: seq<nat>)
    requires i <= n
    ensures forall k :: 0 <= k < |at| ==> i <= at[k] < n && at[k] < |counts| && counts[at[k]] != 0
    ensures forall k, l :: 0 <= k < l < |at| ==> at[k] < at[l]
    decreases n - i
  {
    if i == n then [] else (if i < |counts| && counts[i] != 0 then [i] else []) + NonEmptyAt(counts, i + 1, n)
  }

  lemma {:induction false} NonEmptyAreAll(counts: seq<nat>, i: nat, n: nat, j: nat)
    requires i <= j < n && j < |counts| && counts[j] != 0
    ensures j in NonEmptyAt(counts, i, n)
    decreases n - i
  {
    if j == i {
    } else {
      NonEmptyAreAll(counts, i + 1, n, j);
    }
  }

  /** The kept buckets are those of exactly the boundaries with a count that is not zero, in boundary order. */
  lemma {:induction false} KeptBucketsAre(bounds: seq<nat>, counts: seq<nat>, i: nat)
    requires i <= |bounds|
    ensures var bs, at := KeptBuckets(bounds, counts, i), NonEmptyAt(counts, i, |bounds|);
      |bs| == |at| && forall k :: 0 <= k < |at| ==> bs[k] == Bucket(bounds[at[k]], counts[at[k]])
    decreases |bounds| - i
  {
    if i == |bounds| {
    } else {
      KeptBucketsAre(bounds, counts, i + 1);
    }
  }

  function Sum(counts: seq<nat>): nat {
    if counts == [] then 0 else counts[0] + Sum(counts[1..])
  }

  function BucketSum(bs: seq<Bucket>): nat {
    if bs == [] then 0 else bs[0].count + BucketSum(bs[1..])
  }

  lemma StoredSumStep(b: Bucket, rest: seq<Bucket>)
    ensures BucketSum(StoredBuckets([b] + rest)) == b.count % WORD32 + BucketSum(StoredBuckets(rest))
    ensures b.count % WORD32 <= b.count && (b.count % WORD32 == b.count <==> b.count < WORD32)
  {
    assert ([b] + rest)[1..] == rest;
    assert StoredBuckets([b] + rest)[1..] == StoredBuckets(rest);
  }

  lemma {:induction false} ConservationFrom(bounds: seq<nat>, counts: seq<nat>, i: nat)
    requires i <= |bounds| && |counts| == |bounds| + 1
    ensures BucketSum(StoredBuckets(KeptBuckets(bounds, counts, i))) + counts[|bounds|] <= Sum(counts[i..])
    ensures BucketSum(StoredBuckets(KeptBuckets(bounds, counts, i))) + counts[|bounds|] == Sum(counts[i..])
      <==> forall j :: i <= j < |bounds| ==> counts[j] < WORD32
    decreases |bounds| - i
  {
    if i == |bounds| {
      assert counts[i..] == [counts[i]] && counts[i..][1..] == [];
    } else {
      ConservationFrom(bounds, counts, i + 1);
      assert counts[i..][0] == counts[i] && counts[i..][1..] == counts[i + 1..];
      assert Sum(counts[i..]) == counts[i] + Sum(counts[i + 1..]);
      var b, rest := Bucket(bounds[i], counts[i]), KeptBuckets(bounds, counts, i + 1);
      StoredSumStep(b, rest);
      assert KeptBuckets(bounds, counts, i) == if counts[i] > 0 then [b] + rest else rest;
    }
  }

  /**
   No event is lost: with one more count than boundaries, the decoded buckets together with the
   last, unbounded bucket add up to all counts if and only if no bounded count overflows 32 bits.
   */
  lemma HistogramConservation(m: Metric, bounds: seq<nat>, counts: seq<nat>)
    requires WellTyped(m) && m.section.Distribution? && |Encode(m)| <= BUFFER_SIZE && LimitsAgree(m.prepopulated)
    requires |counts| == |bounds| + 1 && m.buckets == KeptBuckets(bounds, counts, 0)
    ensures Decode(Encode(m)).Some?
    ensures BucketSum(Decode(Encode(m)).value.buckets) + counts[|bounds|] == Sum(counts)
      <==> forall j :: 0 <= j < |bounds| ==> counts[j] < WORD32
  {
    DecodeEncode(m);
    ConservationFrom(bounds, counts, 0);
    assert counts[0..] == counts;
  }

  /** The failing case is real: 2^32 events in one bounded bucket are lost. */
  lemma ConservationCanFail(bound: nat)
    ensures var counts := [WORD32, 0];
      && BucketSum(StoredBuckets(KeptBuckets([bound], counts, 0))) + counts[1] == 0 && Sum(counts) == WORD32
  {
    var b := Bucket(bound, WORD32);
    assert KeptBuckets([bound], [WORD32, 0], 1) == [];
    assert KeptBuckets([bound], [WORD32, 0], 0) == [b] + [];
    StoredSumStep(b, []);
    assert [WORD32, 0][1..] == [0] && [0][1..] == [];
  }
}
