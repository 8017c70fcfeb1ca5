/**
 The Geneva metrics exporter: both serializers write a fixed buffer in place and patch its head
 at the end; Export hands each finished frame to the transport.
 */
module GenevaExporter {
  import opened Wrappers
  import opened Bytes
  import opened GenevaFormat
  import opened GenevaTransport

  /** A measured number: a signed 64-bit integer, or the bits of a double. */
  datatype Number = Long(i: int) | Double(bits: nat)

  datatype PointValue =
    | SumPoint(sum: Number, monotonic: bool)
    | LastValuePoint(last: Number)
    | HistogramPoint(count: nat, total: Number, min: Number, max: Number, bounds: seq<nat>, counts: seq<nat>)
    | OtherPoint

  datatype Point = Point(value: PointValue, unixSeconds: nat, name: bytes, attributes: seq<Dimension>)

  /** A histogram point keeps its sum, minimum and maximum in the same representation. */
  predicate ConsistentHistogram(p: Point) {
    p.value.HistogramPoint? ==>
      p.value.total.Double? == p.value.min.Double? && p.value.total.Double? == p.value.max.Double?
  }

  lemma EncodeIsFrame(m: Metric)
    requires WellTyped(m) && |Encode(m)| <= BUFFER_SIZE
    ensures IsFrame(Encode(m))
  {
    FrameParts(m);
    NothingWraps(m);
  }

  /** The calls of Send are given the frames of these metrics, one by one. */
  ghost predicate Handed(calls: seq<Call>, ms: seq<Metric>) {
    |calls| == |ms| && forall i :: 0 <= i < |ms| ==> calls[i].data == Encode(ms[i])
  }

  lemma HandedStep(calls: seq<Call>, ms: seq<Metric>, c: Call, m: Metric)
    requires Handed(calls, ms) && c.data == Encode(m)
    ensures Handed(calls + [c], ms + [m])
  {
  }

  lemma HandedSince(before: seq<Call>, calls: seq<Call>, ms: seq<Metric>, more: seq<Metric>)
    requires before <= calls && Handed(before, ms) && Handed(calls, ms + more)
    ensures Handed(calls[|before|..], more)
  {
  }

  ghost predicate AllFit(ms: seq<Metric>) {
    forall i :: 0 <= i < |ms| ==> WellTyped(ms[i]) && |Encode(ms[i])| <= BUFFER_SIZE
  }

  lemma TriedIsEncoded(h: seq<Attempt>, calls: seq<Call>, ms: seq<Metric>, msg: bytes) returns (j: nat)
    requires Handed(calls, ms) && AllFit(ms) && HasData(calls, msg)
    ensures j < |ms| && msg == Encode(ms[j]) && IsFrame(msg)
  {
    j :| 0 <= j < |calls| && calls[j].data == msg;
    EncodeIsFrame(ms[j]);
  }

  lemma ExportedAreFrames(h: seq<Attempt>, calls: seq<Call>, ms: seq<Metric>)
    requires FromCalls(h, calls) && Handed(calls, ms) && AllFit(ms)
    ensures AllFrames(h)
  {
    forall i | 0 <= i < |h| ensures IsFrame(h[i].msg) {
      var j := TriedIsEncoded(h, calls, ms, h[i].msg);
    }
  }

  /** A function that maps element by element maps concatenations to concatenations. */
  lemma {:induction false} ConcatBySnoc<T, U>(all: seq<T> -> seq<U>, one: T -> seq<U>, a: seq<T>, b: seq<T>)
    requires all([]) == [] && forall s, t :: all(s + [t]) == all(s) + one(t)
    ensures all(a + b) == all(a) + all(b)
  {
    if b == [] {
      assert a + b == a;
    } else {
      var front, t := b[..|b| - 1], b[|b| - 1];
      ConcatBySnoc(all, one, a, front);
      assert b == front + [t];
      Assoc(a, front, [t]);
      Assoc(all(a), all(front), one(t));
    }
  }

  lemma KeysDiffer()
    ensures ACCOUNT_KEY != NAMESPACE_KEY
  {
    assert |ACCOUNT_KEY| != |NAMESPACE_KEY|;
  }

  /** A two's-complement 64-bit word. */
  function Word(i: int): nat { i % WORD64 }

  class Exporter {
    const account: bytes
    const ns: bytes
    const prepopulated: seq<Dimension>
    const toDouble: int -> nat  // bits of the double nearest to an integer
    const toLong: nat -> int    // integer part of the double with these bits
    const buffer: array<byte>
    const transport: UnixDomainSocketDataTransport
    var isShutdown: bool
    /** All points ever exported. */
    ghost var given: seq<Point>

    /** Every point with a frame that fits has had its call of Send, in order. */
    ghost predicate Valid()
      reads this, buffer, transport, transport.kernel
    {
      buffer.Length == BUFFER_SIZE && transport.Valid() && Handed(transport.calls, MetricsOf(given))
    }

    constructor (account: bytes, ns: bytes, prepopulated: seq<Dimension>, toDouble: int -> nat, toLong: nat -> int,
                 kernel: Kernel)
      requires kernel.streams == [] && kernel.open == 0 && kernel.answers == []
      modifies kernel
      ensures Valid() && fresh(buffer) && fresh(transport) && transport.kernel == kernel
      ensures this.account == account && this.ns == ns && this.prepopulated == prepopulated && !isShutdown
      ensures given == [] && transport.calls == []
      ensures kernel.answers != [] && kernel.answers[0].Socket? && Outcome(kernel.answers, transport.connected)
    {
      this.account, this.ns, this.prepopulated := account, ns, prepopulated;
      this.toDouble, this.toLong := toDouble, toLong;
      buffer := new byte[BUFFER_SIZE](_ => 0);
      var t := new UnixDomainSocketDataTransport(kernel);
      transport := t;
      isShutdown := false;
      given := [];
      new;
      var _ := t.Connect();
    }

    // ----- Bounded writes.

    method SerializeInt(index: nat, width: nat, value: nat) returns (ok: bool, next: nat)
      requires buffer.Length == BUFFER_SIZE && index <= BUFFER_SIZE
      modifies buffer
      ensures ok <==> index + width <= BUFFER_SIZE
      ensures ok ==> next == index + width && buffer[..next] == old(buffer[..index]) + LE(width, value)
      ensures ok ==> buffer[next..] == old(buffer[next..])
      ensures !ok ==> next == index && buffer[..] == old(buffer[..])
    {
      if index + width > BUFFER_SIZE {
        return false, index;
      }
      Copy(index, LE(width, value));
      return true, index + width;
    }

    method SerializeString(index: nat, s: bytes) returns (ok: bool, next: nat)
      requires buffer.Length == BUFFER_SIZE && index <= BUFFER_SIZE
      modifies buffer
      ensures ok <==> index + |Str(s)| <= BUFFER_SIZE
      ensures ok ==> next == index + |Str(s)| && buffer[..next] == old(buffer[..index]) + Str(s)
      ensures ok ==> buffer[next..] == old(buffer[next..])
      ensures !ok ==> next == index && buffer[..] == old(buffer[..])
    {
      if index + 2 + |s| > BUFFER_SIZE {
        return false, index;
      }
      var written, at := SerializeInt(index, 2, |s|);
      if |s| > 0 {
        Copy(at, s);
      }
      return true, at + |s|;
    }

    /** memcpy into the buffer. */
    method Copy(index: nat, data: bytes)
      requires index + |data| <= buffer.Length
      modifies buffer
      ensures buffer[..index + |data|] == old(buffer[..index]) + data
      ensures buffer[index + |data|..] == old(buffer[index + |data|..])
    {
      forall i | 0 <= i < |data| {
        buffer[index + i] := data[i];
      }
    }

    // ----- The variable part.

    /** From `start` the buffer holds the first of `all`, `rest` is still to come, the end is as it was in `was`. */
    ghost predicate Written(start: nat, index: nat, rest: seq<bytes>, all: seq<bytes>, was: bytes)
      reads buffer
    {
      && buffer.Length == BUFFER_SIZE == |was| && start <= index <= BUFFER_SIZE
      && buffer[start..index] + Strs(rest) == Strs(all)
      && buffer[index..] == was[index..]
    }

    method SerializeNext(index: nat, s: bytes, ghost start: nat, ghost rest: seq<bytes>, ghost all: seq<bytes>, ghost was: bytes)
      returns (ok: bool, next: nat)
      requires Written(start, index, [s] + rest, all, was)
      modifies buffer
      ensures ok ==> Written(start, next, rest, all, was) && next == index + 2 + |s|
      ensures !ok ==> start + |Strs(all)| > BUFFER_SIZE
    {
      ghost var before := buffer[..];
      assert ([s] + rest)[1..] == rest;
      ok, next := SerializeString(index, s);
      if ok {
        assert buffer[start..next] == buffer[..next][start..] == before[start..index] + Str(s);
        assert buffer[start..next] + Strs(rest) == before[start..index] + (Str(s) + Strs(rest));
        assert buffer[next..] == before[next..] == before[index..][next - index..];
        assert was[next..] == was[index..][next - index..];
      }
    }

    /** The configured account and namespace, unless attributes name others. */
    method ReadIdentity(attributes: seq<Dimension>) returns (accountName: bytes, accountNamespace: bytes)
      ensures accountName == LastValue(ACCOUNT_KEY, attributes, account)
      ensures accountNamespace == LastValue(NAMESPACE_KEY, attributes, ns)
    {
      accountName, accountNamespace := account, ns;
      KeysDiffer();
      for i := 0 to |attributes|
        invariant accountName == LastValue(ACCOUNT_KEY, attributes[..i], account)
        invariant accountNamespace == LastValue(NAMESPACE_KEY, attributes[..i], ns)
      {
        assert attributes[..i + 1][..i] == attributes[..i];
        if attributes[i].name == ACCOUNT_KEY {
          accountName := attributes[i].value;
        } else if attributes[i].name == NAMESPACE_KEY {
          accountNamespace := attributes[i].value;
        }
      }
      assert attributes[..|attributes|] == attributes;
    }

    /** Prepopulated names; the 16-bit count cannot wrap, each name takes two bytes. */
    method SerializeShortNames(at: nat, ds: seq<Dimension>, count: nat,
                          ghost start: nat, ghost tail: seq<bytes>, ghost all: seq<bytes>, ghost was: bytes)
      returns (ok: bool, index: nat, dimensions: nat)
      requires Written(start, at, ShortNames(ds) + tail, all, was) && 2 * count <= at
      modifies buffer
      ensures ok ==> Written(start, index, tail, all, was)
      ensures ok ==> dimensions == count + |ShortNames(ds)| && 2 * dimensions <= index
      ensures !ok ==> start + |Strs(all)| > BUFFER_SIZE
    {
      ok, index, dimensions := true, at, count;
      ghost var rest := ShortNames(ds);
      assert ds[0..] == ds;
      for i := 0 to |ds|
        invariant rest == ShortNames(ds[i..])
        invariant Written(start, index, rest + tail, all, was)
        invariant dimensions + |rest| == count + |ShortNames(ds)| && 2 * dimensions <= index
      {
        ShortNamesStep(ds, i);
        ghost var next := ShortNames(ds[i + 1..]);
        if |ds[i].name| > MAX_DIMENSION_NAME {
          assert rest == next;
          continue;
        }
        dimensions := (dimensions + 1) % WORD16;
        assert rest + tail == [ds[i].name] + (next + tail);
        rest := next;
        ok, index := SerializeNext(index, ds[i].name, start, rest + tail, all, was);
        if !ok { return; }
      }
      assert rest + tail == tail;
    }

    /** Attribute names, without the two that only override the identity. */
    method SerializeAttributeNames(at: nat, ds: seq<Dimension>, count: nat,
                          ghost start: nat, ghost tail: seq<bytes>, ghost all: seq<bytes>, ghost was: bytes)
      returns (ok: bool, index: nat, dimensions: nat)
      requires Written(start, at, AttributeNames(ds) + tail, all, was) && 2 * count <= at
      modifies buffer
      ensures ok ==> Written(start, index, tail, all, was)
      ensures ok ==> dimensions == count + |AttributeNames(ds)| && 2 * dimensions <= index
      ensures !ok ==> start + |Strs(all)| > BUFFER_SIZE
    {
      ok, index, dimensions := true, at, count;
      ghost var rest := AttributeNames(ds);
      assert ds[0..] == ds;
      for i := 0 to |ds|
        invariant rest == AttributeNames(ds[i..])
        invariant Written(start, index, rest + tail, all, was)
        invariant dimensions + |rest| == count + |AttributeNames(ds)| && 2 * dimensions <= index
      {
        AttributeNamesStep(ds, i);
        ghost var next := AttributeNames(ds[i + 1..]);
        if !Exported(ds[i]) {
          assert rest == next;
          continue;
        }
        dimensions := (dimensions + 1) % WORD16;
        assert rest + tail == [ds[i].name] + (next + tail);
        rest := next;
        ok, index := SerializeNext(index, ds[i].name, start, rest + tail, all, was);
        if !ok { return; }
      }
      assert rest + tail == tail;
    }

    /** Prepopulated values, filtered by their own size. */
    method SerializeShortValues(at: nat, ds: seq<Dimension>,
                          ghost start: nat, ghost tail: seq<bytes>, ghost all: seq<bytes>, ghost was: bytes)
      returns (ok: bool, index: nat)
      requires Written(start, at, ShortValues(ds) + tail, all, was)
      modifies buffer
      ensures ok ==> Written(start, index, tail, all, was)
      ensures !ok ==> start + |Strs(all)| > BUFFER_SIZE
    {
      ok, index := true, at;
      ghost var rest := ShortValues(ds);
      assert ds[0..] == ds;
      for i := 0 to |ds|
        invariant rest == ShortValues(ds[i..])
        invariant Written(start, index, rest + tail, all, was)
      {
        ShortValuesStep(ds, i);
        ghost var next := ShortValues(ds[i + 1..]);
        if |ds[i].value| > MAX_DIMENSION_NAME {
          assert rest == next;
          continue;
        }
        var value := ds[i].value;
        assert rest + tail == [value] + (next + tail);
        rest := next;
        ok, index := SerializeNext(index, value, start, rest + tail, all, was);
        if !ok { return; }
      }
      assert rest + tail == tail;
    }

    /** Attribute values, cut to the size limit. */
    method SerializeAttributeValues(at: nat, ds: seq<Dimension>,
                          ghost start: nat, ghost tail: seq<bytes>, ghost all: seq<bytes>, ghost was: bytes)
      returns (ok: bool, index: nat)
      requires Written(start, at, AttributeValues(ds) + tail, all, was)
      modifies buffer
      ensures ok ==> Written(start, index, tail, all, was)
      ensures !ok ==> start + |Strs(all)| > BUFFER_SIZE
    {
      ok, index := true, at;
      ghost var rest := AttributeValues(ds);
      assert ds[0..] == ds;
      for i := 0 to |ds|
        invariant rest == AttributeValues(ds[i..])
        invariant Written(start, index, rest + tail, all, was)
      {
        AttributeValuesStep(ds, i);
        ghost var next := AttributeValues(ds[i + 1..]);
        if !Exported(ds[i]) {
          assert rest == next;
          continue;
        }
        var value := Clip(ds[i].value);
        assert rest + tail == [value] + (next + tail);
        rest := next;
        ok, index := SerializeNext(index, value, start, rest + tail, all, was);
        if !ok { return; }
      }
      assert rest + tail == tail;
    }

    method SerializeIdentity(start: nat, name: bytes, attributes: seq<Dimension>,
                             ghost rest: seq<bytes>, ghost all: seq<bytes>)
      returns (ok: bool, index: nat)
      requires buffer.Length == BUFFER_SIZE && start <= BUFFER_SIZE
      requires all == [LastValue(ACCOUNT_KEY, attributes, account), LastValue(NAMESPACE_KEY, attributes, ns), name] + rest
      modifies buffer
      ensures ok ==> Written(start, index, rest, all, old(buffer[..]))
      ensures !ok ==> start + |Strs(all)| > BUFFER_SIZE
    {
      var accountName, accountNamespace := ReadIdentity(attributes);
      ghost var was := buffer[..];
      assert all == [accountName] + ([accountNamespace] + ([name] + rest));
      assert buffer[start..start] + Strs(all) == Strs(all);
      ok, index := SerializeNext(start, accountName, start, [accountNamespace] + ([name] + rest), all, was);
      if !ok { return; }
      ok, index := SerializeNext(index, accountNamespace, start, [name] + rest, all, was);
      if !ok { return; }
      ok, index := SerializeNext(index, name, start, rest, all, was);
    }

    method SerializeNames(at: nat, attributes: seq<Dimension>,
                          ghost start: nat, ghost tail: seq<bytes>, ghost all: seq<bytes>, ghost was: bytes)
      returns (ok: bool, index: nat, dimensions: nat)
      requires Written(start, at, ShortNames(prepopulated) + (AttributeNames(attributes) + tail), all, was)
      modifies buffer
      ensures ok ==> Written(start, index, tail, all, was)
      ensures ok ==> dimensions == |ShortNames(prepopulated)| + |AttributeNames(attributes)|
      ensures !ok ==> start + |Strs(all)| > BUFFER_SIZE
    {
      ok, index, dimensions := SerializeShortNames(at, prepopulated, 0, start, AttributeNames(attributes) + tail, all, was);
      if !ok { return; }
      ok, index, dimensions := SerializeAttributeNames(index, attributes, dimensions, start, tail, all, was);
    }

    method SerializeValues(at: nat, attributes: seq<Dimension>,
                           ghost start: nat, ghost tail: seq<bytes>, ghost all: seq<bytes>, ghost was: bytes)
      returns (ok: bool, index: nat)
      requires Written(start, at, ShortValues(prepopulated) + (AttributeValues(attributes) + tail), all, was)
      modifies buffer
      ensures ok ==> Written(start, index, tail, all, was)
      ensures !ok ==> start + |Strs(all)| > BUFFER_SIZE
    {
      ok, index := SerializeShortValues(at, prepopulated, start, AttributeValues(attributes) + tail, all, was);
      if !ok { return; }
      ok, index := SerializeAttributeValues(index, attributes, start, tail, all, was);
    }

    /** What the two serializers have in common: identity, dimension names, dimension values. */
    method SerializeStrings(start: nat, name: bytes, attributes: seq<Dimension>, ghost m: Metric)
      returns (ok: bool, index: nat, dimensions: nat)
      requires buffer.Length == BUFFER_SIZE && start <= BUFFER_SIZE
      requires m.account == account && m.ns == ns && m.name == name
      requires m.prepopulated == prepopulated && m.attributes == attributes
      modifies buffer
      ensures ok ==> Written(start, index, [[]], Strings(m), old(buffer[..]))
      ensures ok ==> dimensions == |DimensionNames(m)|
      ensures !ok ==> start + |Strs(Strings(m))| > BUFFER_SIZE
    {
      dimensions := 0;
      ghost var all, was := Strings(m), buffer[..];
      ghost var values := ShortValues(prepopulated) + (AttributeValues(attributes) + [[]]);
      ghost var names := ShortNames(prepopulated) + (AttributeNames(attributes) + values);
      assert all == [Account(m), Namespace(m), name] + names;
      ok, index := SerializeIdentity(start, name, attributes, names, all);
      if !ok { return; }
      ok, index, dimensions := SerializeNames(index, attributes, start, values, all, was);
      if !ok { return; }
      ok, index := SerializeValues(index, attributes, start, [[]], all, was);
    }

    /** The auto-pilot container: a length of zero. */
    method SerializeContainer(at: nat, ghost start: nat, ghost all: seq<bytes>, ghost was: bytes)
      returns (ok: bool, index: nat)
      requires Written(start, at, [[]], all, was)
      modifies buffer
      ensures ok ==> Written(start, index, [], all, was)
      ensures !ok ==> start + |Strs(all)| > BUFFER_SIZE
    {
      ghost var before := buffer[..];
      assert Strs([[]]) == LE(2, 0);
      ok, index := SerializeInt(at, 2, 0);
      if ok {
        assert buffer[start..index] == buffer[..index][start..] == before[start..at] + LE(2, 0);
        assert buffer[start..index] + Strs([]) == Strs(all);
        assert buffer[index..] == before[at..][2..] == was[at..][2..];
      }
    }

    // ----- The head, written last.

    /** The buffer starts with `head` and is as it was in `was` from there on. */
    ghost predicate Patched(head: bytes, was: bytes)
      reads buffer
    {
      && |head| <= buffer.Length == BUFFER_SIZE == |was|
      && buffer[..|head|] == head && buffer[|head|..] == was[|head|..]
    }

    method PatchInt(index: nat, width: nat, value: nat, ghost head: bytes, ghost was: bytes) returns (next: nat)
      requires Patched(head, was) && index == |head| && index + width <= BUFFER_SIZE
      modifies buffer
      ensures next == index + width && Patched(head + LE(width, value), was)
    {
      var _, n := SerializeInt(index, width, value);
      next := n;
      assert was[next..] == was[index..][width..];
      assert old(buffer[next..]) == old(buffer[index..])[width..];
    }

    /** Event type, body length, dimension count, reserved word: the first eight bytes. */
    method PatchHead(event: nat, bodyLength: nat, dimensions: nat) returns (index: nat)
      requires buffer.Length == BUFFER_SIZE
      modifies buffer
      ensures index == 8
      ensures Patched(LE(2, event) + LE(2, bodyLength) + LE(2, dimensions) + LE(2, 0), old(buffer[..]))
    {
      ghost var was, h1 := buffer[..], LE(2, event);
      assert Patched([], was) && [] + h1 == h1;
      index := PatchInt(0, 2, event, [], was);
      index := PatchInt(index, 2, bodyLength, h1, was);
      index := PatchInt(index, 2, dimensions, h1 + LE(2, bodyLength), was);
      index := PatchInt(index, 2, 0, h1 + LE(2, bodyLength) + LE(2, dimensions), was);
    }

    method PatchMetric(event: nat, bodyLength: nat, dimensions: nat, ticks: nat, value: nat)
      requires buffer.Length == BUFFER_SIZE
      modifies buffer
      ensures Patched(Fields(event, bodyLength, dimensions, Single(ticks, value)), old(buffer[..]))
    {
      ghost var was := buffer[..];
      ghost var head, z, t, v := LE(2, event) + LE(2, bodyLength) + LE(2, dimensions) + LE(2, 0), LE(4, 0), LE(8, ticks), LE(8, value);
      var index := PatchHead(event, bodyLength, dimensions);
      index := PatchInt(index, 4, 0, head, was);
      index := PatchInt(index, 8, ticks, head + z, was);
      index := PatchInt(index, 8, value, head + z + t, was);
      assert head + z + t + v == head + (z + t + v);
    }

    method PatchDistribution(event: nat, bodyLength: nat, dimensions: nat, count: nat, ticks: nat, sum: nat, min: nat, max: nat)
      requires buffer.Length == BUFFER_SIZE
      modifies buffer
      ensures Patched(Fields(event, bodyLength, dimensions, Distribution(count, ticks, sum, min, max)), old(buffer[..]))
    {
      ghost var was := buffer[..];
      ghost var head := LE(2, event) + LE(2, bodyLength) + LE(2, dimensions) + LE(2, 0);
      ghost var c, t, s, n, x := LE(4, count), LE(8, ticks), LE(8, sum), LE(8, min), LE(8, max);
      var index := PatchHead(event, bodyLength, dimensions);
      index := PatchInt(index, 4, count, head, was);
      index := PatchInt(index, 8, ticks, head + c, was);
      index := PatchInt(index, 8, sum, head + c + t, was);
      index := PatchInt(index, 8, min, head + c + t + s, was);
      index := PatchInt(index, 8, max, head + c + t + s + n, was);
      assert head + c + t + s + n + x == head + (c + t + s + n + x);
    }

    lemma FrameAssembled(m: Metric, b1: bytes, start: nat, end: nat)
      requires Patched(FixedPart(m, BodyLength(m)), b1) && |FixedPart(m, BodyLength(m))| == start <= end <= BUFFER_SIZE
      requires b1[start..end] == Variable(m)
      ensures buffer[..end] == Encode(m) && buffer[end..] == b1[end..]
    {
      HeadReplaced(buffer[..], b1, start, end);
    }

    static lemma HeadReplaced(now: bytes, was: bytes, start: nat, end: nat)
      requires start <= end <= |now| == |was| && now[start..] == was[start..]
      ensures now[..end] == now[..start] + was[start..end] && now[end..] == was[end..]
    {
      assert now[..end] == now[..start] + now[start..][..end - start];
      assert was[start..][..end - start] == was[start..end];
      assert now[end..] == now[start..][end - start..] && was[end..] == was[start..][end - start..];
    }

    /** The variable part of m stands at `start`, and the buffer after it is as it was. */
    ghost predicate BodyWritten(m: Metric, start: nat, index: nat, dimensions: nat, was: bytes)
      reads buffer
    {
      && buffer.Length == BUFFER_SIZE == |was| && start <= index <= BUFFER_SIZE
      && buffer[start..index] == Variable(m) && buffer[index..] == was[index..]
      && dimensions == |DimensionNames(m)|
    }

    method SerializeMetricBody(start: nat, name: bytes, attributes: seq<Dimension>, ghost m: Metric)
      returns (ok: bool, index: nat, dimensions: nat)
      requires buffer.Length == BUFFER_SIZE && start <= BUFFER_SIZE && m.section.Single?
      requires m.account == account && m.ns == ns && m.name == name
      requires m.prepopulated == prepopulated && m.attributes == attributes
      modifies buffer
      ensures ok ==> BodyWritten(m, start, index, dimensions, old(buffer[..]))
      ensures !ok ==> start + |Variable(m)| > BUFFER_SIZE
    {
      ghost var was := buffer[..];
      ok, index, dimensions := SerializeStrings(start, name, attributes, m);
      if !ok { return; }
      ok, index := SerializeContainer(index, start, Strings(m), was);
    }

    /**
     Returns the body length and leaves the whole frame at the head of the buffer, whatever the
     buffer held before; returns 0 exactly when the frame would not fit.
     */
    method SerializeNonHistogramMetrics(event: nat, value: Number, unixSeconds: nat, name: bytes, attributes: seq<Dimension>)
      returns (bodyLength: nat)
      requires buffer.Length == BUFFER_SIZE
      requires if event == UINT64_METRIC then value.Long? else event == DOUBLE_METRIC && value.Double?
      modifies buffer
      ensures FrameLeft(NonHistogram(this, event, value, unixSeconds, name, attributes), bodyLength, old(buffer[..]))
    {
      ghost var m := NonHistogram(this, event, value, unixSeconds, name, attributes);
      ghost var was := buffer[..];
      var start := BINARY_HEADER + METRIC_PAYLOAD;
      var ok, index, dimensions := SerializeMetricBody(start, name, attributes, m);
      if !ok { return 0; }
      bodyLength := BodyLengthAt(index, start, m);
      ghost var b1 := buffer[..];
      PatchMetric(event, bodyLength, dimensions, UnixTimeToWindowsTicks(unixSeconds),
                  if event == UINT64_METRIC then Word(value.i) else value.bits);
      Finished(m, b1, was, start, index);
    }

    /** The cast to 16 bits keeps the length of a body that fits. */
    method BodyLengthAt(index: nat, start: nat, ghost m: Metric) returns (bodyLength: nat)
      requires WellTyped(m) && start == BINARY_HEADER + PayloadSize(m) && index == start + |Variable(m)| <= BUFFER_SIZE
      ensures bodyLength == BodyLength(m)
    {
      NothingWraps(m);
      return (index - BINARY_HEADER) % WORD16;
    }

    /** What a serializer leaves: a frame that fits and its body length, or 0. */
    ghost predicate FrameLeft(m: Metric, bodyLength: nat, was: bytes)
      reads buffer
    {
      buffer.Length == BUFFER_SIZE == |was| &&
      if |Encode(m)| > BUFFER_SIZE then bodyLength == 0
      else bodyLength == BodyLength(m) >= 32 && buffer[..bodyLength + BINARY_HEADER] == Encode(m)
           && buffer[bodyLength + BINARY_HEADER..] == was[bodyLength + BINARY_HEADER..]
    }

    lemma Finished(m: Metric, b1: bytes, was: bytes, start: nat, index: nat)
      requires WellTyped(m) && start == BINARY_HEADER + PayloadSize(m) <= index <= BUFFER_SIZE
      requires |was| == |b1| == BUFFER_SIZE && b1[start..index] == Variable(m) && b1[index..] == was[index..]
      requires Patched(FixedPart(m, BodyLength(m)), b1)
      ensures index - BINARY_HEADER == BodyLength(m) && FrameLeft(m, BodyLength(m), was)
    {
      NothingWraps(m);
      FrameAssembled(m, b1, start, index);
    }

    // ----- Histograms.

    /** From `start` to `index` the buffer holds `content`, and after that it is as it was. */
    ghost predicate Holds(start: nat, index: nat, content: bytes, was: bytes)
      reads buffer
    {
      && buffer.Length == BUFFER_SIZE == |was| && start <= index <= BUFFER_SIZE
      && buffer[start..index] == content && buffer[index..] == was[index..]
    }

    method AppendInt(index: nat, width: nat, value: nat, ghost start: nat, ghost content: bytes, ghost was: bytes)
      returns (ok: bool, next: nat)
      requires Holds(start, index, content, was)
      modifies buffer
      ensures ok ==> Holds(start, next, content + LE(width, value), was) && next == index + width
      ensures !ok ==> start + |content| + width > BUFFER_SIZE
    {
      ghost var before := buffer[..];
      ok, next := SerializeInt(index, width, value);
      if ok {
        assert buffer[start..next] == buffer[..next][start..] == before[start..index] + LE(width, value);
        assert buffer[next..] == before[index..][width..] == was[index..][width..];
      }
    }

    method SerializeBuckets(at: nat, bounds: seq<nat>, counts: seq<nat>, ghost start: nat, ghost content: bytes, ghost was: bytes)
      returns (ok: bool, index: nat, bucketCount: nat)
      requires Holds(start, at, content, was)
      modifies buffer
      ensures ok ==> Holds(start, index, content + BucketBytes(KeptBuckets(bounds, counts, 0)), was)
      ensures ok ==> bucketCount == |KeptBuckets(bounds, counts, 0)| < WORD16
      ensures !ok ==> start + |content| + |BucketBytes(KeptBuckets(bounds, counts, 0))| > BUFFER_SIZE
    {
      ghost var total, now := content + BucketBytes(KeptBuckets(bounds, counts, 0)), content;
      ok, index, bucketCount := true, at, 0;
      for i := 0 to |bounds|
        invariant Holds(start, index, now, was) && now + BucketBytes(KeptBuckets(bounds, counts, i)) == total
        invariant bucketCount + |KeptBuckets(bounds, counts, i)| == |KeptBuckets(bounds, counts, 0)|
        invariant 12 * bucketCount <= index
      {
        KeptBucketsStep(now, bounds, counts, i);
        if i < |counts| && counts[i] > 0 {
          ok, index := AppendBucket(index, bounds[i], counts[i], start, now, was);
          if !ok { return; }
          now := now + LE(8, bounds[i]) + LE(4, counts[i]);
          bucketCount := (bucketCount + 1) % WORD16;
        }
      }
      assert now + BucketBytes([]) == now;
    }

    method AppendBucket(index: nat, bound: nat, count: nat, ghost start: nat, ghost content: bytes, ghost was: bytes)
      returns (ok: bool, next: nat)
      requires Holds(start, index, content, was)
      modifies buffer
      ensures ok ==> Holds(start, next, content + LE(8, bound) + LE(4, count), was) && next == index + 12
      ensures !ok ==> start + |content| + 12 > BUFFER_SIZE
    {
      ok, next := AppendInt(index, 8, bound, start, content, was);
      if ok {
        ok, next := AppendInt(next, 4, count, start, content + LE(8, bound), was);
      }
    }

    static lemma KeptBucketsStep(now: bytes, bounds: seq<nat>, counts: seq<nat>, i: nat)
      requires i < |bounds|
      ensures var here, next := KeptBuckets(bounds, counts, i), KeptBuckets(bounds, counts, i + 1);
        if i < |counts| && counts[i] > 0 then
          |here| == |next| + 1 && now + BucketBytes(here) == now + LE(8, bounds[i]) + LE(4, counts[i]) + BucketBytes(next)
        else here == next
    {
      var next := KeptBuckets(bounds, counts, i + 1);
      if i < |counts| && counts[i] > 0 {
        assert KeptBuckets(bounds, counts, i) == [Bucket(bounds[i], counts[i])] + next;
        BucketStep(now, Bucket(bounds[i], counts[i]), next);
      }
    }

    static lemma BucketStep(now: bytes, b: Bucket, rest: seq<Bucket>)
      ensures now + BucketBytes([b] + rest) == now + LE(8, b.bound) + LE(4, b.count) + BucketBytes(rest)
    {
      assert ([b] + rest)[1..] == rest;
    }

    /** Rewrites a two-byte field inside what the buffer holds. */
    method PatchCount(at: nat, value: nat, ghost start: nat, ghost index: nat,
                      ghost before: bytes, ghost after: bytes, ghost was: bytes)
      requires Holds(start, index, before + LE(2, 0) + after, was) && at == start + |before|
      modifies buffer
      ensures Holds(start, index, before + LE(2, value) + after, was)
    {
      ghost var all := buffer[..];
      var _, next := SerializeInt(at, 2, value);
      assert all[start..index] == before + LE(2, 0) + after;
      assert all[next..index] == after by {
        assert all[next..index] == all[start..index][next - start..];
      }
      assert all[start..at] == before by {
        assert all[start..at] == all[start..index][..at - start];
      }
      assert buffer[start..index] == buffer[..next][start..] + buffer[next..][..index - next];
      assert all[next..][..index - next] == all[next..index];
      assert buffer[index..] == buffer[next..][index - next..] && all[index..] == all[next..][index - next..];
    }

    /** Container, version, distribution type, bucket count (patched when known), buckets. */
    method SerializeTrailer(at: nat, bounds: seq<nat>, counts: seq<nat>, ghost start: nat, ghost base: bytes, ghost was: bytes)
      returns (ok: bool, index: nat)
      requires Holds(start, at, base, was)
      modifies buffer
      ensures var buckets := KeptBuckets(bounds, counts, 0);
        if ok then Holds(start, index, base + LE(2, 0) + LE(1, 0) + LE(1, 2) + LE(2, |buckets|) + BucketBytes(buckets), was)
                   && |buckets| < WORD16
        else start + |base| + 6 + |BucketBytes(buckets)| > BUFFER_SIZE
    {
      ghost var c1 := base + LE(2, 0);
      ghost var c2 := c1 + LE(1, 0);
      ghost var c3 := c2 + LE(1, 2);
      ok, index := AppendInt(at, 2, 0, start, base, was);
      if !ok { return; }
      ok, index := AppendInt(index, 1, 0, start, c1, was);
      if !ok { return; }
      ok, index := AppendInt(index, 1, 2, start, c2, was);
      if !ok { return; }
      var itemsWrittenIndex := index;
      ok, index := AppendInt(index, 2, 0, start, c3, was);
      if !ok { return; }
      var bucketCount;
      ok, index, bucketCount := SerializeBuckets(index, bounds, counts, start, c3 + LE(2, 0), was);
      if !ok { return; }
      PatchCount(itemsWrittenIndex, bucketCount, start, index, c3, BucketBytes(KeptBuckets(bounds, counts, 0)), was);
    }

    lemma TrailerJoined(m: Metric, base: bytes)
      requires m.section.Distribution? && Strs(Strings(m)) == base + LE(2, 0)
      ensures base + LE(2, 0) + LE(1, 0) + LE(1, 2) + LE(2, |m.buckets|) + BucketBytes(m.buckets) == Variable(m)
    {
      assert LE(1, 0) == [0] && LE(1, 2) == [2];
      TrailerParts(base + LE(2, 0), LE(2, |m.buckets|), BucketBytes(m.buckets));
    }

    static lemma TrailerParts(strings: bytes, c: bytes, b: bytes)
      ensures strings + [0] + [2] + c + b == strings + ([0, 2] + c + b)
    {
    }

    method SerializeDistributionBody(start: nat, bounds: seq<nat>, counts: seq<nat>, name: bytes, attributes: seq<Dimension>, ghost m: Metric)
      returns (ok: bool, index: nat, dimensions: nat)
      requires buffer.Length == BUFFER_SIZE && start <= BUFFER_SIZE && m.section.Distribution?
      requires m.account == account && m.ns == ns && m.name == name
      requires m.prepopulated == prepopulated && m.attributes == attributes && m.buckets == KeptBuckets(bounds, counts, 0)
      modifies buffer
      ensures ok ==> BodyWritten(m, start, index, dimensions, old(buffer[..]))
      ensures !ok ==> start + |Variable(m)| > BUFFER_SIZE
    {
      ghost var was := buffer[..];
      ok, index, dimensions := SerializeStrings(start, name, attributes, m);
      if !ok { return; }
      ghost var base := buffer[start..index];
      assert Strs([[]]) == LE(2, 0);
      TrailerJoined(m, base);
      ok, index := SerializeTrailer(index, bounds, counts, start, base, was);
    }

    /** As for single values; the buckets without events are left out and the counter tells how many remain. */
    method SerializeHistogramMetrics(count: nat, sum: Number, min: Number, max: Number, bounds: seq<nat>, counts: seq<nat>,
                                     unixSeconds: nat, name: bytes, attributes: seq<Dimension>)
      returns (bodyLength: nat)
      requires buffer.Length == BUFFER_SIZE
      requires sum.Long? && min.Long? && max.Long?
      modifies buffer
      ensures FrameLeft(Histogram(this, count, sum, min, max, bounds, counts, unixSeconds, name, attributes), bodyLength, old(buffer[..]))
    {
      ghost var m := Histogram(this, count, sum, min, max, bounds, counts, unixSeconds, name, attributes);
      ghost var was := buffer[..];
      var start := BINARY_HEADER + EXTERNAL_PAYLOAD;
      var ok, index, dimensions := SerializeDistributionBody(start, bounds, counts, name, attributes, m);
      if !ok { return 0; }
      bodyLength := BodyLengthAt(index, start, m);
      ghost var b1 := buffer[..];
      PatchDistribution(DISTRIBUTION_METRIC, bodyLength, dimensions, count, UnixTimeToWindowsTicks(unixSeconds),
                        Word(sum.i), Word(min.i), Word(max.i));
      Finished(m, b1, was, start, index);
    }

    // ----- Export.

    function AsLong(n: Number): (r: Number)
      ensures r.Long?
    {
      if n.Double? then Long(toLong(n.bits)) else n
    }

    function AsDouble(n: Number): Number {
      if n.Long? then Double(toDouble(n.i)) else n
    }

    /** The metric a point is exported as. Sums that may go down and last values travel as doubles. */
    function MetricOf(p: Point): Option<Metric> {
      match p.value
      case SumPoint(sum, monotonic) =>
        Some(if sum.Long? && monotonic then NonHistogram(this, UINT64_METRIC, sum, p.unixSeconds, p.name, p.attributes)
             else NonHistogram(this, DOUBLE_METRIC, AsDouble(sum), p.unixSeconds, p.name, p.attributes))
      case LastValuePoint(last) => Some(NonHistogram(this, DOUBLE_METRIC, AsDouble(last), p.unixSeconds, p.name, p.attributes))
      case HistogramPoint(count, total, min, max, bounds, counts) =>
        Some(Histogram(this, count, AsLong(total), AsLong(min), AsLong(max), bounds, counts, p.unixSeconds, p.name, p.attributes))
      case OtherPoint => None
    }

    // ----- What a receiver reads for a point, byte by byte.

    /** The word that a sum, a minimum or a maximum of a histogram is sent as. */
    function WordOf(n: Number): nat {
      match n
      case Long(i) => i % 0x1_0000_0000_0000_0000
      case Double(bits) => toLong(bits) % 0x1_0000_0000_0000_0000
    }

    ghost predicate SingleOnTheWire(f: bytes, event: nat, value: nat) {
      |f| >= 28 && FromLE(f[..2]) == event && FromLE(f[20..28]) == value % 0x1_0000_0000_0000_0000
    }

    /** The frame says this of the point: its kind, its time and its numbers, each at its place. */
    ghost predicate OnTheWire(p: Point, f: bytes) {
      && |f| >= 28
      && FromLE(f[12..20]) == (p.unixSeconds + 11644473600) * 10000000 % 0x1_0000_0000_0000_0000
      && match p.value
         case SumPoint(Long(i), true) => FromLE(f[..2]) == 50 && FromLE(f[20..28]) == i % 0x1_0000_0000_0000_0000
         case SumPoint(Long(i), false) => SingleOnTheWire(f, 55, toDouble(i))
         case SumPoint(Double(bits), _) => SingleOnTheWire(f, 55, bits)
         case LastValuePoint(Long(i)) => SingleOnTheWire(f, 55, toDouble(i))
         case LastValuePoint(Double(bits)) => SingleOnTheWire(f, 55, bits)
         case HistogramPoint(count, total, min, max, _, _) =>
           && |f| >= 44 && FromLE(f[..2]) == 56 && FromLE(f[8..12]) == count % 0x1_0000_0000
           && FromLE(f[20..28]) == WordOf(total) && FromLE(f[28..36]) == WordOf(min) && FromLE(f[36..44]) == WordOf(max)
         case OtherPoint => false
    }

    /** The numbers of a metric at their places in its frame. */
    static ghost predicate Holding(m: Metric, f: bytes) {
      && |f| >= 28 && FromLE(f[..2]) == m.event && FromLE(f[12..20]) == m.section.ticks % WORD64
      && match m.section
         case Single(_, value) => FromLE(f[20..28]) == value % WORD64
         case Distribution(count, _, sum, min, max) =>
           && |f| >= 44 && FromLE(f[8..12]) == count % WORD32 && FromLE(f[20..28]) == sum % WORD64
           && FromLE(f[28..36]) == min % WORD64 && FromLE(f[36..44]) == max % WORD64
    }

    static lemma EncodedIsHolding(m: Metric)
      requires WellTyped(m) && |Encode(m)| <= BUFFER_SIZE
      ensures Holding(m, Encode(m))
    {
      EventStandsFirst(m);
      if m.section.Single? {
        SingleStandsAt(m);
      } else {
        DistributionStandsAt(m);
      }
    }

    lemma MetricIsTyped(p: Point)
      ensures MetricOf(p).Some? ==> WellTyped(MetricOf(p).value)
    {
    }

    lemma HoldingIsOnTheWire(p: Point, m: Metric, f: bytes)
      requires MetricOf(p) == Some(m) && Holding(m, f)
      ensures OnTheWire(p, f)
    {
      match p.value
      case SumPoint(_, _) => SumIsOnTheWire(p, m, f);
      case LastValuePoint(_) => LastValueIsOnTheWire(p, m, f);
      case HistogramPoint(_, _, _, _, _, _) => HistogramIsOnTheWire(p, m, f);
    }

    lemma SumIsOnTheWire(p: Point, m: Metric, f: bytes)
      requires MetricOf(p) == Some(m) && Holding(m, f) && p.value.SumPoint?
      ensures OnTheWire(p, f)
    {
      TicksAre(p.unixSeconds);
    }

    lemma LastValueIsOnTheWire(p: Point, m: Metric, f: bytes)
      requires MetricOf(p) == Some(m) && Holding(m, f) && p.value.LastValuePoint?
      ensures OnTheWire(p, f)
    {
      TicksAre(p.unixSeconds);
    }

    lemma HistogramIsOnTheWire(p: Point, m: Metric, f: bytes)
      requires MetricOf(p) == Some(m) && Holding(m, f) && p.value.HistogramPoint?
      ensures OnTheWire(p, f)
    {
      HistogramSection(p, m);
      TicksAre(p.unixSeconds);
      WordOfFits(p.value.total);
      WordOfFits(p.value.min);
      WordOfFits(p.value.max);
    }

    lemma HistogramSection(p: Point, m: Metric)
      requires MetricOf(p) == Some(m) && p.value.HistogramPoint?
      ensures m.event == DISTRIBUTION_METRIC
      ensures m.section == Distribution(p.value.count, UnixTimeToWindowsTicks(p.unixSeconds),
                                        WordOf(p.value.total), WordOf(p.value.min), WordOf(p.value.max))
    {
    }

    lemma WordOfFits(n: Number)
      ensures WordOf(n) % WORD64 == WordOf(n)
    {
    }

    lemma FrameIsOnTheWire(p: Point, m: Metric, f: bytes)
      requires MetricOf(p) == Some(m) && |Encode(m)| <= BUFFER_SIZE && f == Encode(m)
      ensures OnTheWire(p, f)
    {
      MetricIsTyped(p);
      EncodedIsHolding(m);
      HoldingIsOnTheWire(p, m, f);
    }

    /** The texts and buckets that a decoded message holds for the point. */
    ghost predicate Learned(p: Point, g: Message) {
      && g.name == p.name
      && g.account == LastValue(ACCOUNT_KEY, p.attributes, account)
      && g.ns == LastValue(NAMESPACE_KEY, p.attributes, ns)
      && g.names == ShortNames(prepopulated) + AttributeNames(p.attributes)
      && g.values == ValuesOfShortNames(prepopulated) + AttributeValues(p.attributes)
      && g.container == []
      && g.buckets == if p.value.HistogramPoint? then StoredBuckets(KeptBuckets(p.value.bounds, p.value.counts, 0)) else []
    }

    lemma IntendedIsLearned(p: Point, m: Metric)
      requires MetricOf(p) == Some(m)
      ensures Learned(p, Intended(m))
    {
    }

    /** The texts of a point's frame, in order. */
    function TextsOf(p: Point): seq<bytes> {
      [LastValue(ACCOUNT_KEY, p.attributes, account),
       LastValue(NAMESPACE_KEY, p.attributes, ns), p.name]
      + (ShortNames(prepopulated) + AttributeNames(p.attributes))
      + (ShortValues(prepopulated) + AttributeValues(p.attributes)) + [[]]
    }

    /** A point has a frame that fits exactly when it is of a known kind and its parts take at most 65360 bytes. */
    lemma FitsIff(p: Point)
      ensures Fits(p) <==> match p.value
        case OtherPoint => false
        case HistogramPoint(_, _, _, _, bounds, counts) => 48 + 12 * |KeptBuckets(bounds, counts, 0)| + TextSize(TextsOf(p)) <= 65360
        case _ => 28 + TextSize(TextsOf(p)) <= 65360
    {
      if MetricOf(p).Some? {
        EncodeSize(MetricOf(p).value);
        assert Strings(MetricOf(p).value) == TextsOf(p);
      }
    }

    predicate Fits(p: Point) {
      MetricOf(p).Some? && |Encode(MetricOf(p).value)| <= BUFFER_SIZE
    }

    /** The metrics of the points that have a frame that fits, in order. */
    function MetricsOf(ps: seq<Point>): seq<Metric> {
      if ps == [] then [] else
      var p := ps[|ps| - 1];
      MetricsOf(ps[..|ps| - 1]) + if Fits(p) then [MetricOf(p).value] else []
    }

    /** The points that have a frame that fits, in order. */
    function Fitting(ps: seq<Point>): seq<Point> {
      if ps == [] then [] else
      Fitting(ps[..|ps| - 1]) + if Fits(ps[|ps| - 1]) then [ps[|ps| - 1]] else []
    }

    lemma {:induction false} MetricsArePoints(ps: seq<Point>)
      ensures |MetricsOf(ps)| == |Fitting(ps)|
      ensures forall k :: 0 <= k < |Fitting(ps)| ==> Fits(Fitting(ps)[k]) && MetricOf(Fitting(ps)[k]) == Some(MetricsOf(ps)[k])
    {
      if ps == [] {
      } else {
        MetricsArePoints(ps[..|ps| - 1]);
      }
    }

    lemma {:induction false} MetricsFit(ps: seq<Point>)
      ensures AllFit(MetricsOf(ps))
    {
      if ps == [] {
      } else {
        MetricsFit(ps[..|ps| - 1]);
        MetricIsTyped(ps[|ps| - 1]);
      }
    }

    lemma MetricsOfSnoc(ps: seq<Point>, p: Point)
      ensures MetricsOf(ps + [p]) == MetricsOf(ps) + if Fits(p) then [MetricOf(p).value] else []
    {
      assert (ps + [p])[..|ps|] == ps;
    }

    lemma MetricsOfConcat(a: seq<Point>, b: seq<Point>)
      ensures MetricsOf(a + b) == MetricsOf(a) + MetricsOf(b)
    {
      var one := p => if Fits(p) then [MetricOf(p).value] else [];
      var all := ps => MetricsOf(ps);
      forall ps, p ensures all(ps + [p]) == all(ps) + one(p) { MetricsOfSnoc(ps, p); }
      ConcatBySnoc(all, one, a, b);
    }

    method Serialize(p: Point) returns (bodyLength: nat)
      requires buffer.Length == BUFFER_SIZE
      requires ConsistentHistogram(p)
      modifies buffer
      ensures match MetricOf(p)
        case None => bodyLength == 0
        case Some(m) => FrameLeft(m, bodyLength, old(buffer[..]))
    {
      match p.value
      case SumPoint(sum, monotonic) =>
        if sum.Long? && monotonic {
          bodyLength := SerializeNonHistogramMetrics(UINT64_METRIC, sum, p.unixSeconds, p.name, p.attributes);
        } else {
          bodyLength := SerializeNonHistogramMetrics(DOUBLE_METRIC, AsDouble(sum), p.unixSeconds, p.name, p.attributes);
        }
      case LastValuePoint(last) =>
        bodyLength := SerializeNonHistogramMetrics(DOUBLE_METRIC, AsDouble(last), p.unixSeconds, p.name, p.attributes);
      case HistogramPoint(count, total, min, max, bounds, counts) =>
        if total.Double? {
          bodyLength := SerializeHistogramMetrics(count, AsLong(total), AsLong(min), AsLong(max), bounds, counts,
                                                  p.unixSeconds, p.name, p.attributes);
        } else {
          bodyLength := SerializeHistogramMetrics(count, total, min, max, bounds, counts, p.unixSeconds, p.name, p.attributes);
        }
      case OtherPoint =>
        bodyLength := 0;
    }

    /** The frame of every point that has one that fits is handed to the transport, once and in order. */
    method Export(points: seq<Point>) returns (success: bool)
      requires Valid() && forall p :: p in points ==> ConsistentHistogram(p)
      modifies this`given, buffer, transport, transport.kernel
      ensures Valid() && success == !isShutdown
      ensures given == if isShutdown then old(given) else old(given) + points
      ensures isShutdown ==> transport.history == old(transport.history) && transport.calls == old(transport.calls)
      ensures old(transport.calls) <= transport.calls
      ensures !isShutdown ==> Handed(transport.calls[|old(transport.calls)|..], MetricsOf(points))
    {
      if isShutdown {
        return false;
      }
      ExportAll(points);
      MetricsOfConcat(old(given), points);
      HandedSince(old(transport.calls), transport.calls, MetricsOf(old(given)), MetricsOf(points));
      return true;
    }

    method ExportAll(points: seq<Point>)
      requires Valid() && forall p :: p in points ==> ConsistentHistogram(p)
      modifies this`given, buffer, transport, transport.kernel
      ensures Valid() && given == old(given) + points
      ensures old(transport.calls) <= transport.calls
    {
      assert old(given) + points[..0] == old(given);
      for i := 0 to |points|
        invariant Valid() && given == old(given) + points[..i]
        invariant old(transport.calls) <= transport.calls
      {
        ExportPoint(points[i]);
        assert points[..i + 1] == points[..i] + [points[i]];
      }
      assert points[..|points|] == points;
    }

    method ExportPoint(p: Point)
      requires Valid() && ConsistentHistogram(p)
      modifies this`given, buffer, transport, transport.kernel
      ensures Valid() && given == old(given) + [p]
      ensures old(transport.calls) <= transport.calls
    {
      MetricsOfSnoc(given, p);
      var bodyLength := Serialize(p);
      if bodyLength > 0 {
        ExportFrame(bodyLength, MetricOf(p).value);
      }
      given := given + [p];
    }

    /** Hands the frame at the head of the buffer to the transport; whether it arrived is not looked at. */
    method ExportFrame(bodyLength: nat, ghost m: Metric)
      requires Valid() && bodyLength == BodyLength(m) <= BUFFER_SIZE - BINARY_HEADER
      requires buffer[..bodyLength + BINARY_HEADER] == Encode(m)
      modifies transport, transport.kernel
      ensures transport.Valid() && old(transport.calls) <= transport.calls
      ensures Handed(transport.calls, MetricsOf(given) + [m])
    {
      ghost var before := transport.calls;
      var _ := transport.Send(buffer[..bodyLength + BINARY_HEADER]);
      HandedStep(before, MetricsOf(given), transport.calls[|before|], m);
    }

    /**
     End to end, for every exporter, every state it can be in and every connection ever made: what
     arrived cuts into the frames of those exported points, in order, whose Send returned true there,
     and what is left is a proper beginning of the frame of one exported point, or nothing. Each frame
     decodes to the metric of its point if and only if the prepopulated size limits agree.
     */
    lemma EndToEnd(c: nat)
      requires Valid() && c < |transport.kernel.streams|
      ensures var ms, at := MetricsOf(given), AcceptedAt(transport.calls, c);
        var (frames, cut) := SplitFrames(transport.kernel.streams[c]);
        && |frames| == |at| && |ms| == |transport.calls|
        && (forall k :: 0 <= k < |at| ==> frames[k] == Encode(ms[at[k]]))
        && (forall k :: 0 <= k < |at| ==> (Decode(frames[k]) == Some(Intended(ms[at[k]])) <==> LimitsAgree(prepopulated)))
        && (cut == [] || exists j :: 0 <= j < |ms| && CutShort(cut, Encode(ms[j])))
    {
      var calls, ms, at := transport.calls, MetricsOf(given), AcceptedAt(transport.calls, c);
      MetricsFit(given);
      MetricsArePrepopulated(given);
      ExportedAreFrames(transport.history, calls, ms);
      transport.Framing(c);
      AcceptedAreAt(calls, c);
      var (frames, cut) := SplitFrames(transport.kernel.streams[c]);
      forall k | 0 <= k < |at|
        ensures frames[k] == Encode(ms[at[k]])
        ensures Decode(frames[k]) == Some(Intended(ms[at[k]])) <==> LimitsAgree(prepopulated)
      {
        RoundTrip(ms[at[k]]);
      }
      if cut != [] {
        CutIsEncoded(c, cut);
      }
    }

    /**
     What the peer of a connection can read: its frames are those of some of the exported points that
     fit, in order, each with the point's kind, time and numbers at their places; and where the size
     limits agree each also decodes to the point's texts and buckets.
     */
    lemma WhatThePeerReads(c: nat)
      requires Valid() && c < |transport.kernel.streams|
      ensures var ps, at, frames := Fitting(given), AcceptedAt(transport.calls, c), SplitFrames(transport.kernel.streams[c]).0;
        && |frames| == |at| && |ps| == |transport.calls|
        && (forall k :: 0 <= k < |at| ==> OnTheWire(ps[at[k]], frames[k]))
        && (LimitsAgree(prepopulated) ==>
            forall k :: 0 <= k < |at| ==> Decode(frames[k]).Some? && Learned(ps[at[k]], Decode(frames[k]).value))
    {
      EndToEnd(c);
      MetricsArePoints(given);
      var ps, at, frames := Fitting(given), AcceptedAt(transport.calls, c), SplitFrames(transport.kernel.streams[c]).0;
      forall k | 0 <= k < |at|
        ensures OnTheWire(ps[at[k]], frames[k])
        ensures LimitsAgree(prepopulated) ==> Decode(frames[k]).Some? && Learned(ps[at[k]], Decode(frames[k]).value)
      {
        FrameIsOnTheWire(ps[at[k]], MetricsOf(given)[at[k]], frames[k]);
        IntendedIsLearned(ps[at[k]], MetricsOf(given)[at[k]]);
      }
    }

    lemma {:induction false} MetricsArePrepopulated(ps: seq<Point>)
      ensures forall i :: 0 <= i < |MetricsOf(ps)| ==> MetricsOf(ps)[i].prepopulated == prepopulated
    {
      if ps == [] {
      } else {
        MetricsArePrepopulated(ps[..|ps| - 1]);
      }
    }

    lemma CutIsEncoded(c: nat, cut: bytes)
      requires Valid() && CutOn(transport.history, c, cut) && cut != []
      ensures exists j :: 0 <= j < |MetricsOf(given)| && CutShort(cut, Encode(MetricsOf(given)[j]))
    {
      var whole :| CutShort(cut, whole) && TriedOn(transport.history, c, whole);
      var i :| 0 <= i < |transport.history| && transport.history[i].msg == whole;
      MetricsFit(given);
      var j := TriedIsEncoded(transport.history, transport.calls, MetricsOf(given), whole);
    }

    method Shutdown()
      modifies this`isShutdown
      ensures isShutdown
    {
      isShutdown := true;
    }
  }

  function NonHistogram(e: Exporter, event: nat, value: Number, unixSeconds: nat, name: bytes, attributes: seq<Dimension>): Metric {
    Metric(event, Single(UnixTimeToWindowsTicks(unixSeconds), if value.Long? then Word(value.i) else value.bits),
           e.account, e.ns, name, e.prepopulated, attributes, [])
  }

  function Histogram(e: Exporter, count: nat, sum: Number, min: Number, max: Number, bounds: seq<nat>, counts: seq<nat>,
                     unixSeconds: nat, name: bytes, attributes: seq<Dimension>): Metric
    requires sum.Long? && min.Long? && max.Long?
  {
    Metric(DISTRIBUTION_METRIC,
           Distribution(count, UnixTimeToWindowsTicks(unixSeconds), Word(sum.i), Word(min.i), Word(max.i)),
           e.account, e.ns, name, e.prepopulated, attributes, KeptBuckets(bounds, counts, 0))
  }
}
