/**
 The Unix-domain transport. The operating system is an adversary: connecting, querying the
 socket error and every send may answer anything their interfaces allow. The history of write
 attempts, which the class keeps beside its state, is what the framing theorems are about.
 */
module GenevaTransport {
  import opened Bytes

  // ----- Frames in a stream.

  /** A whole frame: event id, body length, body. */
  ghost predicate IsFrame(f: bytes) {
    |f| >= 4 && FromLE(f[2..4]) == |f| - 4
  }

  /** Cuts a stream by its length fields; the second part is what is left when no whole frame is. */
  function SplitFrames(s: bytes): (seq<bytes>, bytes)
    decreases |s|
  {
    if |s| < 4 || |s| < 4 + FromLE(s[2..4]) then ([], s)
    else
      var n := 4 + FromLE(s[2..4]);
      var (frames, rest) := SplitFrames(s[n..]);
      ([s[..n]] + frames, rest)
  }

  function Flatten(fs: seq<bytes>): bytes {
    if fs == [] then [] else fs[0] + Flatten(fs[1..])
  }

  lemma {:induction false} FlattenSnoc(fs: seq<bytes>, f: bytes)
    ensures Flatten(fs + [f]) == Flatten(fs) + f
  {
    if fs == [] {
      assert fs + [f] == [f] && [f][1..] == [];
    } else {
      assert (fs + [f])[1..] == fs[1..] + [f];
      FlattenSnoc(fs[1..], f);
    }
  }

  /** A proper beginning of a frame, possibly empty. */
  ghost predicate CutShort(cut: bytes, f: bytes) {
    IsFrame(f) && |cut| < |f| && cut == f[..|cut|]
  }

  lemma LengthField(s: bytes, k: nat)
    requires 4 <= k <= |s|
    ensures s[..k][2..4] == s[2..4]
  {
  }

  lemma {:induction false} SplitOfFlatten(fs: seq<bytes>, cut: bytes, whole: bytes)
    requires forall f :: f in fs ==> IsFrame(f)
    requires CutShort(cut, whole)
    ensures SplitFrames(Flatten(fs) + cut) == (fs, cut)
  {
    if fs == [] {
      assert Flatten(fs) + cut == cut;
      if |cut| >= 4 {
        LengthField(whole, |cut|);
      }
    } else {
      var f, s := fs[0], Flatten(fs) + cut;
      assert f in fs;
      assert s == f + (Flatten(fs[1..]) + cut);
      assert s[..|f|] == f && s[|f|..] == Flatten(fs[1..]) + cut;
      LengthField(s, |f|);
      SplitOfFlatten(fs[1..], cut, whole);
      assert fs == [f] + fs[1..];
    }
  }

  // ----- Histories of write attempts.

  /** `written` bytes of `msg` went into connection `conn`. */
  datatype Attempt = Attempt(conn: nat, msg: bytes, written: nat)

  ghost predicate Whole(a: Attempt) { a.written == |a.msg| }

  ghost predicate WithinMessages(h: seq<Attempt>) {
    forall i :: 0 <= i < |h| ==> h[i].written <= |h[i].msg|
  }

  function StreamOf(h: seq<Attempt>, c: nat): bytes
    requires WithinMessages(h)
  {
    if h == [] then [] else
    var a := h[|h| - 1];
    StreamOf(h[..|h| - 1], c) + if a.conn == c then a.msg[..a.written] else []
  }

  /** The messages that were written whole on connection c, in order. */
  ghost function Delivered(h: seq<Attempt>, c: nat): seq<bytes> {
    if h == [] then [] else
    var a := h[|h| - 1];
    Delivered(h[..|h| - 1], c) + if a.conn == c && Whole(a) then [a.msg] else []
  }

  /** No connection is written to again after a message was cut short on it. */
  ghost predicate Disciplined(h: seq<Attempt>) {
    && WithinMessages(h)
    && (forall i, j :: 0 <= i < j < |h| && h[i].conn == h[j].conn ==> Whole(h[i]))
  }

  ghost predicate AllFrames(h: seq<Attempt>) {
    forall i :: 0 <= i < |h| ==> IsFrame(h[i].msg)
  }

  /** The connection can still take messages: nothing was cut short on it. */
  ghost predicate Clean(h: seq<Attempt>, c: nat) {
    forall i :: 0 <= i < |h| && h[i].conn == c ==> Whole(h[i])
  }

  lemma HistoryStep(h: seq<Attempt>, a: Attempt, c: nat)
    requires WithinMessages(h) && a.written <= |a.msg|
    ensures StreamOf(h + [a], c) == StreamOf(h, c) + if a.conn == c then a.msg[..a.written] else []
    ensures Delivered(h + [a], c) == if a.conn == c && Whole(a) then Delivered(h, c) + [a.msg] else Delivered(h, c)
    ensures a.conn == c && Whole(a) ==> StreamOf(h + [a], c) == StreamOf(h, c) + a.msg
    ensures a.conn != c ==> StreamOf(h + [a], c) == StreamOf(h, c)
  {
    assert (h + [a])[..|h|] == h;
    if Whole(a) {
      assert a.msg[..a.written] == a.msg;
    }
  }

  /** One more try, cut short, on connection c. */
  ghost predicate CutShortBy(was: seq<Attempt>, h: seq<Attempt>, c: nat, data: bytes) {
    exists n: nat :: n < |data| && h == was + [Attempt(c, data, n)]
  }

  lemma DisciplineStep(h: seq<Attempt>, a: Attempt)
    requires a.written <= |a.msg|
    ensures Disciplined(h + [a]) <==> Disciplined(h) && Clean(h, a.conn)
    ensures Clean(h + [a], a.conn) <==> Clean(h, a.conn) && Whole(a)
  {
    var g := h + [a];
    assert forall i :: 0 <= i < |h| ==> g[i] == h[i];
    assert g[|h|] == a;
  }

  /** The message was tried on connection c. */
  ghost predicate TriedOn(h: seq<Attempt>, c: nat, msg: bytes) {
    exists i :: 0 <= i < |h| && h[i].conn == c && h[i].msg == msg
  }

  /** A proper beginning of a frame that was tried on connection c, or nothing. */
  ghost predicate CutOn(h: seq<Attempt>, c: nat, cut: bytes) {
    cut == [] || exists whole :: CutShort(cut, whole) && TriedOn(h, c, whole)
  }

  /** The stream of connection c is what was delivered on it and then `cut`, the beginning of a frame. */
  ghost predicate CutAfter(h: seq<Attempt>, c: nat, cut: bytes) {
    && WithinMessages(h)
    && StreamOf(h, c) == Flatten(Delivered(h, c)) + cut
    && (forall f :: f in Delivered(h, c) ==> IsFrame(f))
    && CutOn(h, c, cut)
    && (Clean(h, c) ==> cut == [])
  }

  lemma CutAfterWhole(h: seq<Attempt>, a: Attempt, c: nat, cut: bytes)
    requires CutAfter(h, c, cut) && Clean(h, c) && a.conn == c && Whole(a) && IsFrame(a.msg)
    ensures CutAfter(h + [a], c, [])
  {
    HistoryStep(h, a, c);
    WithinStep(h, a);
    FlattenSnoc(Delivered(h, c), a.msg);
    var d := Flatten(Delivered(h, c));
    assert StreamOf(h, c) == d + [] == d;
    assert Flatten(Delivered(h + [a], c)) + [] == d + a.msg;
  }

  lemma CutAfterCut(h: seq<Attempt>, a: Attempt, c: nat, cut: bytes)
    requires CutAfter(h, c, cut) && Clean(h, c) && a.conn == c && a.written < |a.msg| && IsFrame(a.msg)
    ensures CutAfter(h + [a], c, a.msg[..a.written])
  {
    HistoryStep(h, a, c);
    WithinStep(h, a);
    DisciplineStep(h, a);
    var d := Flatten(Delivered(h, c));
    assert StreamOf(h, c) == d + [] == d;
    CutOnNew(h, a, c);
  }

  lemma CutOnNew(h: seq<Attempt>, a: Attempt, c: nat)
    requires a.conn == c && a.written < |a.msg| && IsFrame(a.msg)
    ensures CutOn(h + [a], c, a.msg[..a.written])
  {
    assert (h + [a])[|h|] == a;
    assert CutShort(a.msg[..a.written], a.msg) && TriedOn(h + [a], c, a.msg);
  }

  lemma CutAfterElsewhere(h: seq<Attempt>, a: Attempt, c: nat, cut: bytes)
    requires CutAfter(h, c, cut) && a.conn != c && a.written <= |a.msg|
    ensures CutAfter(h + [a], c, cut)
  {
    HistoryStep(h, a, c);
    WithinStep(h, a);
    var g := h + [a];
    assert forall i :: 0 <= i < |h| ==> g[i] == h[i];
    if cut != [] {
      var whole :| CutShort(cut, whole) && TriedOn(h, c, whole);
      var i :| 0 <= i < |h| && h[i].conn == c && h[i].msg == whole;
      assert g[i].msg == whole && TriedOn(g, c, whole);
    }
  }

  lemma WithinStep(h: seq<Attempt>, a: Attempt)
    requires WithinMessages(h) && a.written <= |a.msg|
    ensures WithinMessages(h + [a])
  {
  }

  lemma {:induction false} StreamIsDeliveredPlusCut(h: seq<Attempt>, c: nat) returns (cut: bytes)
    requires Disciplined(h) && AllFrames(h)
    ensures CutAfter(h, c, cut)
  {
    cut := [];
    if h == [] {
    } else {
      var a, prev := h[|h| - 1], h[..|h| - 1];
      assert h == prev + [a];
      DisciplineStep(prev, a);
      cut := StreamIsDeliveredPlusCut(prev, c);
      if a.conn != c {
        CutAfterElsewhere(prev, a, c, cut);
      } else if Whole(a) {
        CutAfterWhole(prev, a, c, cut);
        cut := [];
      } else {
        CutAfterCut(prev, a, c, cut);
        cut := a.msg[..a.written];
      }
    }
  }

  /**
   Stream framing over whole runs: cutting what arrived on a connection by the length fields
   gives exactly the messages written whole on it, and what is left is a proper beginning of one
   frame tried there, or nothing; nothing unless a message was cut short there.
   */
  lemma WholeRunFraming(h: seq<Attempt>, c: nat)
    requires Disciplined(h) && AllFrames(h)
    ensures SplitFrames(StreamOf(h, c)).0 == Delivered(h, c)
    ensures CutOn(h, c, SplitFrames(StreamOf(h, c)).1)
    ensures Clean(h, c) ==> SplitFrames(StreamOf(h, c)).1 == []
  {
    var cut := StreamIsDeliveredPlusCut(h, c);
    var whole: bytes := [0, 0, 0, 0];
    if cut != [] {
      whole :| CutShort(cut, whole);
    }
    SplitOfFlatten(Delivered(h, c), cut, whole);
  }

  lemma {:induction false} UnusedStreamIsEmpty(h: seq<Attempt>, c: nat)
    requires forall i :: 0 <= i < |h| ==> h[i].written <= |h[i].msg| && h[i].conn != c
    ensures StreamOf(h, c) == []
  {
    if h == [] {
    } else {
      UnusedStreamIsEmpty(h[..|h| - 1], c);
    }
  }

  /** The streams hold what the history says. */
  ghost predicate Kept(streams: seq<bytes>, h: seq<Attempt>) {
    && WithinMessages(h)
    && (forall i :: 0 <= i < |h| ==> h[i].conn < |streams|)
    && (forall c :: 0 <= c < |streams| ==> streams[c] == StreamOf(h, c))
  }

  lemma StreamsStep(streams: seq<bytes>, h: seq<Attempt>, a: Attempt)
    requires Kept(streams, h) && a.conn < |streams| && a.written <= |a.msg|
    ensures Kept(streams[a.conn := streams[a.conn] + a.msg[..a.written]], h + [a])
  {
    var now, g := streams[a.conn := streams[a.conn] + a.msg[..a.written]], h + [a];
    forall c | 0 <= c < |streams| ensures now[c] == StreamOf(g, c) {
      HistoryStep(h, a, c);
    }
    assert forall i :: 0 <= i < |h| ==> g[i] == h[i];
    assert g[|h|] == a;
  }

  // ----- Calls of Send and what they answered.

  /**
   A call of Send: its message, its answer, the connection the transport was on when it answered
   true, and whether it gave up because the open socket reported an error.
   */
  datatype Call = Call(data: bytes, ok: bool, conn: nat, error: bool)

  /** How many calls gave up because of a socket error. */
  ghost function Errors(calls: seq<Call>): nat {
    if calls == [] then 0 else Errors(calls[..|calls| - 1]) + if calls[|calls| - 1].error then 1 else 0
  }

  /** The messages whose Send returned true on connection c, in order. */
  ghost function Accepted(calls: seq<Call>, c: nat): seq<bytes> {
    if calls == [] then [] else
    var a := calls[|calls| - 1];
    Accepted(calls[..|calls| - 1], c) + if a.ok && a.conn == c then [a.data] else []
  }

  /** The places of those calls, in order. */
  ghost function AcceptedAt(calls: seq<Call>, c: nat): (at: seq<nat>)
    ensures forall k :: 0 <= k < |at| ==> at[k] < |calls| && calls[at[k]].ok && calls[at[k]].conn == c
    ensures forall k, l :: 0 <= k < l < |at| ==> at[k] < at[l]
    ensures forall i :: 0 <= i < |calls| && calls[i].ok && calls[i].conn == c ==> i in at
  {
    if calls == [] then [] else
    var last := |calls| - 1;
    AcceptedAt(calls[..last], c) + if calls[last].ok && calls[last].conn == c then [last] else []
  }

  lemma {:induction false} AcceptedAreAt(calls: seq<Call>, c: nat)
    ensures |Accepted(calls, c)| == |AcceptedAt(calls, c)|
    ensures forall k :: 0 <= k < |AcceptedAt(calls, c)| ==> Accepted(calls, c)[k] == calls[AcceptedAt(calls, c)[k]].data
  {
    if calls == [] {
    } else {
      AcceptedAreAt(calls[..|calls| - 1], c);
    }
  }

  /** What Send answered is what happened: the messages it accepted are those delivered. */
  ghost predicate Truthful(h: seq<Attempt>, calls: seq<Call>) {
    forall c :: Delivered(h, c) == Accepted(calls, c)
  }

  ghost predicate HasData(calls: seq<Call>, msg: bytes) {
    exists j :: 0 <= j < |calls| && calls[j].data == msg
  }

  /** Only messages of calls are tried. */
  ghost predicate FromCalls(h: seq<Attempt>, calls: seq<Call>) {
    forall i :: 0 <= i < |h| ==> HasData(calls, h[i].msg)
  }

  lemma CallStep(calls: seq<Call>, a: Call, c: nat)
    ensures Accepted(calls + [a], c) == if a.ok && a.conn == c then Accepted(calls, c) + [a.data] else Accepted(calls, c)
    ensures Errors(calls + [a]) == Errors(calls) + if a.error then 1 else 0
  {
    assert (calls + [a])[..|calls|] == calls;
  }

  lemma HasDataStep(calls: seq<Call>, a: Call, msg: bytes)
    requires HasData(calls, msg) || a.data == msg
    ensures HasData(calls + [a], msg)
  {
    if a.data == msg {
      assert (calls + [a])[|calls|] == a;
    } else {
      var j :| 0 <= j < |calls| && calls[j].data == msg;
      assert (calls + [a])[j].data == msg;
    }
  }

  lemma TruthfulStep(h: seq<Attempt>, calls: seq<Call>, a: Attempt)
    requires Truthful(h, calls) && FromCalls(h, calls) && WithinMessages(h) && a.written <= |a.msg|
    ensures var more := calls + [Call(a.msg, Whole(a), a.conn, false)]; Truthful(h + [a], more) && FromCalls(h + [a], more)
  {
    var x := Call(a.msg, Whole(a), a.conn, false);
    forall c ensures Delivered(h + [a], c) == Accepted(calls + [x], c) {
      HistoryStep(h, a, c);
      CallStep(calls, x, c);
    }
    forall i | 0 <= i < |h| + 1 ensures HasData(calls + [x], (h + [a])[i].msg) {
      HasDataStep(calls, x, (h + [a])[i].msg);
    }
  }

  lemma RefusalIsTruthful(h: seq<Attempt>, calls: seq<Call>, data: bytes, error: bool)
    requires Truthful(h, calls) && FromCalls(h, calls)
    ensures var more := calls + [Call(data, false, 0, error)]; Truthful(h, more) && FromCalls(h, more)
  {
    var x := Call(data, false, 0, error);
    forall c ensures Delivered(h, c) == Accepted(calls + [x], c) {
      CallStep(calls, x, c);
    }
    forall i | 0 <= i < |h| ensures HasData(calls + [x], h[i].msg) {
      HasDataStep(calls, x, h[i].msg);
    }
  }

  // ----- The operating system.

  /** A descriptor: none, a socket that is not connected, or the one of a connection. */
  datatype Handle = Invalid | Unconnected | Connection(id: nat)

  /** What the operating system answered: to socket(), connect(), the query of SO_ERROR and send(). */
  datatype Answer = Socket(granted: bool) | Connected(accepted: bool) | Error(code: int) | Taken(n: int)

  predicate Refused(a: Answer) {
    match a
    case Socket(granted) => !granted
    case Connected(accepted) => !accepted
    case Error(code) => code != 0
    case Taken(n) => n <= 0
  }

  /** Some answers in a row: none refuses when all went well; otherwise the last one refuses and no other does. */
  ghost predicate Outcome(news: seq<Answer>, ok: bool) {
    && (forall i :: 0 <= i < |news| - 1 ==> !Refused(news[i]))
    && if ok then news == [] || !Refused(news[|news| - 1]) else news != [] && Refused(news[|news| - 1])
  }

  lemma OutcomeThen(first: seq<Answer>, second: seq<Answer>, ok: bool)
    requires Outcome(first, true) && Outcome(second, ok)
    ensures Outcome(first + second, ok)
  {
    var all := first + second;
    assert forall i :: 0 <= i < |first| ==> all[i] == first[i];
    assert forall i :: 0 <= i < |second| ==> all[|first| + i] == second[i];
  }

  /** What is asked after an answer: connecting follows a socket, writing a connection that is in order. */
  predicate Follows(a: Answer, b: Answer) {
    match a
    case Socket(granted) => if granted then b.Connected? else b.Socket?
    case Connected(accepted) => if accepted then b.Taken? else b.Socket?
    case Error(code) => if code == 0 then b.Taken? else b.Socket?
    case Taken(n) => if n > 0 then b.Taken? else b.Error?
  }

  ghost predicate Orderly(news: seq<Answer>) {
    forall i :: 0 <= i < |news| - 1 ==> Follows(news[i], news[i + 1])
  }

  lemma OrderlyThen(first: seq<Answer>, second: seq<Answer>)
    requires Orderly(first) && Orderly(second)
    requires first != [] && second != [] ==> Follows(first[|first| - 1], second[0])
    ensures Orderly(first + second)
  {
    var all := first + second;
    assert forall i :: 0 <= i < |first| ==> all[i] == first[i];
    assert forall i :: 0 <= i < |second| ==> all[|first| + i] == second[i];
  }

  /** The answers that came after `was`. */
  ghost function Since(was: seq<Answer>, now: seq<Answer>): seq<Answer>
    requires was <= now
  {
    now[|was|..]
  }

  class Kernel {
    /** The bytes accepted so far on each connection ever made. */
    var streams: seq<bytes>
    /** The number of descriptors granted and not closed. */
    var open: int
    /** Every answer given so far. */
    ghost var answers: seq<Answer>

    constructor ()
      ensures streams == [] && open == 0 && answers == []
    {
      streams, open, answers := [], 0, [];
    }

    method OpenSocket() returns (h: Handle)
      modifies this`open, this`answers
      ensures h.Invalid? || h.Unconnected?
      ensures answers == old(answers) + [Socket(h.Unconnected?)]
      ensures open == old(open) + if h.Invalid? then 0 else 1
    {
      var granted: bool := *;
      h := Invalid;
      if granted {
        h, open := Unconnected, open + 1;
      }
      answers := answers + [Socket(granted)];
    }

    method Close(h: Handle)
      modifies this`open
      ensures open == old(open) - if h.Invalid? then 0 else 1
    {
      if !h.Invalid? {
        open := open - 1;
      }
    }

    /** Without a socket there is nothing to ask. */
    method Connect(h: Handle) returns (ok: bool, r: Handle)
      modifies this`streams, this`answers
      ensures answers == old(answers) + if h.Unconnected? then [Connected(ok)] else []
      ensures ok ==> h.Unconnected? && r == Connection(|old(streams)|) && streams == old(streams) + [[]]
      ensures !ok ==> r == h && streams == old(streams)
    {
      var accepted: bool := *;
      ok, r := false, h;
      if h.Unconnected? && accepted {
        r := Connection(|streams|);
        streams := streams + [[]];
        ok := true;
      }
      answers := answers + if h.Unconnected? then [Connected(ok)] else [];
    }

    method SocketError(h: Handle) returns (code: int)
      modifies this`answers
      ensures answers == old(answers) + [Error(code)]
    {
      code := *;
      answers := answers + [Error(code)];
    }

    /** Takes some beginning of the data, or none of it and answers 0 or an error. */
    method Send(c: nat, data: bytes) returns (n: int)
      requires c < |streams|
      modifies this`streams, this`answers
      ensures n <= |data| && answers == old(answers) + [Taken(n)]
      ensures streams == old(streams)[c := old(streams)[c] + data[..if n < 0 then 0 else n]]
    {
      n := *;
      if n > |data| { n := |data|; }
      streams := streams[c := streams[c] + data[..if n < 0 then 0 else n]];
      answers := answers + [Taken(n)];
    }

    /** Sends until everything is sent, nothing more is taken or an error occurs; it stops short for nothing else. */
    method WriteAll(c: nat, data: bytes) returns (total: nat)
      requires c < |streams|
      modifies this`streams, this`answers
      ensures total <= |data|
      ensures streams == old(streams)[c := old(streams)[c] + data[..total]]
      ensures old(answers) <= answers && forall i :: |old(answers)| <= i < |answers| ==> answers[i].Taken?
      ensures Outcome(Since(old(answers), answers), total == |data|) && Orderly(Since(old(answers), answers))
    {
      total := 0;
      ghost var before := streams;
      AppendChunk(before, c, data, 0, 0);
      var more := true;
      while more
        invariant total <= |data|
        invariant streams == before[c := before[c] + data[..total]]
        invariant old(answers) <= answers && forall i :: |old(answers)| <= i < |answers| ==> answers[i].Taken?
        invariant more ==> total < |data| || total == 0
        invariant Outcome(Since(old(answers), answers), more || total == |data|)
        decreases more, |data| - total
      {
        var sent := 0;
        if total < |data| {
          sent := Send(c, data[total..]);
          AppendChunk(before, c, data, total, if sent < 0 then 0 else sent);
        }
        if sent > 0 {
          total := total + sent;
        }
        more := sent > 0 && total < |data|;
      }
    }

    static lemma AppendChunk(s: seq<bytes>, c: nat, data: bytes, n: nat, k: nat)
      requires c < |s| && n + k <= |data|
      ensures var t := s[c := s[c] + data[..n]];
        t[c := t[c] + data[n..][..k]] == s[c := s[c] + data[..n + k]]
      ensures s[c := s[c] + data[..0]] == s
    {
      assert data[..n] + data[n..][..k] == data[..n + k];
      assert s[c] + data[..n] + data[n..][..k] == s[c] + data[..n + k];
      assert s[c] + data[..0] == s[c];
    }
  }

  // ----- The transport.

  class UnixDomainSocketDataTransport {
    const kernel: Kernel
    var connected: bool
    var socket: Handle
    ghost var history: seq<Attempt>
    ghost var calls: seq<Call>

    /**
     Descriptors are accounted for: the one of the open connection, and one for every call that
     gave up because of a socket error, which are never closed.
     */
    ghost predicate Valid()
      reads this, kernel
    {
      && kernel.open == Errors(calls) + (if connected then 1 else 0)
      && Disciplined(history) && Kept(kernel.streams, history) && Truthful(history, calls) && FromCalls(history, calls)
      && (connected ==> socket.Connection? && socket.id < |kernel.streams| && Clean(history, socket.id))
    }

    constructor (k: Kernel)
      requires k.streams == [] && k.open == 0
      ensures Valid() && kernel == k && history == [] && calls == [] && !connected
    {
      kernel := k;
      connected := false;
      socket := Invalid;
      history := [];
      calls := [];
    }

    /** A socket and a connection, both granted; or the refusal of one of them, the last answer of all. */
    static ghost function ConnectAnswers(answers: seq<Answer>, ok: bool): seq<Answer> {
      if ok then [Socket(true), Connected(true)]
      else if answers != [] && answers[|answers| - 1].Connected? then [Socket(true), Connected(false)]
      else [Socket(false)]
    }

    method Connect() returns (ok: bool)
      requires Valid()
      modifies this, kernel
      ensures Valid() && history == old(history) && calls == old(calls) && ok == connected
      ensures old(connected) ==> connected && socket == old(socket)
      ensures !old(connected) && connected ==> socket == Connection(|old(kernel.streams)|)
      ensures kernel.answers == old(kernel.answers) + if old(connected) then [] else ConnectAnswers(kernel.answers, ok)
    {
      if !connected {
        socket := kernel.OpenSocket();
        connected, socket := kernel.Connect(socket);
        if connected {
          UnusedStreamIsEmpty(history, socket.id);
        } else {
          kernel.Close(socket);
          socket := Invalid;
        }
      }
      return connected;
    }

    /** The connection a message sent now would be written to: the open one, or else a new one. */
    ghost function Target(): nat
      reads this, kernel
    {
      if connected && socket.Connection? then socket.id else |kernel.streams|
    }

    /**
     True means this one message was written whole, now, on the current connection; false means it
     was cut short there and the connection is given up, or nothing was written at all. It is true if
     and only if the operating system refused nothing that it was asked on the way, and the first
     refusal is the last thing asked.
     */
    method Send(data: bytes) returns (ok: bool)
      requires Valid()
      modifies this, kernel
      ensures Valid() && |calls| == |old(calls)| + 1
      ensures calls == old(calls) + [Call(data, ok, calls[|old(calls)|].conn, calls[|old(calls)|].error)]
      ensures old(kernel.answers) < kernel.answers && Outcome(Since(old(kernel.answers), kernel.answers), ok)
      ensures Orderly(Since(old(kernel.answers), kernel.answers))
      ensures if old(connected) then kernel.answers[|old(kernel.answers)|].Error? else kernel.answers[|old(kernel.answers)|].Socket?
      ensures calls[|old(calls)|].error <==> !ok && kernel.answers[|kernel.answers| - 1].Error?
      ensures calls[|old(calls)|].error ==> !ok && socket == old(socket) && kernel.open == old(kernel.open)
      ensures !calls[|old(calls)|].error && !ok ==> kernel.open == old(kernel.open) - if old(connected) then 1 else 0
      ensures ok ==> connected && socket.id == old(Target()) == calls[|old(calls)|].conn
      ensures ok ==> history == old(history) + [Attempt(old(Target()), data, |data|)]
      ensures !ok ==> !connected && (history == old(history) || CutShortBy(old(history), history, old(Target()), data))
    {
      var ready := Prepare();
      if !ready {
        GiveUp(data, connected);
        return false;
      }
      ghost var asked := kernel.answers;
      ghost var written;
      ok, written := TryToWrite(data);
      AnswersThen(old(kernel.answers), asked, kernel.answers, ok);
      assert !ok ==> CutShortBy(old(history), history, old(Target()), data) by {
        assert history == old(history) + [Attempt(old(Target()), data, written)];
      }
    }

    static lemma AnswersThen(was: seq<Answer>, mid: seq<Answer>, now: seq<Answer>, ok: bool)
      requires was < mid <= now && Outcome(Since(was, mid), true) && Outcome(Since(mid, now), ok)
      requires Orderly(Since(was, mid)) && Orderly(Since(mid, now)) && forall i :: |mid| <= i < |now| ==> now[i].Taken?
      requires mid[|mid| - 1].Error? || mid[|mid| - 1].Connected?
      ensures was < now && now[|was|] == mid[|was|] && Outcome(Since(was, now), ok) && Orderly(Since(was, now))
    {
      OrderlyThen(Since(was, mid), Since(mid, now));
      OutcomeThen(Since(was, mid), Since(mid, now), ok);
      assert Since(was, mid) + Since(mid, now) == Since(was, now);
    }

    /** Asks the open socket for an error, or else connects; not ready though connected means an error. */
    method Prepare() returns (ready: bool)
      requires Valid()
      modifies this, kernel
      ensures Valid() && history == old(history) && calls == old(calls) && (ready ==> connected)
      ensures old(kernel.answers) < kernel.answers && Outcome(Since(old(kernel.answers), kernel.answers), ready)
      ensures Orderly(Since(old(kernel.answers), kernel.answers))
      ensures ready ==> kernel.answers[|kernel.answers| - 1].Error? || kernel.answers[|kernel.answers| - 1].Connected?
      ensures if old(connected) then kernel.answers == old(kernel.answers) + [kernel.answers[|old(kernel.answers)|]]
                && kernel.answers[|old(kernel.answers)|].Error? && socket == old(socket) && connected
              else kernel.answers[|old(kernel.answers)|].Socket? && !kernel.answers[|kernel.answers| - 1].Error? && ready == connected
      ensures kernel.open == old(kernel.open) + if !old(connected) && ready then 1 else 0
      ensures connected ==> socket.id == old(Target())
    {
      var errorCode := 0;
      if connected {
        errorCode := kernel.SocketError(socket);
      } else {
        var _ := Connect();
      }
      ready := connected && errorCode == 0;
    }

    /** Nothing is written; a socket that reported an error is left behind, not closed. */
    method GiveUp(data: bytes, error: bool)
      requires Valid() && error == connected
      modifies this`connected, this`calls
      ensures Valid() && !connected && calls == old(calls) + [Call(data, false, 0, error)]
    {
      connected := false;
      RefusalIsTruthful(history, calls, data, error);
      CallStep(calls, Call(data, false, 0, error), 0);
      calls := calls + [Call(data, false, 0, error)];
    }

    method TryToWrite(data: bytes) returns (ok: bool, ghost written: nat)
      requires Valid() && connected
      modifies this, kernel`streams, kernel`open, kernel`answers
      ensures Valid() && ok == connected && (ok ==> socket == old(socket))
      ensures calls == old(calls) + [Call(data, ok, old(socket.id), false)]
      ensures written <= |data| && (ok <==> written == |data|)
      ensures history == old(history) + [Attempt(old(socket.id), data, written)]
      ensures old(kernel.answers) <= kernel.answers && Outcome(Since(old(kernel.answers), kernel.answers), ok)
      ensures forall i :: |old(kernel.answers)| <= i < |kernel.answers| ==> kernel.answers[i].Taken?
      ensures Orderly(Since(old(kernel.answers), kernel.answers))
    {
      var sent := kernel.WriteAll(socket.id, data);
      written := sent;
      AttemptStep(old(kernel.streams), history, calls, Attempt(socket.id, data, sent));
      history, calls := history + [Attempt(socket.id, data, sent)], calls + [Call(data, sent == |data|, socket.id, false)];
      ok := sent == |data|;
      if !ok {
        var _ := Disconnect();
      }
    }

    static lemma AttemptStep(streams: seq<bytes>, h: seq<Attempt>, calls: seq<Call>, a: Attempt)
      requires Kept(streams, h) && Disciplined(h) && Truthful(h, calls) && FromCalls(h, calls)
      requires a.conn < |streams| && a.written <= |a.msg| && Clean(h, a.conn)
      ensures var h', calls' := h + [a], calls + [Call(a.msg, Whole(a), a.conn, false)];
        && Kept(streams[a.conn := streams[a.conn] + a.msg[..a.written]], h')
        && Disciplined(h') && Truthful(h', calls') && FromCalls(h', calls')
        && (Whole(a) ==> Clean(h', a.conn)) && Errors(calls') == Errors(calls)
    {
      StreamsStep(streams, h, a);
      DisciplineStep(h, a);
      TruthfulStep(h, calls, a);
      CallStep(calls, Call(a.msg, Whole(a), a.conn, false), 0);
    }

    method Disconnect() returns (ok: bool)
      requires connected ==> !socket.Invalid?
      modifies this, kernel`open
      ensures kernel.open == old(kernel.open) - if old(connected) then 1 else 0
      ensures !connected && history == old(history) && calls == old(calls) && ok == old(connected)
    {
      if connected {
        connected := false;
        if !socket.Invalid? {
          kernel.Close(socket);
          socket := Invalid;
          return true;
        }
      }
      return false;
    }

    /** What the peer of each connection sees, at any time in any run. */
    lemma Framing(c: nat)
      requires Valid() && AllFrames(history) && c < |kernel.streams|
      ensures SplitFrames(kernel.streams[c]).0 == Delivered(history, c) == Accepted(calls, c)
      ensures CutOn(history, c, SplitFrames(kernel.streams[c]).1)
      ensures connected && c == socket.id ==> SplitFrames(kernel.streams[c]).1 == []
    {
      WholeRunFraming(history, c);
    }
  }
}
