/**
 The Fluentd trace exporter over a stream socket: one message for the spans, one for every event
 name, each sent on a connection of its own with a bounded number of retries.
 */
module FluentdExporter {
  import opened Wrappers
  import opened Bytes
  import opened GenevaTransport
  import opened EventGroups

  datatype Options = Options(retryCount: nat, convertEventToTrace: bool)

  // ----- What was sent, and how it lies in the streams.

  /** All messages written whole, on whatever connection, in order. */
  ghost function WholeMessages(h: seq<Attempt>): seq<bytes> {
    if h == [] then [] else
    WholeMessages(h[..|h| - 1]) + if Whole(h[|h| - 1]) then [h[|h| - 1].msg] else []
  }

  /** Nothing follows a whole message on its connection. */
  ghost predicate WholeIsLast(h: seq<Attempt>) {
    forall i, j :: 0 <= i < j < |h| && h[i].conn == h[j].conn ==> !Whole(h[i])
  }

  ghost predicate NoneWhole(h: seq<Attempt>, c: nat) {
    forall i :: 0 <= i < |h| && h[i].conn == c ==> !Whole(h[i])
  }

  /** From `was` on only this packet was tried, and it was written whole by the last try or never. */
  ghost predicate Tried(was: seq<Attempt>, h: seq<Attempt>, packet: bytes, ok: bool) {
    && |was| <= |h| && h[..|was|] == was
    && (ok ==> |was| < |h|)
    && forall i :: |was| <= i < |h| ==> h[i].msg == packet && (Whole(h[i]) <==> ok && i == |h| - 1)
  }

  lemma WholeIsLastStep(h: seq<Attempt>, a: Attempt)
    requires WholeIsLast(h) && NoneWhole(h, a.conn)
    ensures WholeIsLast(h + [a])
    ensures !Whole(a) ==> NoneWhole(h + [a], a.conn)
  {
    var g := h + [a];
    assert forall i :: 0 <= i < |h| ==> g[i] == h[i];
    assert g[|h|] == a;
  }

  lemma TriedStep(was: seq<Attempt>, h: seq<Attempt>, a: Attempt, packet: bytes)
    requires Tried(was, h, packet, false) && a.msg == packet
    ensures Tried(was, h + [a], packet, Whole(a))
  {
    var g := h + [a];
    assert g[..|was|] == h[..|was|];
    assert forall i :: 0 <= i < |h| ==> g[i] == h[i];
  }

  lemma {:induction false} WholeMessagesOfTries(was: seq<Attempt>, h: seq<Attempt>, packet: bytes, ok: bool)
    requires Tried(was, h, packet, ok)
    ensures WholeMessages(h) == WholeMessages(was) + if ok then [packet] else []
    decreases |h|
  {
    if |h| == |was| {
      assert h == was;
    } else {
      assert h[..|h| - 1][..|was|] == was;
      WholeMessagesOfTries(was, h[..|h| - 1], packet, false);
    }
  }

  ghost predicate OnlyEmptyCuts(h: seq<Attempt>, c: nat) {
    forall i :: 0 <= i < |h| && h[i].conn == c && !Whole(h[i]) ==> h[i].written == 0
  }

  lemma {:induction false} CutsOnly(h: seq<Attempt>, c: nat)
    requires WithinMessages(h) && NoneWhole(h, c)
    ensures Delivered(h, c) == [] && (StreamOf(h, c) == [] <==> OnlyEmptyCuts(h, c))
  {
    if h == [] {
    } else {
      CutsOnly(h[..|h| - 1], c);
      assert h == h[..|h| - 1] + [h[|h| - 1]];
    }
  }

  ghost predicate EndsWith(s: bytes, p: bytes) { |p| <= |s| && s[|s| - |p|..] == p }

  /**
   A connection carries at most one whole message and it ends the stream. The message is all there
   is in the stream if and only if every earlier try on that connection wrote nothing: the retries
   after a partial write repeat the message behind the part that is there already.
   */
  lemma {:induction false} MessageEndsItsStream(h: seq<Attempt>, c: nat)
    requires WithinMessages(h) && WholeIsLast(h)
    ensures |Delivered(h, c)| <= 1
    ensures Delivered(h, c) != [] ==> EndsWith(StreamOf(h, c), Delivered(h, c)[0])
    ensures Delivered(h, c) != [] ==> (StreamOf(h, c) == Delivered(h, c)[0] <==> OnlyEmptyCuts(h, c))
  {
    if h == [] {
    } else {
      var n := |h| - 1;
      var before, a := h[..n], h[n];
      assert h == before + [a];
      if a.conn == c {
        assert NoneWhole(before, c);
        CutsOnly(before, c);
        var s := StreamOf(before, c);
        HistoryStep(before, a, c);
        if Whole(a) {
          assert (s + a.msg)[|s|..] == a.msg;
          assert OnlyEmptyCuts(h, c) <==> OnlyEmptyCuts(before, c);
          assert s + a.msg == a.msg ==> s == [];
        }
      } else {
        MessageEndsItsStream(before, c);
        HistoryStep(before, a, c);
        assert OnlyEmptyCuts(h, c) <==> OnlyEmptyCuts(before, c);
      }
    }
  }

  /** A try that was cut short and the retry behind it: the stream is not the message. */
  lemma RetryRepeatsTheBeginning(p: bytes, k: nat)
    requires 0 < k < |p|
    ensures var h := [Attempt(0, p, k), Attempt(0, p, |p|)];
      && WithinMessages(h) && WholeIsLast(h) && Tried([], h, p, true)
      && Delivered(h, 0) == [p] && StreamOf(h, 0) == p[..k] + p != p
  {
    var a, b := Attempt(0, p, k), Attempt(0, p, |p|);
    CutTry(a);
    HistoryStep([a], b, 0);
    assert [a] + [b] == [a, b];
    assert [a, b][..0] == [];
    assert |p[..k] + p| > |p|;
  }

  lemma CutTry(a: Attempt)
    requires a.conn == 0 && a.written < |a.msg|
    ensures StreamOf([a], 0) == a.msg[..a.written] && Delivered([a], 0) == []
  {
    HistoryStep([], a, 0);
    assert [] + [a] == [a];
  }

  // ----- The exporter.

  function Packed(ms: seq<Message>, pack: Message -> bytes): (r: seq<bytes>)
    ensures |r| == |ms| && forall i :: 0 <= i < |ms| ==> r[i] == pack(ms[i])
  {
    seq(|ms|, i requires 0 <= i < |ms| => pack(ms[i]))
  }

  /** Exactly these messages, packed, were written whole after `was`. */
  ghost predicate SentAfter(was: seq<Attempt>, h: seq<Attempt>, ms: seq<Message>, pack: Message -> bytes) {
    WholeMessages(h) == WholeMessages(was) + Packed(ms, pack)
  }

  lemma SentOneMore(was: seq<Attempt>, mid: seq<Attempt>, h: seq<Attempt>, ms: seq<Message>, k: nat, pack: Message -> bytes, ok: bool)
    requires k < |ms| && SentAfter(was, mid, ms[..k], pack) && Tried(mid, h, pack(ms[k]), ok)
    ensures SentAfter(was, h, if ok then ms[..k + 1] else ms[..k], pack)
  {
    WholeMessagesOfTries(mid, h, pack(ms[k]), ok);
    assert Packed(ms[..k + 1], pack) == Packed(ms[..k], pack) + [pack(ms[k])];
  }

  /** The first n messages were sent, and all of them on success only. */
  ghost predicate Sent(was: seq<Attempt>, h: seq<Attempt>, ms: seq<Message>, n: nat, pack: Message -> bytes, success: bool) {
    n <= |ms| && SentAfter(was, h, ms[..n], pack) && (success <==> n == |ms|)
  }

  /** The span records, then the event groups if they are wanted. */
  ghost predicate Planned(ms: seq<Message>, spans: seq<Option<Span>>, convertEventToTrace: bool) {
    && |ms| > 0 && ms[0] == Message("Span", Records(spans))
    && if convertEventToTrace then MessagesFor(ms[1..], AllEvents(spans)) else |ms| == 1
  }

  ghost function Prepended(m: Message, ms: seq<Message>): (r: seq<Message>)
    ensures |r| == |ms| + 1 && r[0] == m && r[1..] == ms
  {
    [m] + ms
  }

  lemma SentFirst(was: seq<Attempt>, h: seq<Attempt>, m: Message, pack: Message -> bytes, ok: bool)
    requires Tried(was, h, pack(m), ok)
    ensures Sent(was, h, [m], if ok then 1 else 0, pack, ok)
  {
    SentOneMore(was, was, h, [m], 0, pack, ok);
  }

  lemma NoneSent(was: seq<Attempt>, h: seq<Attempt>, m: Message, ms: seq<Message>, pack: Message -> bytes)
    requires Sent(was, h, [m], 0, pack, false)
    ensures Sent(was, h, Prepended(m, ms), 0, pack, false)
  {
    assert Prepended(m, ms)[..0] == [m][..0];
  }

  lemma SentMore(was: seq<Attempt>, mid: seq<Attempt>, h: seq<Attempt>, m: Message, ms: seq<Message>, k: nat, pack: Message -> bytes, ok: bool)
    requires Sent(was, mid, [m], 1, pack, true) && Sent(mid, h, ms, k, pack, ok)
    ensures Sent(was, h, Prepended(m, ms), k + 1, pack, ok)
  {
    assert [m][..1] == [m];
    PackedPrepended(m, ms, k, pack);
  }

  lemma PackedPrepended(m: Message, ms: seq<Message>, k: nat, pack: Message -> bytes)
    requires k <= |ms|
    ensures Packed(Prepended(m, ms)[..k + 1], pack) == Packed([m], pack) + Packed(ms[..k], pack)
  {
    assert Prepended(m, ms) == [m] + ms;
  }

  // ----- Failing rounds.

  /** The answer ends a round without success: no socket, no connection, or nothing more taken. */
  predicate EndsRound(a: Answer) {
    match a
    case Socket(granted) => !granted
    case Connected(accepted) => !accepted
    case Error(code) => false
    case Taken(n) => n <= 0
  }

  function FailedRounds(news: seq<Answer>): nat {
    if news == [] then 0
    else FailedRounds(news[..|news| - 1]) + if EndsRound(news[|news| - 1]) then 1 else 0
  }

  lemma {:induction false} FailedRoundsThen(a: seq<Answer>, b: seq<Answer>)
    ensures FailedRounds(a + b) == FailedRounds(a) + FailedRounds(b)
  {
    if b == [] {
      assert a + b == a;
    } else {
      FailedRoundsThen(a, b[..|b| - 1]);
      assert (a + b)[..|a + b| - 1] == a + b[..|b| - 1];
    }
  }

  lemma {:induction false} NoFailedRound(news: seq<Answer>)
    requires forall i :: 0 <= i < |news| ==> !EndsRound(news[i])
    ensures FailedRounds(news) == 0
  {
    if news == [] {
    } else {
      NoFailedRound(news[..|news| - 1]);
    }
  }

  lemma FailedRoundsOfWriting(news: seq<Answer>, ok: bool)
    requires Outcome(news, ok) && forall i :: 0 <= i < |news| ==> news[i].Taken?
    ensures FailedRounds(news) == if ok then 0 else 1
  {
    if !ok {
      NoFailedRound(news[..|news| - 1]);
    } else {
      NoFailedRound(news);
    }
  }

  /** Rounds that all failed; the connection is what the last answer leaves. */
  ghost predicate Failing(news: seq<Answer>, rounds: nat, before: bool, connected: bool) {
    && Orderly(news) && FailedRounds(news) == rounds
    && if news == [] then connected == before
       else StartsFrom(news, before) && EndsRound(news[|news| - 1]) && (news[|news| - 1].Taken? <==> connected)
  }

  /** An open connection is asked for its error first; without one a socket is asked for. */
  predicate StartsFrom(news: seq<Answer>, connected: bool) {
    news != [] && if connected then news[0].Error? else news[0].Socket?
  }

  /** A connection was reached, or the round has failed. */
  ghost predicate Reaching(news: seq<Answer>, before: bool, reached: bool) {
    && Orderly(news) && StartsFrom(news, before) && FailedRounds(news) == (if reached then 0 else 1)
    && var last := news[|news| - 1];
    && !last.Taken? && (EndsRound(last) <==> !reached) && (reached ==> last == Error(0) || last == Connected(true))
  }

  /** One round: a connection, if there is none in order, and a try; `connected` is what it leaves. */
  ghost predicate RoundOf(news: seq<Answer>, before: bool, ok: bool, connected: bool) {
    && Orderly(news) && StartsFrom(news, before) && FailedRounds(news) == (if ok then 0 else 1)
    && if ok then !connected else EndsRound(news[|news| - 1]) && (news[|news| - 1].Taken? <==> connected)
  }

  lemma RoundWithWriting(b: seq<Answer>, c: seq<Answer>, before: bool, ok: bool)
    requires Reaching(b, before, true)
    requires Orderly(c) && Outcome(c, ok) && forall i :: 0 <= i < |c| ==> c[i].Taken?
    ensures RoundOf(b + c, before, ok, !ok)
  {
    OrderlyThen(b, c);
    FailedRoundsThen(b, c);
    FailedRoundsOfWriting(c, ok);
  }

  lemma NextRound(was: seq<Answer>, start: seq<Answer>, now: seq<Answer>, rounds: nat, before: bool, open: bool, ok: bool, connected: bool)
    requires was <= start <= now && Failing(Since(was, start), rounds, before, open) && RoundOf(Since(start, now), open, ok, connected)
    ensures was <= now && Orderly(Since(was, now)) && StartsFrom(Since(was, now), before)
    ensures FailedRounds(Since(was, now)) == rounds + if ok then 0 else 1
    ensures !ok ==> Failing(Since(was, now), rounds + 1, before, connected)
  {
    var a, b := Since(was, start), Since(start, now);
    assert a + b == Since(was, now);
    OrderlyThen(a, b);
    FailedRoundsThen(a, b);
  }

  /** The answers to a whole Send: it fails exactly when as many rounds fail as there may be. */
  ghost predicate SendOf(news: seq<Answer>, rounds: nat, before: bool, ok: bool) {
    && Orderly(news) && (rounds > 0 ==> StartsFrom(news, before))
    && FailedRounds(news) <= rounds && (ok <==> FailedRounds(news) < rounds)
  }

  lemma RoundsUsedUp(news: seq<Answer>, rounds: nat, before: bool, connected: bool)
    requires Failing(news, rounds, before, connected)
    ensures SendOf(news, rounds, before, false)
  {
  }

  lemma RoundSucceeded(was: seq<Answer>, start: seq<Answer>, now: seq<Answer>, failed: nat, rounds: nat, before: bool, open: bool)
    requires was <= start <= now && Failing(Since(was, start), failed, before, open) && RoundOf(Since(start, now), open, true, false)
    requires failed < rounds
    ensures was <= now && SendOf(Since(was, now), rounds, before, true)
  {
    NextRound(was, start, now, failed, before, open, true, false);
  }

  lemma TriedAgain(was: seq<Attempt>, mid: seq<Attempt>, now: seq<Attempt>, packet: bytes, ok: bool)
    requires Tried(was, mid, packet, false) && Tried(mid, now, packet, ok)
    ensures Tried(was, now, packet, ok)
  {
    assert now[..|was|] == now[..|mid|][..|was|];
    forall i | |was| <= i < |now| ensures now[i].msg == packet && (Whole(now[i]) <==> ok && i == |now| - 1) {
      if i < |mid| { assert now[i] == now[..|mid|][i] == mid[i]; }
    }
  }

  // ----- Which messages were asked to be sent.

  datatype Request = Request(packet: bytes, ok: bool)

  /** The first n messages were sent and, on failure, the next one was tried in vain; nothing else was asked for. */
  ghost predicate Asked(was: seq<Request>, now: seq<Request>, ms: seq<Message>, n: nat, pack: Message -> bytes, success: bool) {
    && was <= now && n <= |ms| && (success <==> n == |ms|)
    && |now| == |was| + n + (if success then 0 else 1)
    && forall i :: 0 <= i < |now| - |was| ==> now[|was| + i] == Request(pack(ms[i]), i < n)
  }

  /** The first k messages were asked for, one by one, with success. */
  ghost predicate AskedFirst(was: seq<Request>, now: seq<Request>, ms: seq<Message>, k: nat, pack: Message -> bytes) {
    && was <= now && k <= |ms| && |now| == |was| + k
    && forall i :: 0 <= i < k ==> now[|was| + i] == Request(pack(ms[i]), true)
  }

  lemma AskedNext(was: seq<Request>, mid: seq<Request>, ms: seq<Message>, k: nat, pack: Message -> bytes, ok: bool)
    requires AskedFirst(was, mid, ms, k, pack) && k < |ms|
    ensures var now := mid + [Request(pack(ms[k]), ok)];
      if ok then AskedFirst(was, now, ms, k + 1, pack) else Asked(was, now, ms, k, pack, false)
  {
  }

  lemma AskedNone(was: seq<Request>, m: Message, ms: seq<Message>, pack: Message -> bytes)
    ensures Asked(was, was + [Request(pack(m), false)], Prepended(m, ms), 0, pack, false)
    ensures Asked(was, was + [Request(pack(m), true)], [m], 1, pack, true)
  {
  }

  lemma AskedMore(was: seq<Request>, mid: seq<Request>, now: seq<Request>, m: Message, ms: seq<Message>, k: nat, pack: Message -> bytes, ok: bool)
    requires Asked(was, mid, [m], 1, pack, true) && Asked(mid, now, ms, k, pack, ok)
    ensures Asked(was, now, Prepended(m, ms), k + 1, pack, ok)
  {
    var all := Prepended(m, ms);
    assert forall i :: 0 <= i < |ms| ==> all[i + 1] == all[1..][i];
    forall i | 0 <= i < |now| - |was| ensures now[|was| + i] == Request(pack(all[i]), i < k + 1) {
      if i > 0 { assert now[|mid| + (i - 1)] == Request(pack(ms[i - 1]), i - 1 < k); }
    }
  }

  class FluentdExporter {
    const kernel: Kernel
    const options: Options
    /** The MessagePack encoding. */
    const pack: Message -> bytes
    var connected: bool
    var socket: Handle
    var isShutdown: bool
    ghost var history: seq<Attempt>
    ghost var requests: seq<Request>

    ghost predicate Valid()
      reads this, kernel
    {
      && Kept(kernel.streams, history) && WholeIsLast(history)
      && (connected ==> socket.Connection? && socket.id < |kernel.streams| && NoneWhole(history, socket.id))
    }

    constructor (k: Kernel, o: Options, p: Message -> bytes)
      requires k.streams == []
      ensures Valid() && kernel == k && options == o && pack == p
      ensures history == [] && requests == [] && !connected && !isShutdown
    {
      kernel, options, pack := k, o, p;
      connected, socket, isShutdown := false, Invalid, false;
      history, requests := [], [];
    }

    method Connect() returns (ok: bool)
      requires Valid()
      modifies this`connected, this`socket, kernel
      ensures Valid() && ok == connected && (old(connected) ==> ok)
      ensures kernel.answers == old(kernel.answers)
        + if old(connected) then [] else UnixDomainSocketDataTransport.ConnectAnswers(kernel.answers, ok)
      ensures kernel.open == old(kernel.open) + if old(connected) || kernel.answers[|kernel.answers| - 1] == Socket(false) then 0 else 1
    {
      if !connected {
        socket := kernel.OpenSocket();
        connected, socket := kernel.Connect(socket);
        if connected {
          UnusedStreamIsEmpty(history, socket.id);
        }
      }
      return connected;
    }

    method Disconnect() returns (ok: bool)
      requires connected ==> !socket.Invalid?
      modifies this`connected, this`socket, kernel`open
      ensures !connected && ok == old(connected)
      ensures kernel.open == old(kernel.open) - if old(connected) then 1 else 0
    {
      if connected {
        connected := false;
        if !socket.Invalid? {
          kernel.Close(socket);
          socket := Invalid;
          return true;
        }
      }
      return false;
    }

    /** One try on the open connection. */
    method Try(packet: bytes) returns (sent: nat)
      requires Valid() && connected
      modifies this`connected, this`socket, this`history, kernel
      ensures Valid() && sent <= |packet|
      ensures history == old(history) + [Attempt(old(socket.id), packet, sent)]
      ensures connected <==> sent < |packet|
      ensures old(kernel.answers) <= kernel.answers
      ensures var news := Since(old(kernel.answers), kernel.answers);
        Orderly(news) && Outcome(news, sent == |packet|) && forall i :: 0 <= i < |news| ==> news[i].Taken?
    {
      sent := kernel.WriteAll(socket.id, packet);
      ghost var a := Attempt(socket.id, packet, sent);
      StreamsStep(old(kernel.streams), history, a);
      WholeIsLastStep(history, a);
      history := history + [a];
      if sent == |packet| {
        var _ := Disconnect();
      }
    }

    /** Asks the open connection for an error and connects when there is one, or no connection. */
    method Reach() returns (reached: bool)
      requires Valid()
      modifies this`connected, this`socket, kernel
      ensures Valid() && reached == connected
      ensures old(kernel.answers) <= kernel.answers
      ensures Reaching(Since(old(kernel.answers), kernel.answers), old(connected), reached)
    {
      var errorCode := 0;
      ghost var was := kernel.answers;
      if connected {
        errorCode := kernel.SocketError(socket);
        if errorCode != 0 {
          connected := false;
        }
      }
      ghost var asked := Since(was, kernel.answers);
      ghost var tried := kernel.answers;
      ghost var again := !connected;
      reached := Connect();
      ReachingAnswers(asked, Since(tried, kernel.answers), old(connected), again, errorCode, kernel.answers, reached);
      assert asked + Since(tried, kernel.answers) == Since(was, kernel.answers);
    }

    static lemma ReachingAnswers(asked: seq<Answer>, news: seq<Answer>, before: bool, again: bool, code: int, all: seq<Answer>, reached: bool)
      requires asked == if before then [Error(code)] else []
      requires again <==> !before || code != 0
      requires news == if again then UnixDomainSocketDataTransport.ConnectAnswers(all, reached) else []
      requires !again ==> reached
      ensures Reaching(asked + news, before, reached)
    {
      FailedRoundsThen(asked, news);
      NoFailedRound(asked);
      if reached {
        NoFailedRound(news);
      } else {
        assert news[..|news| - 1] == [] || news[..|news| - 1] == [Socket(true)];
        NoFailedRound(news[..|news| - 1]);
      }
    }

    /**
     True if and only if the packet was written whole, once, by the last of the tries; false only when
     every round failed, each for want of a socket or a connection or because nothing more was taken.
     */
    method Send(packet: bytes) returns (ok: bool)
      requires Valid()
      modifies this`connected, this`socket, this`history, this`requests, kernel
      ensures Valid() && Tried(old(history), history, packet, ok)
      ensures |history| <= |old(history)| + options.retryCount
      ensures ok ==> !connected
      ensures requests == old(requests) + [Request(packet, ok)]
      ensures old(kernel.answers) <= kernel.answers
      ensures SendOf(Since(old(kernel.answers), kernel.answers), options.retryCount, old(connected), ok)
    {
      var retryCount := options.retryCount;
      ghost var was, before, failed := kernel.answers, connected, 0;
      while retryCount != 0
        invariant failed + retryCount == options.retryCount
        invariant Valid() && requests == old(requests)
        invariant Tried(old(history), history, packet, false) && |history| <= |old(history)| + failed
        invariant was <= kernel.answers && Failing(Since(was, kernel.answers), failed, before, connected)
        decreases retryCount
      {
        retryCount := retryCount - 1;
        ghost var h, start, open := history, kernel.answers, connected;
        ok := Round(packet);
        TriedAgain(old(history), h, history, packet, ok);
        if ok {
          RoundSucceeded(was, start, kernel.answers, failed, options.retryCount, before, open);
          requests := requests + [Request(packet, true)];
          return true;
        }
        NextRound(was, start, kernel.answers, failed, before, open, false, connected);
        failed := failed + 1;
      }
      RoundsUsedUp(Since(was, kernel.answers), failed, before, connected);
      requests := requests + [Request(packet, false)];
      return false;
    }

    method Round(packet: bytes) returns (ok: bool)
      requires Valid()
      modifies this`connected, this`socket, this`history, kernel
      ensures Valid() && Tried(old(history), history, packet, ok) && |history| <= |old(history)| + 1
      ensures old(kernel.answers) <= kernel.answers
      ensures RoundOf(Since(old(kernel.answers), kernel.answers), old(connected), ok, connected)
    {
      var reached := Reach();
      if !reached {
        return false;
      }
      ghost var mid := kernel.answers;
      var sentSize := Try(packet);
      ok := sentSize == |packet|;
      RoundWithWriting(Since(old(kernel.answers), mid), Since(mid, kernel.answers), old(connected), ok);
      assert Since(old(kernel.answers), mid) + Since(mid, kernel.answers) == Since(old(kernel.answers), kernel.answers);
      TriedStep(old(history), old(history), history[|old(history)|], packet);
    }

    /**
     Sends the span records and then, if asked to, the event groups. The messages written whole are
     the first n of those, in order, and all of them if and only if the export succeeds. The batch
     is consumed.
     */
    method Export(spans: array<Option<Span>>) returns (success: bool, ghost messages: seq<Message>, ghost n: nat)
      requires Valid()
      modifies this`connected, this`socket, this`history, this`requests, kernel, spans
      ensures Valid()
      ensures isShutdown || spans.Length == 0 ==>
        !success && history == old(history) && requests == old(requests) && spans[..] == old(spans[..])
      ensures !isShutdown && spans.Length > 0 ==> forall i :: 0 <= i < spans.Length ==> spans[i] == None
      ensures !isShutdown && spans.Length > 0 ==> Planned(messages, old(spans[..]), options.convertEventToTrace)
      ensures !isShutdown && spans.Length > 0 ==> Sent(old(history), history, messages, n, pack, success)
      ensures !isShutdown && spans.Length > 0 ==> Asked(old(requests), requests, messages, n, pack, success)
    {
      messages, n := [], 0;
      if isShutdown {
        return false, messages, n;
      }
      if spans.Length == 0 {
        return false, messages, n;
      }
      ghost var batch := spans[..];
      var records, groups := Regroup(spans);
      var groupMessages := [];
      if options.convertEventToTrace {
        groupMessages := GroupMessages(groups, AllEvents(batch));
      }
      messages := Prepended(Message(SPAN_TAG, records), groupMessages);
      success, n := Deliver(Message(SPAN_TAG, records), groupMessages);
    }

    /** The span records first; the groups only if those were sent. */
    method Deliver(first: Message, rest: seq<Message>) returns (success: bool, ghost n: nat)
      requires Valid()
      modifies this`connected, this`socket, this`history, this`requests, kernel
      ensures Valid() && Sent(old(history), history, Prepended(first, rest), n, pack, success)
      ensures Asked(old(requests), requests, Prepended(first, rest), n, pack, success)
    {
      n := 0;
      success := Send(pack(first));
      SentFirst(old(history), history, first, pack, success);
      AskedNone(old(requests), first, rest, pack);
      if !success {
        NoneSent(old(history), history, first, rest, pack);
        return;
      }
      ghost var mid, asked := history, requests;
      success, n := SendMessages(rest);
      SentMore(old(history), mid, history, first, rest, n, pack, success);
      AskedMore(old(requests), asked, requests, first, rest, n, pack, success);
      n := n + 1;
    }

    /** Sends messages until one fails. */
    method SendMessages(ms: seq<Message>) returns (success: bool, ghost n: nat)
      requires Valid()
      modifies this`connected, this`socket, this`history, this`requests, kernel
      ensures Valid() && Sent(old(history), history, ms, n, pack, success)
      ensures Asked(old(requests), requests, ms, n, pack, success)
    {
      n := 0;
      ghost var before := history;
      for i := 0 to |ms|
        invariant Valid() && n == i && SentAfter(before, history, ms[..i], pack)
        invariant AskedFirst(old(requests), requests, ms, i, pack)
      {
        ghost var mid := history;
        AskedNext(old(requests), requests, ms, i, pack, true);
        AskedNext(old(requests), requests, ms, i, pack, false);
        success := Send(pack(ms[i]));
        SentOneMore(before, mid, history, ms, i, pack, success);
        if !success {
          return false, n;
        }
        n := n + 1;
      }
      assert ms[..|ms|] == ms;
      return true, n;
    }

    /** Takes every span out of the batch, makes its record and files its stamped events by name. */
    method Regroup(spans: array<Option<Span>>) returns (records: seq<Entry>, groups: map<string, seq<Entry>>)
      modifies spans
      ensures forall i :: 0 <= i < spans.Length ==> spans[i] == None
      ensures records == Concat(RecordParts(old(spans[..])), spans.Length)
      ensures Grouped(groups, Concat(EventParts(old(spans[..])), spans.Length))
    {
      var batch := spans[..];
      records, groups := FileSpans(batch);
      for i := 0 to spans.Length
        invariant forall j :: 0 <= j < i ==> spans[j] == None
      {
        spans[i] := None;
      }
    }

    method FileSpans(batch: seq<Option<Span>>) returns (records: seq<Entry>, groups: map<string, seq<Entry>>)
      ensures records == Concat(RecordParts(batch), |batch|)
      ensures Grouped(groups, Concat(EventParts(batch), |batch|))
    {
      records, groups := [], map[];
      for i := 0 to |batch|
        invariant records == Concat(RecordParts(batch), i)
        invariant Grouped(groups, Concat(EventParts(batch), i))
      {
        records, groups := FileSpan(batch, i, records, groups);
      }
    }

    /** The records and groups of the first i spans, with those of the next one. */
    method FileSpan(batch: seq<Option<Span>>, i: nat, records: seq<Entry>, given: map<string, seq<Entry>>)
      returns (more: seq<Entry>, groups: map<string, seq<Entry>>)
      requires i < |batch| && records == Concat(RecordParts(batch), i) && Grouped(given, Concat(EventParts(batch), i))
      ensures more == Concat(RecordParts(batch), i + 1) && Grouped(groups, Concat(EventParts(batch), i + 1))
    {
      more, groups := records, given;
      ghost var es := Concat(EventParts(batch), i);
      assert Concat(EventParts(batch), i + 1) == es + EventsOf(batch[i]);
      if batch[i].Some? {
        more := more + [RecordOf(batch[i].value)];
        groups := FileEvents(batch[i].value, given, es);
      } else {
        assert es + [] == es;
      }
    }

    method FileEvents(span: Span, given: map<string, seq<Entry>>, ghost es: seq<Entry>) returns (groups: map<string, seq<Entry>>)
      requires Grouped(given, es)
      ensures Grouped(groups, es + EventsOf(Some(span)))
    {
      groups := given;
      assert es + StampedEvents(span, 0) == es;
      for j := 0 to |span.events|
        invariant Grouped(groups, es + StampedEvents(span, j))
      {
        var event := Stamped(span.events[j], span);
        GroupedStep(groups, es + StampedEvents(span, j), event);
        StampedStep(es, span, j);
        groups := FileEvent(event, groups);
      }
    }

    method FileEvent(event: Entry, given: map<string, seq<Entry>>) returns (groups: map<string, seq<Entry>>)
      ensures groups == Filed(given, event)
    {
      groups := given;
      var name := NameOf(event);
      if name !in groups {
        groups := groups[name := []];
      }
      groups := groups[name := groups[name] + [event]];
    }

    static lemma StampedStep(es: seq<Entry>, span: Span, j: nat)
      requires j < |span.events|
      ensures es + StampedEvents(span, j + 1) == es + StampedEvents(span, j) + [Stamped(span.events[j], span)]
    {
    }

    method Shutdown() returns (ok: bool)
      modifies this`isShutdown
      ensures ok && isShutdown
    {
      isShutdown := true;
      return true;
    }

    /** At any time: what the peer of a connection has received. */
    lemma Streams(c: nat)
      requires Valid() && c < |kernel.streams|
      ensures |Delivered(history, c)| <= 1
      ensures Delivered(history, c) != [] ==> EndsWith(kernel.streams[c], Delivered(history, c)[0])
      ensures Delivered(history, c) != [] ==> (kernel.streams[c] == Delivered(history, c)[0] <==> OnlyEmptyCuts(history, c))
    {
      MessageEndsItsStream(history, c);
    }
  }
}
