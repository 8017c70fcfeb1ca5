/**
 The webserver SDK's request lifecycle on one thread: the engine keeps a stack of open
 interactions per request, while every span object pushes a context on the thread's runtime
 stack when it is made and takes it off when it is destroyed. RuntimeContext is the SDK's
 stack whose Detach pops through the token, or does nothing when the token is not on it.
 */
module RequestLifecycle {
  import opened Wrappers

  // ----- The thread as a value.

  /** A context has an identity and the span that is active in it. */
  datatype Context = Context(id: nat, span: Option<nat>)

  const NO_CONTEXT := Context(0, None)

  datatype Status = Ok | Error | Unset

  datatype Start = Start(span: nat, parent: Option<nat>)

  /** The runtime stack (last is top), the next unused identity, and the log of what the tracer was told. */
  datatype World = World(stack: seq<Context>, next: nat, started: seq<Start>, ended: seq<nat>, status: map<nat, Status>)

  function Current(stack: seq<Context>): Context {
    if stack == [] then NO_CONTEXT else stack[|stack| - 1]
  }

  function Detached(stack: seq<Context>, token: Context): seq<Context> {
    if token !in stack then stack
    else if stack[|stack| - 1] == token then stack[..|stack| - 1]
    else Detached(stack[..|stack| - 1], token)
  }

  /** The context a span's scope attaches; it has the identity of its span. */
  function ScopeOf(span: nat): Context { Context(span, Some(span)) }

  function Scopes(spans: seq<nat>): (r: seq<Context>)
    ensures |r| == |spans|
    ensures forall i :: 0 <= i < |r| ==> r[i] == ScopeOf(spans[i])
  {
    seq(|spans|, i requires 0 <= i < |spans| => ScopeOf(spans[i]))
  }

  /** A request being served: the token of the extracted context, the root span, the open interactions. */
  datatype Request = Request(token: Context, root: nat, interactions: seq<nat>)

  function Max(a: nat, b: nat): nat { if a < b then b else a }

  function OpenSpan(w: World): World {
    w.(stack := w.stack + [ScopeOf(w.next)], next := w.next + 1,
       started := w.started + [Start(w.next, Current(w.stack).span)])
  }

  function CloseSpan(w: World, span: nat): World {
    w.(ended := w.ended + [span], stack := Detached(w.stack, ScopeOf(span)))
  }

  function Identities(c: Context): nat {
    Max(c.id + 1, match c.span case None => 0 case Some(s) => s + 1)
  }

  /** The propagator may hand back any context, new or known; identities made later differ from it. */
  function BeginRequest(w: World, extracted: Context): (World, Request) {
    var v := w.(stack := w.stack + [extracted], next := Max(w.next, Identities(extracted)));
    (OpenSpan(v), Request(extracted, v.next, []))
  }

  function BeginInteraction(w: World, r: Request): (World, Request) {
    (OpenSpan(w), r.(interactions := r.interactions + [w.next]))
  }

  function CodeStatus(code: int, server: bool): Status {
    if 100 <= code < 400 then Unset
    else if 400 <= code < 500 then if server then Unset else Error
    else Error
  }

  function FinishInteraction(w: World, r: Request, code: int, message: bool): (World, Request)
    requires r.interactions != []
  {
    var last := |r.interactions| - 1;
    var span := r.interactions[last];
    var status := if code != 0 && message then CodeStatus(code, false) else Ok;
    (CloseSpan(w.(status := w.status[span := status]), span), r.(interactions := r.interactions[..last]))
  }

  function Drain(w: World, interactions: seq<nat>): World
    decreases |interactions|
  {
    if interactions == [] then w
    else Drain(CloseSpan(w, interactions[|interactions| - 1]), interactions[..|interactions| - 1])
  }

  /**
   End of a request: open interactions are closed, the root gets its status, the extracted context
   is detached and the root span ended; then the server span is destroyed, which detaches the token
   once more and after it the scope of the root.
   */
  function FinishRequest(w: World, r: Request, error: Option<int>): World {
    var v := Drain(w, r.interactions);
    var status := match error case None => Ok case Some(code) => CodeStatus(code, true);
    var stack := Detached(Detached(Detached(v.stack, r.token), r.token), ScopeOf(r.root));
    v.(status := v.status[r.root := status], stack := stack, ended := v.ended + [r.root])
  }

  lemma {:induction false} DrainKeepsStatus(w: World, interactions: seq<nat>)
    ensures Drain(w, interactions).status == w.status
    decreases |interactions|
  {
    if interactions == [] {
    } else {
      DrainKeepsStatus(CloseSpan(w, interactions[|interactions| - 1]), interactions[..|interactions| - 1]);
    }
  }

  // ----- The same, in place.

  datatype ReturnCode = Success | HandleIsNull | PayloadIsNull | InvalidContext | Fail

  class RuntimeThread {
    var stack: seq<Context>
    var next: nat
    var started: seq<Start>
    var ended: seq<nat>
    var status: map<nat, Status>

    function View(): World
      reads this
    {
      World(stack, next, started, ended, status)
    }

    constructor ()
      ensures View() == World([], 1, [], [], map[])
    {
      stack, next, started, ended, status := [], 1, [], [], map[];
    }

    method Attach(c: Context)
      modifies this`stack
      ensures stack == old(stack) + [c]
    {
      stack := stack + [c];
    }

    method Detach(token: Context) returns (found: bool)
      modifies this`stack
      ensures stack == Detached(old(stack), token) && found == (token in old(stack))
    {
      if stack != [] && stack[|stack| - 1] == token {
        stack := stack[..|stack| - 1];
        return true;
      }
      if token !in stack {
        return false;
      }
      while stack[|stack| - 1] != token
        invariant token in stack && Detached(stack, token) == Detached(old(stack), token)
        decreases |stack|
      {
        assert stack == stack[..|stack| - 1] + [stack[|stack| - 1]];
        stack := stack[..|stack| - 1];
      }
      stack := stack[..|stack| - 1];
      return true;
    }

    /** StartSpan and the Scope that makes it current. */
    method NewScopedSpan() returns (span: nat)
      modifies this
      ensures span == old(next) && View() == OpenSpan(old(View()))
    {
      span := next;
      started := started + [Start(span, Current(stack).span)];
      next := next + 1;
      Attach(ScopeOf(span));
    }

    method End(span: nat)
      modifies this`ended
      ensures ended == old(ended) + [span]
    {
      ended := ended + [span];
    }
  }

  class RequestContext {
    const token: Context
    const root: nat
    const name: string
    var interactions: seq<nat>

    constructor (token: Context, root: nat, name: string)
      ensures this.token == token && this.root == root && this.name == name && interactions == []
    {
      this.token, this.root, this.name, interactions := token, root, name, [];
    }

    function View(): Request
      reads this
    {
      Request(token, root, interactions)
    }
  }

  class RequestProcessingEngine {
    const thread: RuntimeThread

    constructor (t: RuntimeThread)
      ensures thread == t
    {
      thread := t;
    }

    method StartRequest(wscontext: string, handlePointer: bool, payload: bool, extracted: Context)
      returns (code: ReturnCode, handle: RequestContext?)
      modifies thread
      ensures code == if !handlePointer then HandleIsNull else if !payload then PayloadIsNull else Success
      ensures code != Success ==> handle == null && thread.View() == old(thread.View())
      ensures code == Success ==> handle != null && fresh(handle) && handle.name == wscontext
      ensures code == Success ==> (thread.View(), handle.View()) == BeginRequest(old(thread.View()), extracted)
    {
      if !handlePointer { return HandleIsNull, null; }
      if !payload { return PayloadIsNull, null; }
      thread.next := Max(thread.next, Identities(extracted));
      thread.Attach(extracted);
      var span := thread.NewScopedSpan();
      handle := new RequestContext(extracted, span, wscontext);
      return Success, handle;
    }

    /** The parent named in the propagation headers is the span on top of the stack before the call. */
    method StartInteraction(handle: RequestContext?, payload: bool) returns (code: ReturnCode, parentSpanId: Option<nat>)
      modifies thread, handle
      ensures code == if handle == null then HandleIsNull else if !payload then PayloadIsNull else Success
      ensures code != Success ==> thread.View() == old(thread.View()) && (handle != null ==> handle.View() == old(handle.View()))
      ensures code == Success ==> parentSpanId == old(Current(thread.stack).span)
      ensures code == Success ==> (thread.View(), handle.View()) == BeginInteraction(old(thread.View()), old(handle.View()))
    {
      parentSpanId := None;
      if handle == null { return HandleIsNull, None; }
      if !payload { return PayloadIsNull, None; }
      parentSpanId := Current(thread.stack).span;
      var span := thread.NewScopedSpan();
      handle.interactions := handle.interactions + [span];
      code := Success;
    }

    method EndInteraction(handle: RequestContext?, payload: bool, errorCode: int, errorMessage: bool) returns (code: ReturnCode)
      modifies thread, handle
      ensures code == if handle == null then HandleIsNull else if !payload then PayloadIsNull
                      else if old(handle.interactions) == [] then InvalidContext else Success
      ensures code != Success ==> thread.View() == old(thread.View()) && (handle != null ==> handle.View() == old(handle.View()))
      ensures code == Success ==>
        (thread.View(), handle.View()) == FinishInteraction(old(thread.View()), old(handle.View()), errorCode, errorMessage)
      ensures code == Success ==> thread.status == old(thread.status)[old(handle.interactions[|handle.interactions| - 1]) :=
        if errorCode == 0 || !errorMessage then Ok else if 100 <= errorCode <= 399 then Unset else Error]
    {
      if handle == null { return HandleIsNull; }
      if !payload { return PayloadIsNull; }
      if handle.interactions == [] { return InvalidContext; }
      var last := |handle.interactions| - 1;
      var span := handle.interactions[last];
      var isError := errorCode != 0 && errorMessage;
      if isError {
        thread.status := thread.status[span := CodeStatus(errorCode, false)];
      } else {
        thread.status := thread.status[span := Ok];
      }
      thread.End(span);
      handle.interactions := handle.interactions[..last];
      var _ := thread.Detach(ScopeOf(span));  // the local pointer was the last one to the span object
      return Success;
    }

    method EndRequest(handle: RequestContext?, error: Option<int>) returns (code: ReturnCode)
      modifies thread, handle
      ensures code == if handle == null then Fail else Success
      ensures handle == null ==> thread.View() == old(thread.View())
      ensures handle != null ==> thread.View() == FinishRequest(old(thread.View()), old(handle.View()), error)
      ensures handle != null ==> thread.status == old(thread.status)[handle.root :=
        if error == None then Ok else if 100 <= error.value <= 499 then Unset else Error]
    {
      if handle == null { return Fail; }
      ghost var w0, spans := thread.View(), handle.interactions;
      DrainKeepsStatus(w0, spans);
      while handle.interactions != []
        invariant Drain(thread.View(), handle.interactions) == Drain(w0, spans)
        decreases |handle.interactions|
      {
        var last := |handle.interactions| - 1;
        var span := handle.interactions[last];
        thread.End(span);
        handle.interactions := handle.interactions[..last];
        var _ := thread.Detach(ScopeOf(span));
      }
      var root := handle.root;
      match error {
        case Some(number) => thread.status := thread.status[root := CodeStatus(number, true)];
        case None => thread.status := thread.status[root := Ok];
      }
      var _ := thread.Detach(handle.token);
      thread.End(root);
      // The request context goes away; the last pointer to the server span goes with this scope.
      var _ := thread.Detach(handle.token);
      var _ := thread.Detach(ScopeOf(root));
      return Success;
    }
  }

  // ----- What holds in every state of every request.

  function Open(r: Request): seq<nat> { [r.root] + r.interactions }

  function SpansOf(started: seq<Start>): (r: seq<nat>)
    ensures |r| == |started|
    ensures forall i :: 0 <= i < |r| ==> r[i] == started[i].span
  {
    seq(|started|, i requires 0 <= i < |started| => started[i].span)
  }

  ghost predicate Increasing(s: seq<nat>) {
    forall i, j :: 0 <= i < j < |s| ==> s[i] < s[j]
  }

  /** Identities in use are below the next one, and every span is younger than its parent. */
  ghost predicate Sane(w: World) {
    && (forall i :: 0 <= i < |w.stack| ==> Identities(w.stack[i]) <= w.next)
    && (forall i :: 0 <= i < |w.started| ==> w.started[i].span < w.next)
    && (forall i :: 0 <= i < |w.started| && w.started[i].parent.Some? ==> w.started[i].parent.value < w.started[i].span)
  }

  /**
   The stack mirrors the request. `w0` is the thread before the request: its stack is still there,
   above it the extracted context, the root and the open interactions, oldest first.
   */
  ghost predicate Mirrors(w0: World, w: World, r: Request) {
    && w.stack == w0.stack + [r.token] + Scopes(Open(r))
    && w0.next <= r.root && Identities(r.token) <= r.root
    && Increasing(Open(r)) && (forall i :: 0 <= i < |Open(r)| ==> Open(r)[i] < w.next)
  }

  /** The log since w0: spans are started in order, each is open or has ended once, parents are as nested. */
  ghost predicate Accounted(w0: World, w: World, r: Request, open: seq<nat>) {
    && w0.started <= w.started && w0.ended <= w.ended
    && var news, gone := w.started[|w0.started|..], w.ended[|w0.ended|..];
    && Increasing(SpansOf(news)) && (forall k :: 0 <= k < |news| ==> news[k].span >= r.root)
    && multiset(gone) + multiset(open) == multiset(SpansOf(news))
    && (forall k, j :: 0 <= k < |news| && 0 <= j < |open| - 1 && news[k].span == open[j + 1] ==> news[k].parent == Some(open[j]))
    && (forall k :: 0 <= k < |news| && news[k].span == r.root ==> news[k].parent == r.token.span)
  }

  /** A span that ended since position `from` ended after every span started under it. */
  ghost predicate ChildrenFirst(w: World, from: nat) {
    forall i, k :: from <= i < |w.ended| && 0 <= k < |w.started| && w.started[k].parent == Some(w.ended[i])
      ==> w.started[k].span in w.ended[from..i]
  }

  ghost predicate Serving(w0: World, w: World, r: Request) {
    Sane(w0) && Sane(w) && Mirrors(w0, w, r) && Accounted(w0, w, r, Open(r)) && ChildrenFirst(w, |w0.ended|)
  }

  lemma ScopesSnoc(spans: seq<nat>, s: nat)
    ensures Scopes(spans + [s]) == Scopes(spans) + [ScopeOf(s)]
  {
  }

  lemma BeginServing(w0: World, extracted: Context)
    requires Sane(w0)
    ensures var (w, r) := BeginRequest(w0, extracted); Serving(w0, w, r) && r.interactions == []
  {
    var (w, r) := BeginRequest(w0, extracted);
    assert w.started[|w0.started|..] == [Start(r.root, extracted.span)];
    assert w.ended[|w0.ended|..] == [];
    assert SpansOf([Start(r.root, extracted.span)]) == [r.root];
    assert Open(r) == [r.root];
    assert Scopes(Open(r)) == [ScopeOf(r.root)];
    assert w.stack == w0.stack + [extracted] + [ScopeOf(r.root)];
  }

  lemma Top(w0: World, w: World, r: Request)
    requires Mirrors(w0, w, r)
    ensures w.stack != [] && w.stack[|w.stack| - 1] == ScopeOf(Open(r)[|Open(r)| - 1])
  {
  }

  lemma OpenedMirrors(w0: World, w: World, r: Request)
    requires Sane(w) && Mirrors(w0, w, r)
    ensures var (v, q) := BeginInteraction(w, r);
      Sane(v) && Mirrors(w0, v, q) && v.started == w.started + [Start(w.next, Some(Open(r)[|Open(r)| - 1]))]
  {
    var (v, q) := BeginInteraction(w, r);
    Top(w0, w, r);
    assert Open(q) == Open(r) + [w.next];
    ScopesSnoc(Open(r), w.next);
    assert v.stack == w0.stack + [r.token] + Scopes(Open(q));
  }

  lemma OpenedAccounted(w0: World, w: World, r: Request)
    requires Sane(w) && Mirrors(w0, w, r) && Accounted(w0, w, r, Open(r))
    ensures var (v, q) := BeginInteraction(w, r); Accounted(w0, v, q, Open(q))
  {
    var (v, q) := BeginInteraction(w, r);
    OpenedMirrors(w0, w, r);
    var news, s := w.started[|w0.started|..], Start(w.next, Some(Open(r)[|Open(r)| - 1]));
    assert v.started[|w0.started|..] == news + [s];
    assert Open(q) == Open(r) + [w.next];
    forall k | 0 <= k < |news| ensures news[k].span < w.next { assert news[k] == w.started[|w0.started| + k]; }
    assert Open(r)[0] == r.root < w.next;
    StartAccounted(news, s, Open(r), w.ended[|w0.ended|..]);
  }

  lemma StartAccounted(news: seq<Start>, s: Start, open: seq<nat>, gone: seq<nat>)
    requires Increasing(SpansOf(news)) && multiset(gone) + multiset(open) == multiset(SpansOf(news))
    requires forall k :: 0 <= k < |news| ==> news[k].span < s.span
    requires open != [] && s.parent == Some(open[|open| - 1]) && forall j :: 0 <= j < |open| ==> open[j] < s.span
    requires forall k, j :: 0 <= k < |news| && 0 <= j < |open| - 1 && news[k].span == open[j + 1] ==> news[k].parent == Some(open[j])
    ensures Increasing(SpansOf(news + [s])) && multiset(gone) + multiset(open + [s.span]) == multiset(SpansOf(news + [s]))
    ensures var all, now := news + [s], open + [s.span];
      forall k, j :: 0 <= k < |all| && 0 <= j < |now| - 1 && all[k].span == now[j + 1] ==> all[k].parent == Some(now[j])
  {
    assert SpansOf(news + [s]) == SpansOf(news) + [s.span];
    assert multiset(open + [s.span]) == multiset(open) + multiset{s.span};
  }

  lemma OpenedChildrenFirst(w0: World, w: World, r: Request)
    requires Serving(w0, w, r)
    ensures ChildrenFirst(BeginInteraction(w, r).0, |w0.ended|)
  {
    OpenedMirrors(w0, w, r);
    OpenAreNotGone(w0, w, r);
    var from, v := |w0.ended|, BeginInteraction(w, r).0;
    assert Open(r)[|Open(r)| - 1] in Open(r);
    forall i, k | from <= i < |v.ended| && 0 <= k < |v.started| && v.started[k].parent == Some(v.ended[i])
      ensures v.started[k].span in v.ended[from..i]
    {
      assert v.ended[i] == w.ended[from..][i - from];
      if k < |w.started| {
        assert v.started[k] == w.started[k];
      } else {
        assert false;
      }
    }
  }

  lemma OpenedServing(w0: World, w: World, r: Request)
    requires Serving(w0, w, r)
    ensures var (v, q) := BeginInteraction(w, r); Serving(w0, v, q)
  {
    OpenedMirrors(w0, w, r);
    OpenedAccounted(w0, w, r);
    OpenedChildrenFirst(w0, w, r);
  }

  /** An open span has not ended, and every new span is open or has ended. */
  lemma OpenAreNotGone(w0: World, w: World, r: Request)
    requires Accounted(w0, w, r, Open(r)) && Increasing(Open(r))
    ensures forall s :: s in Open(r) ==> s !in w.ended[|w0.ended|..]
  {
    var news, gone := w.started[|w0.started|..], w.ended[|w0.ended|..];
    forall s | s in Open(r) && s in gone ensures false {
      assert multiset(gone)[s] >= 1 && multiset(Open(r))[s] >= 1;
      DistinctOnce(SpansOf(news), s);
    }
  }

  lemma {:induction false} DistinctOnce(s: seq<nat>, x: nat)
    requires Increasing(s)
    ensures multiset(s)[x] <= 1
  {
    if s == [] {
    } else {
      var k := |s| - 1;
      assert s == s[..k] + [s[k]];
      DistinctOnce(s[..k], x);
      if s[k] == x { assert x !in s[..k]; }
    }
  }

  /** The request without its youngest interaction. */
  function Popped(r: Request): Request
    requires r.interactions != []
  {
    r.(interactions := r.interactions[..|r.interactions| - 1])
  }

  lemma CloseOnTop(w0: World, w: World, r: Request)
    requires Sane(w) && Mirrors(w0, w, r) && r.interactions != []
    ensures var v := CloseSpan(w, r.interactions[|r.interactions| - 1]); Sane(v) && Mirrors(w0, v, Popped(r))
  {
    var n := |Open(r)| - 1;
    var span := r.interactions[|r.interactions| - 1];
    Top(w0, w, r);
    assert Open(r) == Open(Popped(r)) + [span];
    assert Open(Popped(r)) == Open(r)[..n];
    ScopesSnoc(Open(Popped(r)), span);
    assert w.stack == (w0.stack + [r.token] + Scopes(Open(Popped(r)))) + [ScopeOf(span)];
    assert CloseSpan(w, span).stack == w.stack[..|w.stack| - 1];
  }

  /** Ending the youngest open span keeps the books: it moves from open to gone. */
  lemma EndAccounted(w0: World, w: World, v: World, r: Request, open: seq<nat>, span: nat)
    requires Accounted(w0, w, r, open + [span])
    requires v.started == w.started && v.ended == w.ended + [span]
    ensures Accounted(w0, v, r, open)
  {
    var gone := w.ended[|w0.ended|..];
    assert v.ended[|w0.ended|..] == gone + [span];
    assert multiset(gone + [span]) + multiset(open) == multiset(gone) + multiset(open + [span]);
    assert forall j :: 0 <= j < |open| ==> open[j] == (open + [span])[j];
  }

  lemma YoungestIsLast(open: seq<nat>, span: nat, x: nat)
    requires Increasing(open + [span])
    ensures x > span ==> x !in open + [span]
  {
    forall j | 0 <= j < |open| ensures open[j] < span {
      assert (open + [span])[j] == open[j] && (open + [span])[|open|] == span;
    }
  }

  /** The youngest open span has no open children, so all of its children have ended. */
  lemma EndChildrenFirst(w0: World, w: World, v: World, r: Request, open: seq<nat>, span: nat)
    requires Sane(w) && w0.next <= r.root <= span && Accounted(w0, w, r, open + [span]) && Increasing(open + [span])
    requires open != [] ==> open[0] == r.root
    requires open == [] ==> span == r.root
    requires Identities(r.token) <= r.root && Sane(w0)
    requires ChildrenFirst(w, |w0.ended|) && v.started == w.started && v.ended == w.ended + [span]
    ensures ChildrenFirst(v, |w0.ended|)
  {
    var from, all := |w0.ended|, open + [span];
    var news, gone := w.started[|w0.started|..], w.ended[from..];
    forall i, k | from <= i < |v.ended| && 0 <= k < |v.started| && v.started[k].parent == Some(v.ended[i])
      ensures v.started[k].span in v.ended[from..i]
    {
      var s := w.started[k];
      if i < |w.ended| {
        assert v.ended[i] == w.ended[i] && v.ended[from..i] == w.ended[from..i];
      } else {
        assert v.ended[from..i] == gone && s.parent == Some(span);
        if k < |w0.started| {
          assert false;
        }
        assert s == news[k - |w0.started|];
        assert s.span in SpansOf(news) by { assert SpansOf(news)[k - |w0.started|] == s.span; }
        assert s.span in multiset(gone) + multiset(all);
        YoungestIsLast(open, span, s.span);
      }
    }
  }

  lemma ClosedServing(w0: World, w: World, r: Request)
    requires Serving(w0, w, r) && r.interactions != []
    ensures Serving(w0, CloseSpan(w, r.interactions[|r.interactions| - 1]), Popped(r))
  {
    var span := r.interactions[|r.interactions| - 1];
    var v := CloseSpan(w, span);
    assert Open(r) == Open(Popped(r)) + [span];
    assert Open(r)[0] == r.root && Open(Popped(r))[0] == r.root;
    CloseOnTop(w0, w, r);
    EndAccounted(w0, w, v, r, Open(Popped(r)), span);
    EndChildrenFirst(w0, w, v, r, Open(Popped(r)), span);
    assert Accounted(w0, v, Popped(r), Open(Popped(r)));
  }

  // ----- Whole requests.

  datatype Op = Started | Finished(code: int, message: bool)

  /** Any sequence of interaction calls; ending one when none is open is refused and changes nothing. */
  function Serve(w: World, r: Request, ops: seq<Op>): (World, Request)
    decreases |ops|
  {
    if ops == [] then (w, r) else
    var (v, q) := AfterOp(w, r, ops[0]);
    Serve(v, q, ops[1..])
  }

  function AfterOp(w: World, r: Request, op: Op): (World, Request) {
    match op
    case Started => BeginInteraction(w, r)
    case Finished(code, message) => if r.interactions == [] then (w, r) else FinishInteraction(w, r, code, message)
  }

  lemma {:induction false} ServeServing(w0: World, w: World, r: Request, ops: seq<Op>)
    requires Serving(w0, w, r)
    ensures var (v, q) := Serve(w, r, ops); Serving(w0, v, q) && q.root == r.root && q.token == r.token
    decreases |ops|
  {
    if ops == [] {
    } else {
      match ops[0]
      case Started =>
        OpenedServing(w0, w, r);
        var (v, q) := BeginInteraction(w, r);
        ServeServing(w0, v, q, ops[1..]);
      case Finished(code, message) =>
        if r.interactions == [] {
          ServeServing(w0, w, r, ops[1..]);
        } else {
          var (v, q) := FinishInteraction(w, r, code, message);
          ClosedServing(w0, w.(status := v.status), r);
          ServeServing(w0, v, q, ops[1..]);
        }
    }
  }

  lemma {:induction false} DrainServing(w0: World, w: World, r: Request)
    requires Serving(w0, w, r)
    ensures Serving(w0, Drain(w, r.interactions), r.(interactions := []))
    decreases |r.interactions|
  {
    if r.interactions == [] {
    } else {
      ClosedServing(w0, w, r);
      DrainServing(w0, CloseSpan(w, r.interactions[|r.interactions| - 1]), Popped(r));
    }
  }

  lemma {:induction false} DetachSkips(stack: seq<Context>, token: Context, top: Context)
    requires top != token
    ensures Detached(stack + [token, top], token) == stack
  {
    var s := stack + [token, top];
    assert s[|s| - 2] == token;
    assert s[..|s| - 1] == stack + [token];
    assert (stack + [token])[..|stack|] == stack;
  }

  lemma {:induction false} DetachedIsPrefix(stack: seq<Context>, token: Context)
    ensures Detached(stack, token) <= stack
    ensures Detached(stack, token) == stack <==> token !in stack
  {
    if token !in stack || stack[|stack| - 1] == token {
    } else {
      assert stack == stack[..|stack| - 1] + [stack[|stack| - 1]];
      DetachedIsPrefix(stack[..|stack| - 1], token);
    }
  }

  lemma FinishStack(stack: seq<Context>, token: Context, root: nat)
    requires forall i :: 0 <= i < |stack| ==> stack[i] != ScopeOf(root)
    requires token != ScopeOf(root)
    ensures Detached(Detached(Detached(stack + [token, ScopeOf(root)], token), token), ScopeOf(root)) == Detached(stack, token)
  {
    DetachSkips(stack, token, ScopeOf(root));
    DetachedIsPrefix(stack, token);
    DetachedIsPrefix(Detached(stack, token), ScopeOf(root));
  }

  lemma FinishServing(w0: World, w: World, r: Request, error: Option<int>)
    requires Serving(w0, w, r) && r.interactions == []
    ensures var v := FinishRequest(w, r, error);
      && v.stack == Detached(w0.stack, r.token)
      && Accounted(w0, v, r, []) && ChildrenFirst(v, |w0.ended|) && v.ended == w.ended + [r.root]
  {
    var v := FinishRequest(w, r, error);
    assert Open(r) == [] + [r.root];
    assert Scopes([r.root]) == [ScopeOf(r.root)];
    assert w.stack == w0.stack + [r.token, ScopeOf(r.root)];
    FinishStack(w0.stack, r.token, r.root);
    EndAccounted(w0, w, v, r, [], r.root);
    EndChildrenFirst(w0, w, v, r, [], r.root);
  }

  /**
   While a request is served, whatever interactions were started and ended, the thread's stack is
   the stack at entry, the extracted context, the root and the open interactions; the top names
   the youngest open span.
   */
  lemma StackMirrorsRequest(w0: World, extracted: Context, ops: seq<Op>)
    requires Sane(w0)
    ensures var (w, r) := BeginRequest(w0, extracted); var (v, q) := Serve(w, r, ops);
      && v.stack == w0.stack + [extracted] + Scopes(Open(q))
      && Current(v.stack).span == Some(Open(q)[|Open(q)| - 1])
  {
    BeginServing(w0, extracted);
    var (w, r) := BeginRequest(w0, extracted);
    ServeServing(w0, w, r, ops);
    var (v, q) := Serve(w, r, ops);
    Top(w0, v, q);
  }

  /** From w to z every span that was started has a new identity and has ended once, and nothing else has ended. */
  ghost predicate Balanced(w: World, z: World) {
    && w.started <= z.started && w.ended <= z.ended
    && Increasing(SpansOf(z.started[|w.started|..]))
    && multiset(z.ended[|w.ended|..]) == multiset(SpansOf(z.started[|w.started|..]))
    && w.next <= z.next && forall k :: |w.started| <= k < |z.started| ==> w.next <= z.started[k].span < z.next
  }

  lemma AccountedIsBalanced(w0: World, z: World, r: Request)
    requires Accounted(w0, z, r, []) && w0.next <= r.root < z.next && Sane(z)
    ensures Balanced(w0, z)
  {
    var news, gone := z.started[|w0.started|..], z.ended[|w0.ended|..];
    assert multiset(gone) + multiset([]) == multiset(gone);
    forall k | |w0.started| <= k < |z.started| ensures w0.next <= z.started[k].span {
      assert news[k - |w0.started|] == z.started[k];
    }
  }

  lemma ShrinkingIsSane(w: World, z: World)
    requires Sane(w) && z.stack <= w.stack && z.started == w.started && z.next == w.next
    ensures Sane(z)
  {
  }

  lemma DetachedTwiceThenScope(stack: seq<Context>, token: Context, scope: Context)
    ensures Detached(Detached(Detached(stack, token), token), scope) <= stack
  {
    DetachedIsPrefix(stack, token);
    DetachedIsPrefix(Detached(stack, token), token);
    DetachedIsPrefix(Detached(Detached(stack, token), token), scope);
  }

  lemma FinishIsSane(w0: World, w: World, r: Request, error: Option<int>)
    requires Serving(w0, w, r) && r.interactions == []
    ensures Sane(FinishRequest(w, r, error)) && FinishRequest(w, r, error).next == w.next > r.root
  {
    DetachedTwiceThenScope(w.stack, r.token, ScopeOf(r.root));
    ShrinkingIsSane(w, FinishRequest(w, r, error));
    assert Open(r)[0] == r.root;
  }

  lemma FinishedRequest(w0: World, w: World, r: Request, error: Option<int>)
    requires Serving(w0, w, r)
    ensures var z := FinishRequest(w, r, error);
      && Sane(z) && Balanced(w0, z) && ChildrenFirst(z, |w0.ended|)
      && z.stack == Detached(w0.stack, r.token) && z.ended != [] && z.ended[|z.ended| - 1] == r.root
  {
    DrainServing(w0, w, r);
    var d, e := Drain(w, r.interactions), r.(interactions := []);
    assert FinishRequest(w, r, error) == FinishRequest(d, e, error);
    FinishServing(w0, d, e, error);
    FinishIsSane(w0, d, e, error);
    AccountedIsBalanced(w0, FinishRequest(w, r, error), e);
  }

  /**
   Over a whole request every span it started is ended exactly once, the root last and each span
   after all spans started under it, and the stack at entry comes back if and only if the extracted
   context was not already on it (destroying the token detaches it a second time).
   */
  lemma WholeRequest(w0: World, extracted: Context, ops: seq<Op>, error: Option<int>)
    requires Sane(w0)
    ensures var (w, r) := BeginRequest(w0, extracted); var (v, q) := Serve(w, r, ops); var z := FinishRequest(v, q, error);
      && Sane(z) && z.stack <= w0.stack
      && (z.stack == w0.stack <==> extracted !in w0.stack)
      && Balanced(w0, z)
      && z.ended != [] && z.ended[|z.ended| - 1] == r.root
      && ChildrenFirst(z, |w0.ended|)
  {
    BeginServing(w0, extracted);
    var (w, r) := BeginRequest(w0, extracted);
    ServeServing(w0, w, r, ops);
    var (v, q) := Serve(w, r, ops);
    FinishedRequest(w0, v, q, error);
    DetachedIsPrefix(w0.stack, extracted);
  }

  // ----- The status of every span.

  /** The interactions that some calls end, each with the call that ends it; `next` is the next span's identity. */
  function EndedBy(next: nat, interactions: seq<nat>, ops: seq<Op>): map<nat, Op>
    decreases |ops|
  {
    if ops == [] then map[] else
    var (n, open) := OpenAfter(next, interactions, ops[0]);
    EndedAt(interactions, ops[0]) + EndedBy(n, open, ops[1..])
  }

  /** The interaction that one call ends, if any. */
  function EndedAt(interactions: seq<nat>, op: Op): map<nat, Op> {
    if op.Started? || interactions == [] then map[] else map[interactions[|interactions| - 1] := op]
  }

  function OpenAfter(next: nat, interactions: seq<nat>, op: Op): (nat, seq<nat>) {
    if op.Started? then (next + 1, interactions + [next])
    else (next, if interactions == [] then [] else interactions[..|interactions| - 1])
  }

  /** What a client span ends with: Ok without an error, Unset for the codes 100 to 399, Error for all others. */
  ghost predicate ClientStatus(status: Status, op: Op) {
    op.Finished? &&
    match status
    case Ok => op.code == 0 || !op.message
    case Unset => op.code != 0 && op.message && 100 <= op.code <= 399
    case Error => op.code != 0 && op.message && !(100 <= op.code <= 399)
  }

  /** What a server span ends with: Ok without an error, Unset for the codes 100 to 499, Error for all others. */
  ghost predicate ServerStatus(status: Status, error: Option<int>) {
    match status
    case Ok => error == None
    case Unset => error.Some? && 100 <= error.value <= 499
    case Error => error.Some? && !(100 <= error.value <= 499)
  }

  /** The spans in `ended` have the status of the call that ended them, all others what they had. */
  ghost predicate StatusesAre(before: map<nat, Status>, after: map<nat, Status>, ended: map<nat, Op>) {
    && (forall s :: s in ended ==> s in after && ClientStatus(after[s], ended[s]))
    && (forall s :: s !in ended ==> (s in after <==> s in before) && (s in after ==> after[s] == before[s]))
  }

  lemma OneOp(w: World, r: Request, op: Op)
    ensures var (v, q) := AfterOp(w, r, op);
      && StatusesAre(w.status, v.status, EndedAt(r.interactions, op))
      && (v.next, q.interactions) == OpenAfter(w.next, r.interactions, op) && q.root == r.root
  {
  }

  lemma StatusesThen(a: map<nat, Status>, b: map<nat, Status>, c: map<nat, Status>, m: map<nat, Op>, n: map<nat, Op>)
    requires StatusesAre(a, b, m) && StatusesAre(b, c, n)
    ensures StatusesAre(a, c, m + n)
  {
  }

  lemma {:induction false} ServeStatuses(w: World, r: Request, ops: seq<Op>)
    ensures StatusesAre(w.status, Serve(w, r, ops).0.status, EndedBy(w.next, r.interactions, ops))
    ensures Serve(w, r, ops).1.root == r.root
    decreases |ops|
  {
    if ops == [] {
    } else {
      var (v, q) := AfterOp(w, r, ops[0]);
      OneOp(w, r, ops[0]);
      ServeStatuses(v, q, ops[1..]);
      StatusesThen(w.status, v.status, Serve(v, q, ops[1..]).0.status,
                   EndedAt(r.interactions, ops[0]), EndedBy(v.next, q.interactions, ops[1..]));
    }
  }

  /**
   The statuses after a whole request: the root has that of the error, every interaction that was
   ended has that of its own call, and no other span's status has changed.
   */
  lemma StatusesOfRequest(w0: World, extracted: Context, ops: seq<Op>, error: Option<int>)
    requires Sane(w0)
    ensures var (w, r) := BeginRequest(w0, extracted); var (v, q) := Serve(w, r, ops); var z := FinishRequest(v, q, error);
      var ended := EndedBy(w.next, [], ops);
      && r.root in z.status && ServerStatus(z.status[r.root], error)
      && (forall s :: s in ended && s != r.root ==> s in z.status && ClientStatus(z.status[s], ended[s]))
      && (forall s :: s !in ended && s != r.root ==>
            (s in z.status <==> s in w0.status) && (s in z.status ==> z.status[s] == w0.status[s]))
  {
    var (w, r) := BeginRequest(w0, extracted);
    ServeStatuses(w, r, ops);
    var (v, q) := Serve(w, r, ops);
    DrainKeepsStatus(v, q.interactions);
  }

  // ----- Whole runs: requests served one after another.

  datatype Served = Served(extracted: Context, ops: seq<Op>, error: Option<int>)

  function ServeOne(w: World, s: Served): World {
    var (v, r) := BeginRequest(w, s.extracted);
    var (u, q) := Serve(v, r, s.ops);
    FinishRequest(u, q, s.error)
  }

  function ServeAll(w: World, requests: seq<Served>): World
    decreases |requests|
  {
    if requests == [] then w else ServeAll(ServeOne(w, requests[0]), requests[1..])
  }

  lemma BalancedThen(w: World, v: World, z: World)
    requires Balanced(w, v) && Balanced(v, z)
    ensures Balanced(w, z)
  {
    var a, b := v.started[|w.started|..], z.started[|v.started|..];
    var c, d := v.ended[|w.ended|..], z.ended[|v.ended|..];
    assert z.started[|w.started|..] == a + b && z.ended[|w.ended|..] == c + d;
    IncreasingConcat(a, b, v.next, w, v, z);
    assert multiset(c + d) == multiset(c) + multiset(d);
  }

  lemma IncreasingConcat(a: seq<Start>, b: seq<Start>, between: nat, w: World, v: World, z: World)
    requires Balanced(w, v) && Balanced(v, z) && between == v.next
    requires a == v.started[|w.started|..] && b == z.started[|v.started|..]
    ensures SpansOf(a + b) == SpansOf(a) + SpansOf(b) && Increasing(SpansOf(a + b))
    ensures multiset(SpansOf(a + b)) == multiset(SpansOf(a)) + multiset(SpansOf(b))
    ensures forall k :: |w.started| <= k < |z.started| ==> w.next <= z.started[k].span < z.next
  {
    assert SpansOf(a + b) == SpansOf(a) + SpansOf(b);
    forall i | 0 <= i < |a| ensures SpansOf(a)[i] < between { assert a[i] == v.started[|w.started| + i]; }
    forall i | 0 <= i < |b| ensures SpansOf(b)[i] >= between { assert b[i] == z.started[|v.started| + i]; }
    forall k | |w.started| <= k < |z.started| ensures w.next <= z.started[k].span < z.next {
      if k < |v.started| { assert z.started[k] == v.started[k]; }
    }
  }

  lemma OneRequest(w: World, s: Served)
    requires Sane(w)
    ensures var z := ServeOne(w, s);
      Sane(z) && Balanced(w, z) && z.stack <= w.stack && (z.stack == w.stack <==> s.extracted !in w.stack)
  {
    WholeRequest(w, s.extracted, s.ops, s.error);
  }

  /** None of the requests extracted a context of the stack. */
  ghost predicate NoneOn(requests: seq<Served>, stack: seq<Context>) {
    forall i :: 0 <= i < |requests| ==> requests[i].extracted !in stack
  }

  lemma ThenTheRest(w: World, v: World, z: World, requests: seq<Served>)
    requires requests != [] && Balanced(w, v) && Balanced(v, z)
    requires v.stack <= w.stack && (v.stack == w.stack <==> requests[0].extracted !in w.stack)
    requires z.stack <= v.stack && (z.stack == v.stack <==> NoneOn(requests[1..], v.stack))
    ensures Balanced(w, z) && z.stack <= w.stack && (z.stack == w.stack <==> NoneOn(requests, w.stack))
  {
    BalancedThen(w, v, z);
    assert forall i :: 1 <= i < |requests| ==> requests[i] == requests[1..][i - 1];
  }

  /**
   Over any run of requests on a thread every span is ended exactly once, and the stack at the start
   comes back if and only if no request extracted a context that was on it.
   */
  lemma {:induction false} WholeRun(w: World, requests: seq<Served>)
    requires Sane(w)
    ensures var z := ServeAll(w, requests);
      && Sane(z) && Balanced(w, z) && z.stack <= w.stack
      && (z.stack == w.stack <==> NoneOn(requests, w.stack))
    decreases |requests|
  {
    if requests == [] {
      assert w.started[|w.started|..] == [] && w.ended[|w.ended|..] == [];
    } else {
      OneRequest(w, requests[0]);
      WholeRun(ServeOne(w, requests[0]), requests[1..]);
      ThenTheRest(w, ServeOne(w, requests[0]), ServeAll(w, requests), requests);
    }
  }

  /** The failing case: a propagator that returns the current context costs the caller its own top context. */
  lemma ReturningTheCurrentContextLosesIt(w0: World)
    requires Sane(w0) && w0.stack != []
    ensures var (w, r) := BeginRequest(w0, Current(w0.stack));
      FinishRequest(w, r, None).stack == w0.stack[..|w0.stack| - 1]
  {
    var c := Current(w0.stack);
    BeginServing(w0, c);
    var (w, r) := BeginRequest(w0, c);
    FinishServing(w0, w, r, None);
  }
}
