/**
 The reusable cyclic barrier: a mutex, a count, a generation and a condition variable. The class
 holds the two critical sections of Wait; the rest of the module is the protocol, with any number
 of threads, every interleaving of their critical sections, and wake-ups at any time.
 */
module Barrier {
  const SIZE_T := 0x1_0000_0000_0000_0000

  datatype State = State(threshold: nat, count: nat, generation: nat)

  /** From taking the mutex to leaving Wait or starting to wait; true when this was the last arrival. */
  function Arrive(b: State): (State, bool) {
    var count := (b.count + SIZE_T - 1) % SIZE_T;
    if count == 0 then (State(b.threshold, b.threshold, (b.generation + 1) % SIZE_T), true)
    else (b.(count := count), false)
  }

  class CyclicBarrier {
    var threshold: nat
    var count: nat
    var generation: nat

    function View(): State
      reads this
    {
      State(threshold, count, generation)
    }

    constructor (n: nat)
      ensures View() == State(n, n, 0)
    {
      threshold, count, generation := n, n, 0;
    }

    /** The critical section of an arrival; notifyAll says that every waiter is woken. */
    method Enter() returns (lGen: nat, notifyAll: bool)
      modifies this
      ensures lGen == old(generation) && (View(), notifyAll) == Arrive(old(View()))
    {
      lGen := generation;
      count := (count + SIZE_T - 1) % SIZE_T;
      notifyAll := count == 0;
      if notifyAll {
        generation := (generation + 1) % SIZE_T;
        count := threshold;
      }
    }

    /** The wait predicate, evaluated under the mutex after each wake-up. */
    method MayLeave(lGen: nat) returns (leave: bool)
      ensures leave == (lGen != View().generation)
    {
      leave := lGen != generation;
    }
  }

  // ----- The protocol.

  /** A thread between two calls, or blocked in its next one; `done` counts its completed calls. */
  datatype Thread =
    | Outside(done: nat)
    | Waiting(done: nat, lGen: nat, notified: bool)

  datatype System = System(b: State, threads: seq<Thread>)

  function Init(n: nat): System {
    System(State(n, n, 0), seq(n, _ => Outside(0)))
  }

  function Notified(t: Thread): Thread {
    if t.Waiting? then t.(notified := true) else t
  }

  function Enter(s: System, t: nat): System
    requires t < |s.threads| && s.threads[t].Outside?
  {
    var (b, last) := Arrive(s.b);
    var done := s.threads[t].done;
    if last then System(b, seq(|s.threads|, i requires 0 <= i < |s.threads| =>
                                 if i == t then Outside(done + 1) else Notified(s.threads[i])))
    else System(b, s.threads[t := Waiting(done, s.b.generation, false)])
  }

  function Wake(s: System, t: nat): System
    requires t < |s.threads| && s.threads[t].Waiting?
  {
    var w := s.threads[t];
    s.(threads := s.threads[t := if w.lGen != s.b.generation then Outside(w.done + 1) else w.(notified := false)])
  }

  /** Thread t, which makes `rounds` calls in all, runs one critical section; wake-ups need no reason. */
  ghost predicate Step(s: System, t: nat, s': System, rounds: nat) {
    && t < |s.threads|
    && match s.threads[t]
       case Outside(done) => done < rounds && s' == Enter(s, t)
       case Waiting(_, _, _) => s' == Wake(s, t)
  }

  ghost predicate Next(s: System, s': System, rounds: nat) {
    exists t: nat :: Step(s, t, s', rounds)
  }

  ghost predicate Run(r: seq<System>, n: nat, rounds: nat) {
    && r != [] && r[0] == Init(n)
    && forall i :: 0 <= i < |r| - 1 ==> Next(r[i], r[i + 1], rounds)
  }

  // ----- What every state of every run satisfies.

  function Entered(t: Thread): nat {
    if t.Waiting? then t.done + 1 else t.done
  }

  /** The threads blocked in the current generation. */
  function CurrentWaiters(ts: seq<Thread>, generation: nat): (r: nat)
    ensures r <= |ts|
  {
    if ts == [] then 0
    else CurrentWaiters(ts[..|ts| - 1], generation) + if IsCurrent(ts[|ts| - 1], generation) then 1 else 0
  }

  predicate IsCurrent(t: Thread, generation: nat) {
    t.Waiting? && t.lGen == generation
  }

  /** With g releases so far: a thread has completed g calls, or is a released waiter that has not left yet. */
  ghost predicate Placed(t: Thread, g: nat) {
    match t
    case Outside(done) => done == g
    case Waiting(done, lGen, notified) =>
      lGen == done % SIZE_T && ((done == g && !notified) || (done + 1 == g && notified))
  }

  ghost predicate Inv(s: System, n: nat, rounds: nat, g: nat) {
    && 1 <= n < SIZE_T && |s.threads| == n && g <= rounds
    && s.b.threshold == n && s.b.generation == g % SIZE_T
    && (forall t :: 0 <= t < n ==> Placed(s.threads[t], g))
    && (forall t :: 0 <= t < n && s.threads[t].Waiting? ==> s.threads[t].done < rounds)
    && s.b.count == n - CurrentWaiters(s.threads, s.b.generation) >= 1
  }

  lemma {:induction false} WaitersUpdate(ts: seq<Thread>, t: nat, x: Thread, generation: nat)
    requires t < |ts|
    ensures CurrentWaiters(ts[t := x], generation) + (if IsCurrent(ts[t], generation) then 1 else 0)
         == CurrentWaiters(ts, generation) + if IsCurrent(x, generation) then 1 else 0
  {
    var k := |ts| - 1;
    if t == k {
      assert ts[t := x][..k] == ts[..k];
    } else {
      assert ts[t := x][..k] == ts[..k][t := x];
      WaitersUpdate(ts[..k], t, x, generation);
    }
  }

  lemma {:induction false} NoWaiters(ts: seq<Thread>, generation: nat)
    requires forall i :: 0 <= i < |ts| ==> !IsCurrent(ts[i], generation)
    ensures CurrentWaiters(ts, generation) == 0
  {
    if ts == [] {
    } else {
      NoWaiters(ts[..|ts| - 1], generation);
    }
  }

  lemma {:induction false} SomeoneElse(ts: seq<Thread>, generation: nat, i: nat)
    requires i < |ts| && !IsCurrent(ts[i], generation)
    ensures CurrentWaiters(ts, generation) < |ts|
  {
    var k := |ts| - 1;
    if i == k {
    } else {
      SomeoneElse(ts[..k], generation, i);
    }
  }

  lemma {:induction false} AllButOneWait(ts: seq<Thread>, generation: nat, t: nat, i: nat)
    requires t < |ts| && i < |ts| && i != t && !IsCurrent(ts[t], generation)
    requires CurrentWaiters(ts, generation) == |ts| - 1
    ensures IsCurrent(ts[i], generation)
  {
    var k := |ts| - 1;
    if t == k {
      if i < k && !IsCurrent(ts[i], generation) { SomeoneElse(ts[..k], generation, i); }
    } else if i == k {
      SomeoneElse(ts[..k], generation, t);
    } else {
      SomeoneElse(ts[..k], generation, t);
      AllButOneWait(ts[..k], generation, t, i);
    }
  }

  lemma GenerationsDiffer(g: nat)
    ensures (g + 1) % SIZE_T != g % SIZE_T && (g % SIZE_T + 1) % SIZE_T == (g + 1) % SIZE_T
  {
  }

  lemma InitInv(n: nat, rounds: nat)
    requires 1 <= n < SIZE_T
    ensures Inv(Init(n), n, rounds, 0)
  {
    NoWaiters(Init(n).threads, 0);
  }

  lemma ReleaseInv(s: System, t: nat, n: nat, rounds: nat, g: nat)
    requires Inv(s, n, rounds, g) && t < n && s.threads[t].Outside? && s.threads[t].done < rounds && s.b.count == 1
    ensures Inv(Enter(s, t), n, rounds, g + 1)
  {
    var s' := Enter(s, t);
    GenerationsDiffer(g);
    forall i | 0 <= i < n && i != t ensures s.threads[i].Waiting? && s.threads[i].done == g {
      AllButOneWait(s.threads, s.b.generation, t, i);
      if s.threads[i].done + 1 == g { GenerationsDiffer(g - 1); }
    }
    NoWaiters(s'.threads, s'.b.generation);
  }

  lemma EnterInv(s: System, t: nat, n: nat, rounds: nat, g: nat)
    requires Inv(s, n, rounds, g) && t < n && s.threads[t].Outside? && s.threads[t].done < rounds && s.b.count > 1
    ensures Inv(Enter(s, t), n, rounds, g)
  {
    WaitersUpdate(s.threads, t, Waiting(s.threads[t].done, s.b.generation, false), s.b.generation);
  }

  lemma WakeInv(s: System, t: nat, n: nat, rounds: nat, g: nat)
    requires Inv(s, n, rounds, g) && t < n && s.threads[t].Waiting?
    ensures Inv(Wake(s, t), n, rounds, g)
  {
    var w := s.threads[t];
    if w.done + 1 == g { GenerationsDiffer(w.done); }
    WaitersUpdate(s.threads, t, Wake(s, t).threads[t], s.b.generation);
  }

  lemma NextInv(s: System, s': System, n: nat, rounds: nat, g: nat) returns (g': nat)
    requires Inv(s, n, rounds, g) && Next(s, s', rounds)
    ensures Inv(s', n, rounds, g')
  {
    var t: nat :| Step(s, t, s', rounds);
    g' := g;
    if s.threads[t].Waiting? {
      WakeInv(s, t, n, rounds, g);
    } else if s.b.count == 1 {
      ReleaseInv(s, t, n, rounds, g);
      g' := g + 1;
    } else {
      EnterInv(s, t, n, rounds, g);
    }
  }

  lemma {:induction false} RunInv(r: seq<System>, n: nat, rounds: nat, i: nat) returns (g: nat)
    requires 1 <= n < SIZE_T && Run(r, n, rounds) && i < |r|
    ensures Inv(r[i], n, rounds, g)
  {
    if i == 0 {
      InitInv(n, rounds);
      g := 0;
    } else {
      g := RunInv(r, n, rounds, i - 1);
      assert Next(r[i - 1], r[i], rounds);
      g := NextInv(r[i - 1], r[i], n, rounds, g);
    }
  }

  /** Blocked for good unless someone acts: waiting, not notified. */
  predicate Asleep(t: Thread) { t.Waiting? && !t.notified }

  /**
   Safety of every interleaving: nobody completes a call before everybody has entered that call,
   completed counts differ by at most one, and the count is the threshold less the current waiters.
   */
  lemma BarrierSafety(r: seq<System>, n: nat, rounds: nat, i: nat)
    requires 1 <= n < SIZE_T && Run(r, n, rounds) && i < |r|
    ensures |r[i].threads| == n
    ensures forall t, u :: 0 <= t < n && 0 <= u < n ==>
      r[i].threads[t].done <= Entered(r[i].threads[u]) && r[i].threads[t].done <= r[i].threads[u].done + 1
    ensures r[i].b.count == n - CurrentWaiters(r[i].threads, r[i].b.generation) >= 1
  {
    var g := RunInv(r, n, rounds, i);
  }

  /**
   What the wait predicate means: the generation differs from the one a waiter remembers if and only
   if every thread has entered the call that waiter is in, wrap-around of the generation included.
   */
  lemma LeavesWhenAllHaveEntered(r: seq<System>, n: nat, rounds: nat, i: nat, t: nat)
    requires 1 <= n < SIZE_T && Run(r, n, rounds) && i < |r| && t < |r[i].threads| && r[i].threads[t].Waiting?
    ensures r[i].threads[t].lGen != r[i].b.generation
      <==> forall u :: 0 <= u < |r[i].threads| ==> Entered(r[i].threads[u]) >= r[i].threads[t].done + 1
  {
    var g := RunInv(r, n, rounds, i);
    var s := r[i];
    if s.threads[t].done + 1 == g {
      GenerationsDiffer(g - 1);
    } else {
      var u := SomeoneMissing(s, n, rounds, g);
    }
  }

  lemma SomeoneMissing(s: System, n: nat, rounds: nat, g: nat) returns (u: nat)
    requires Inv(s, n, rounds, g)
    ensures u < n && Entered(s.threads[u]) == g
  {
    if forall t :: 0 <= t < n ==> IsCurrent(s.threads[t], s.b.generation) {
      AllCount(s.threads, s.b.generation);
      assert false;
    }
    u :| 0 <= u < n && !IsCurrent(s.threads[u], s.b.generation);
  }

  /** No wake-up is lost: the threads that sleep are exactly those whose generation is the current one. */
  lemma NoLostWakeup(r: seq<System>, n: nat, rounds: nat, i: nat, t: nat)
    requires 1 <= n < SIZE_T && Run(r, n, rounds) && i < |r| && t < n
    ensures |r[i].threads| == n
    ensures Asleep(r[i].threads[t]) <==> IsCurrent(r[i].threads[t], r[i].b.generation)
  {
    var g := RunInv(r, n, rounds, i);
    if g > 0 { GenerationsDiffer(g - 1); }
  }

  /** Never stuck: while a thread has calls left, some thread can act without a spurious wake-up. */
  lemma SomeoneCanAct(r: seq<System>, n: nat, rounds: nat, i: nat) returns (t: nat)
    requires 1 <= n < SIZE_T && Run(r, n, rounds) && i < |r|
    requires exists u :: 0 <= u < |r[i].threads| && r[i].threads[u] != Outside(rounds)
    ensures t < |r[i].threads| && !Asleep(r[i].threads[t]) && r[i].threads[t] != Outside(rounds)
    ensures exists s' :: Step(r[i], t, s', rounds) && s' != r[i]
  {
    var g := RunInv(r, n, rounds, i);
    var s := r[i];
    var u :| 0 <= u < n && s.threads[u] != Outside(rounds);
    if s.threads[u].Outside? || s.threads[u].notified {
      t := u;
    } else {
      t := SomeoneIsAwake(s, n, rounds, g);
    }
    if s.threads[t].Outside? {
      assert Step(s, t, Enter(s, t), rounds);
      assert Enter(s, t).threads[t] != s.threads[t];
    } else {
      GenerationsDiffer(s.threads[t].done);
      assert Step(s, t, Wake(s, t), rounds);
      assert Wake(s, t).threads[t] != s.threads[t];
    }
  }

  /** All threads blocked is unreachable. */
  lemma SomeoneIsAwake(s: System, n: nat, rounds: nat, g: nat) returns (t: nat)
    requires Inv(s, n, rounds, g)
    ensures t < n && !Asleep(s.threads[t])
  {
    if forall u :: 0 <= u < n ==> Asleep(s.threads[u]) {
      AllCount(s.threads, s.b.generation);
      assert false;
    }
    t :| 0 <= t < n && !Asleep(s.threads[t]);
  }

  lemma {:induction false} AllCount(ts: seq<Thread>, generation: nat)
    requires forall i :: 0 <= i < |ts| ==> IsCurrent(ts[i], generation)
    ensures CurrentWaiters(ts, generation) == |ts|
  {
    if ts == [] {
    } else {
      AllCount(ts[..|ts| - 1], generation);
    }
  }

  // ----- Every change is progress.

  /** The critical sections thread t still has to run. */
  function Left(t: Thread, rounds: nat): int {
    2 * (rounds - t.done) - if t.Waiting? then 1 else 0
  }

  function Work(ts: seq<Thread>, rounds: nat): int {
    if ts == [] then 0 else Work(ts[..|ts| - 1], rounds) + Left(ts[|ts| - 1], rounds)
  }

  lemma {:induction false} WorkDrops(ts: seq<Thread>, us: seq<Thread>, rounds: nat, t: nat)
    requires |ts| == |us| && t < |ts| && Left(us[t], rounds) < Left(ts[t], rounds)
    requires forall i :: 0 <= i < |ts| && i != t ==> Left(us[i], rounds) == Left(ts[i], rounds)
    ensures Work(us, rounds) < Work(ts, rounds)
  {
    var k := |ts| - 1;
    if t == k {
      WorkSame(ts[..k], us[..k], rounds);
    } else {
      WorkDrops(ts[..k], us[..k], rounds, t);
    }
  }

  lemma {:induction false} WorkSame(ts: seq<Thread>, us: seq<Thread>, rounds: nat)
    requires |ts| == |us| && forall i :: 0 <= i < |ts| ==> Left(us[i], rounds) == Left(ts[i], rounds)
    ensures Work(us, rounds) == Work(ts, rounds)
  {
    if ts == [] {
    } else {
      WorkSame(ts[..|ts| - 1], us[..|us| - 1], rounds);
    }
  }

  lemma {:induction false} WorkBounds(ts: seq<Thread>, rounds: nat)
    requires forall i :: 0 <= i < |ts| ==> 0 <= Left(ts[i], rounds)
    ensures Work(ts, rounds) >= 0
  {
    if ts == [] {
    } else {
      WorkBounds(ts[..|ts| - 1], rounds);
    }
  }

  /** A step leaves the system as it was (a spurious wake-up) or brings the end of the run nearer. */
  lemma ChangeIsProgress(r: seq<System>, n: nat, rounds: nat, i: nat)
    requires 1 <= n < SIZE_T && Run(r, n, rounds) && i + 1 < |r|
    ensures r[i + 1] == r[i] || 0 <= Work(r[i + 1].threads, rounds) < Work(r[i].threads, rounds)
  {
    var g := RunInv(r, n, rounds, i);
    var g' := RunInv(r, n, rounds, i + 1);
    assert Next(r[i], r[i + 1], rounds);
    var t: nat :| Step(r[i], t, r[i + 1], rounds);
    if r[i + 1] != r[i] {
      WorkDrops(r[i].threads, r[i + 1].threads, rounds, t);
      WorkBounds(r[i + 1].threads, rounds);
    }
  }

  // ----- Every run ends, and ends with all calls made.

  /** No step changes the state any more. */
  ghost predicate AtRest(s: System, rounds: nat) {
    forall t: nat, s' :: Step(s, t, s', rounds) ==> s' == s
  }

  lemma {:induction false} WorkOfFresh(ts: seq<Thread>, rounds: nat)
    requires forall i :: 0 <= i < |ts| ==> ts[i] == Outside(0)
    ensures Work(ts, rounds) == 2 * rounds * |ts|
  {
    if ts == [] {
    } else {
      WorkOfFresh(ts[..|ts| - 1], rounds);
      assert 2 * rounds * |ts| == 2 * rounds * (|ts| - 1) + 2 * rounds;
    }
  }

  lemma {:induction false} StepsUseUpWork(r: seq<System>, n: nat, rounds: nat, i: nat)
    requires 1 <= n < SIZE_T && Run(r, n, rounds) && i < |r|
    requires forall j :: 0 <= j < |r| - 1 ==> r[j + 1] != r[j]
    ensures Work(r[i].threads, rounds) + i <= 2 * rounds * n
  {
    if i == 0 {
      WorkOfFresh(r[0].threads, rounds);
    } else {
      StepsUseUpWork(r, n, rounds, i - 1);
      ChangeIsProgress(r, n, rounds, i - 1);
    }
  }

  /** A run in which every step changes something has at most two steps for every call of every thread. */
  lemma RunsAreShort(r: seq<System>, n: nat, rounds: nat)
    requires 1 <= n < SIZE_T && Run(r, n, rounds)
    requires forall j :: 0 <= j < |r| - 1 ==> r[j + 1] != r[j]
    ensures |r| - 1 <= 2 * rounds * n
  {
    var last := |r| - 1;
    StepsUseUpWork(r, n, rounds, last);
    if last > 0 {
      ChangeIsProgress(r, n, rounds, last - 1);
    }
  }

  /** A run comes to rest exactly when every thread has made all of its calls. */
  lemma RestMeansAllDone(r: seq<System>, n: nat, rounds: nat, i: nat)
    requires 1 <= n < SIZE_T && Run(r, n, rounds) && i < |r|
    ensures AtRest(r[i], rounds) <==> forall t :: 0 <= t < |r[i].threads| ==> r[i].threads[t] == Outside(rounds)
  {
    if exists u :: 0 <= u < |r[i].threads| && r[i].threads[u] != Outside(rounds) {
      var t := SomeoneCanAct(r, n, rounds, i);
      var s' :| Step(r[i], t, s', rounds) && s' != r[i];
    }
  }
}
