/** Model of thread attachment in native/common/jp_context.cpp: attach, detach, the implicit attach of
    getEnv, and the per-thread destructor that detaches a thread when it exits. The thread that starts
    the JVM is attached by the JVM itself, and not registered. */
module ThreadAttachment {
  /** A native thread. `attached` is the JVM's record of it, `byJPype` says that JPype made that
      attachment, `registered` is the thread-local slot of the destructor, and `frames` counts the Java
      methods on its stack. `stranded` records a detach that the JVM refused, since the latest
      registration. */
  datatype Thread = Thread(alive: bool, attached: bool, byJPype: bool, registered: bool, frames: nat, stranded: bool)

  /** The JVM starts at most once. */
  datatype State = State(started: bool, running: bool, threads: seq<Thread>)

  datatype Event =
    | Start(t: nat)           // startJVM
    | Attach(t: nat)          // attachCurrentThread, attachCurrentThreadAsDaemon
    | GetEnv(t: nat)
    | Detach(t: nat)          // detachCurrentThread
    | Exit(t: nat)
    | ForeignAttach(t: nat)   // by other native code
    | ForeignDetach(t: nat)
    | EnterJava(t: nat)
    | LeaveJava(t: nat)
    | Shutdown

  const NEW := Thread(true, false, false, false, 0, false)

  function Initial(n: nat): State { State(false, false, seq(n, _ => NEW)) }

  /** The JVM attaches a thread, or leaves an attached one alone. */
  function JvmAttach(x: Thread, byJPype: bool): Thread {
    if x.attached then x else x.(attached := true, byJPype := byJPype)
  }

  /** The JVM refuses to detach a thread with Java methods on its stack. */
  function JvmDetach(x: Thread): Thread {
    if x.frames > 0 then x else x.(attached := false, byJPype := false)
  }

  /** What an event does to the thread it is about, while that thread lives. */
  function OnThread(x: Thread, running: bool, e: Event): Thread {
    match e
    case Start(_) => JvmAttach(x, false)
    case Attach(_) => if running then JvmAttach(x, true).(registered := true, stranded := false) else x
    case GetEnv(_) =>
      if running && !x.attached then JvmAttach(x, true).(registered := true, stranded := false) else x
    case Detach(_) => JvmDetach(x).(registered := false, stranded := x.frames > 0)
    case Exit(_) =>
      if x.frames > 0 then x
      else if x.registered && running then JvmDetach(JvmAttach(x, true)).(alive := false, registered := false)
      else x.(alive := false, registered := false)
    case ForeignAttach(_) => if running then JvmAttach(x, false) else x
    case ForeignDetach(_) => JvmDetach(x)
    case EnterJava(_) => if x.attached then x.(frames := x.frames + 1) else x
    case LeaveJava(_) => if x.frames > 0 then x.(frames := x.frames - 1) else x
    case Shutdown => x
  }

  function Do(s: State, e: Event): State {
    if e.Shutdown? then s.(running := false)
    else if e.t < |s.threads| && s.threads[e.t].alive && (e.Start? ==> !s.started) then
      s.(threads := s.threads[e.t := OnThread(s.threads[e.t], s.running, e)],
         started := s.started || e.Start?, running := s.running || e.Start?)
    else s
  }

  function Run(n: nat, es: seq<Event>): State {
    if es == [] then Initial(n) else Do(Run(n, es[..|es| - 1]), es[|es| - 1])
  }

  /** A living thread that JPype attached will be detached by its destructor unless a detach was refused;
      an exited one is still attached only in that case. */
  predicate Tracked(x: Thread, started: bool, running: bool) {
    && (running ==> started) && (!started ==> !x.attached)
    && (x.frames > 0 ==> x.alive && x.attached)
    && (x.alive && x.attached && x.byJPype ==> (x.registered <==> !x.stranded))
    && (!x.alive && running ==> (x.attached && x.byJPype ==> x.stranded))
  }

  lemma OnThreadKeepsTracked(x: Thread, started: bool, running: bool, e: Event)
    requires Tracked(x, started, running) && x.alive && (e.Start? ==> !started)
    ensures Tracked(OnThread(x, running, e), started || e.Start?, running || e.Start?)
  {
  }

  lemma {:induction false} RunIsTracked(n: nat, es: seq<Event>, t: nat)
    requires t < n
    ensures var s := Run(n, es); |s.threads| == n && Tracked(s.threads[t], s.started, s.running)
    decreases |es|
  {
    if es != [] {
      RunIsTracked(n, es[..|es| - 1], t);
      var s, e := Run(n, es[..|es| - 1]), es[|es| - 1];
      hide OnThread;
      if !e.Shutdown? && e.t == t && s.threads[t].alive && (e.Start? ==> !s.started) {
        OnThreadKeepsTracked(s.threads[t], s.started, s.running, e);
      }
    }
  }

  /** What the calls achieve for a living thread of a running JVM: attachCurrentThread leaves it attached
      and registered, JPype's own attachment if there was none; getEnv does so if it was not attached, and
      nothing else; detachCurrentThread leaves it unregistered, and detached unless it is inside Java; and
      its exit detaches it if it is registered. */
  lemma CallsAchieve(s: State, t: nat)
    requires t < |s.threads| && s.threads[t].alive && s.running
    ensures var x, y := s.threads[t], Do(s, Attach(t)).threads[t];
            y.attached && y.registered && y.byJPype == (x.byJPype || !x.attached) && y.alive && y.frames == x.frames
    ensures Do(s, GetEnv(t)) == if s.threads[t].attached then s else Do(s, Attach(t))
    ensures var x, y := s.threads[t], Do(s, Detach(t)).threads[t];
            !y.registered && y.alive && y.frames == x.frames && y.attached == (x.attached && x.frames > 0)
    ensures var x, y := s.threads[t], Do(s, Exit(t)).threads[t];
            x.frames == 0 ==> !y.alive && y.attached == (x.attached && !x.registered)
  {
    assert s.threads[t := s.threads[t]] == s.threads;
  }

  /** While no JVM runs nothing is attached, and an exit detaches nothing; and no event concerns two
      threads, or a thread that has exited. */
  lemma CallsLeaveAlone(s: State, t: nat, e: Event)
    requires t < |s.threads|
    ensures var y := Do(s, e).threads; |y| == |s.threads| && (!s.threads[t].alive ==> y[t] == s.threads[t])
    ensures var x, y := s.threads[t], Do(s, e).threads[t];
            e.Shutdown? || e.t != t ==> y == x
    ensures var x, y := s.threads[t], Do(s, e).threads[t];
            !s.running && !e.Start? ==> (y.attached ==> x.attached) && (e.Exit? ==> y.attached == x.attached)
    ensures var r := Do(s, Shutdown); !r.running && r.threads == s.threads
  {
  }

  /** What the JVM records for other calls: attaching by other code, detaching outside Java, and Java
      methods entered and left. */
  lemma OthersAchieve(s: State, t: nat)
    requires t < |s.threads| && s.threads[t].alive && s.running
    ensures var x, y := s.threads[t], Do(s, ForeignAttach(t)).threads[t];
            y.attached && if x.attached then y == x else y == x.(attached := true, byJPype := false)
    ensures var x, y := s.threads[t], Do(s, ForeignDetach(t)).threads[t];
            y.attached == (x.attached && x.frames > 0) && y.registered == x.registered
    ensures var x := s.threads[t];
            x.attached ==>
              var r := Do(s, EnterJava(t)); r.threads[t].frames == x.frames + 1 && Do(r, LeaveJava(t)).threads[t] == x
  {
  }

  // ----- the same on the events of a run

  /** The thread t just before event i. */
  function Before(n: nat, es: seq<Event>, t: nat, i: nat): (x: Thread)
    requires t < n && i <= |es|
  {
    RunIsTracked(n, es[..i], t);
    Run(n, es[..i]).threads[t]
  }

  /** Event i is a detachCurrentThread of t from inside Java, refused by the JVM. */
  predicate Refused(n: nat, es: seq<Event>, t: nat, i: nat)
    requires t < n && i < |es|
  {
    es[i] == Detach(t) && Before(n, es, t, i).frames > 0
  }

  /** Event j registers t for the detach at its exit, or detaches it. */
  predicate Repairs(n: nat, es: seq<Event>, t: nat, j: nat)
    requires t < n && j < |es|
  {
    var x := Before(n, es, t, j);
    x.alive && (es[j] == Attach(t) || (es[j] in {Detach(t), ForeignDetach(t)} && x.frames == 0))
  }

  /** A detach of t was refused at event i, while attached by JPype, and nothing repaired that. */
  ghost predicate AbandonedAt(n: nat, es: seq<Event>, t: nat, i: nat)
    requires t < n && i < |es|
  {
    Refused(n, es, t, i) && Before(n, es, t, i).byJPype && forall j :: i < j < |es| ==> !Repairs(n, es, t, j)
  }

  ghost predicate Abandoned(n: nat, es: seq<Event>, t: nat)
    requires t < n
  {
    exists i :: 0 <= i < |es| && AbandonedAt(n, es, t, i)
  }

  lemma SameBefore(n: nat, es: seq<Event>, t: nat, i: nat)
    requires t < n && i < |es|
    ensures var front := es[..|es| - 1]; i <= |front| && Before(n, es, t, i) == Before(n, front, t, i)
  {
    assert es[..i] == es[..|es| - 1][..i];
  }

  lemma AbandonedAtStep(n: nat, es: seq<Event>, t: nat, i: nat)
    requires t < n && i < |es| - 1
    ensures AbandonedAt(n, es, t, i) <==> AbandonedAt(n, es[..|es| - 1], t, i) && !Repairs(n, es, t, |es| - 1)
  {
    var front := es[..|es| - 1];
    forall j | 0 <= j < |front|
      ensures Before(n, es, t, j) == Before(n, front, t, j)
      ensures Repairs(n, es, t, j) <==> Repairs(n, front, t, j)
    {
      SameBefore(n, es, t, j);
    }
    hide Repairs, Before;
    if AbandonedAt(n, front, t, i) && !Repairs(n, es, t, |es| - 1) {
      forall j | i < j < |es| ensures !Repairs(n, es, t, j) {
        assert j < |front| ==> !Repairs(n, front, t, j);
      }
    }
    if AbandonedAt(n, es, t, i) {
      forall j | i < j < |front| ensures !Repairs(n, front, t, j) { assert !Repairs(n, es, t, j); }
    }
  }

  lemma AbandonedStep(n: nat, es: seq<Event>, t: nat)
    requires t < n && es != []
    ensures var k, front := |es| - 1, es[..|es| - 1];
            Abandoned(n, es, t) <==> || (Refused(n, es, t, k) && Before(n, es, t, k).byJPype)
                                     || (Abandoned(n, front, t) && !Repairs(n, es, t, k))
  {
    var k, front := |es| - 1, es[..|es| - 1];
    assert AbandonedAt(n, es, t, k) <==> Refused(n, es, t, k) && Before(n, es, t, k).byJPype;
    hide Refused, Before, AbandonedAt, Repairs;
    forall i | 0 <= i < k
      ensures AbandonedAt(n, es, t, i) <==> AbandonedAt(n, front, t, i) && !Repairs(n, es, t, k)
    {
      AbandonedAtStep(n, es, t, i);
    }
  }

  lemma {:induction false} NothingBeforeStart(n: nat, es: seq<Event>, t: nat)
    requires t < n && !Run(n, es).started
    ensures !Run(n, es).running && !Abandoned(n, es, t)
    ensures |Run(n, es).threads| == n && !Run(n, es).threads[t].attached && Run(n, es).threads[t].frames == 0
    decreases |es|
  {
    if es != [] {
      NothingBeforeStart(n, es[..|es| - 1], t);
      AbandonedStep(n, es, t);
    }
  }

  lemma {:induction false} StrandedIffAbandoned(n: nat, es: seq<Event>, t: nat)
    requires t < n && Run(n, es).running
    ensures |Run(n, es).threads| == n
    ensures var x := Run(n, es).threads[t]; x.attached && x.byJPype && x.stranded <==> Abandoned(n, es, t)
    decreases |es|
  {
    RunIsTracked(n, es, t);
    if es != [] {
      var front, e := es[..|es| - 1], es[|es| - 1];
      RunIsTracked(n, front, t);
      AbandonedStep(n, es, t);
      if Run(n, front).running {
        StrandedIffAbandoned(n, front, t);
      } else {
        NothingBeforeStart(n, front, t);
      }
    }
  }

  /** Over every interleaving, while the JVM runs an exited thread that JPype attached remains attached
      exactly if it once asked for a detach from inside Java and neither attached explicitly nor was
      detached after that. */
  lemma ExitedStaysAttachedIff(n: nat, es: seq<Event>, t: nat)
    requires t < n && Run(n, es).running
    ensures |Run(n, es).threads| == n
    ensures var x := Run(n, es).threads[t]; !x.alive ==> (x.attached && x.byJPype <==> Abandoned(n, es, t))
  {
    RunIsTracked(n, es, t);
    StrandedIffAbandoned(n, es, t);
  }

  /** So a thread that never asks for a detach from inside Java is detached when it exits. */
  lemma ExitedThreadsAreDetached(n: nat, es: seq<Event>, t: nat)
    requires t < n && Run(n, es).running && forall i :: 0 <= i < |es| ==> !Refused(n, es, t, i)
    ensures |Run(n, es).threads| == n
    ensures var x := Run(n, es).threads[t]; !x.alive ==> !(x.attached && x.byJPype)
  {
    ExitedStaysAttachedIff(n, es, t);
    assert forall i :: 0 <= i < |es| ==> !AbandonedAt(n, es, t, i);
  }

  /** A callback from Java that detaches its own thread leaves it attached for good. */
  lemma DetachInsideJavaLeaks()
    ensures var s := Run(2, [Start(1), GetEnv(0), EnterJava(0), Detach(0), LeaveJava(0), Exit(0)]);
            |s.threads| == 2 && s.running && !s.threads[0].alive && s.threads[0].attached && s.threads[0].byJPype
  {
    var es := [Start(1), GetEnv(0), EnterJava(0), Detach(0), LeaveJava(0), Exit(0)];
    assert es[..5][..4] == es[..4] && es[..4][..3] == es[..3] && es[..3][..2] == es[..2];
    assert es[..2][..1] == es[..1] && es[..1][..0] == [];
    assert Run(2, es[..1]) == State(true, true, [NEW, NEW.(attached := true)]);
    assert Run(2, es[..2]).threads[0] == NEW.(attached := true, byJPype := true, registered := true);
    assert Run(2, es[..3]).threads[0].frames == 1;
    assert Run(2, es[..4]).threads[0] == Thread(true, true, true, false, 1, true);
    assert Run(2, es[..5]).threads[0] == Thread(true, true, true, false, 0, true);
  }

  /** The thread that started the JVM stays attached when it exits, by the JVM's own doing: getEnv finds
      it attached and registers nothing. Only attachCurrentThread makes its exit detach it. */
  lemma StarterStaysAttached()
    ensures var s := Run(1, [Start(0), GetEnv(0), Exit(0)]);
            |s.threads| == 1 && s.running && !s.threads[0].alive && s.threads[0].attached && !s.threads[0].byJPype
    ensures var s := Run(1, [Start(0), Attach(0), Exit(0)]);
            |s.threads| == 1 && s.running && !s.threads[0].alive && !s.threads[0].attached
  {
    var es, fs := [Start(0), GetEnv(0), Exit(0)], [Start(0), Attach(0), Exit(0)];
    assert es[..2][..1] == es[..1] && fs[..2][..1] == fs[..1] && es[..1][..0] == [] && fs[..1][..0] == [];
    assert Run(1, es[..1]) == Run(1, fs[..1]) == State(true, true, [NEW.(attached := true)]);
    assert Run(1, es[..2]).threads[0] == NEW.(attached := true);
    assert Run(1, fs[..2]).threads[0] == NEW.(attached := true, registered := true);
  }
}
