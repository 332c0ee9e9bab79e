/** Model of JPGarbageCollection::triggered in native/common/jp_gc.cpp: any number of threads
    reflecting Java collections into Python ones, one atomic operation at a time, interleaved with
    each other, with a monotone clock, and with the callbacks of every Python collection. */
module GcProtocol {
  import opened GcPolicy

  const MIN_INTERVAL: int := 50_000_000  // FORCED_GC_MIN_INTERVAL_NS
  const BACKOFF: int := 4                // FORCED_GC_BACKOFF

  /** Where a thread is inside triggered. */
  datatype Pc =
    | Idle          // outside, or about to read `running`
    | Claim         // about to exchange forcing_gc
    | ReadNow       // holds the claim, about to read the clock
    | Compare       // about to compare that time with next_forced_ns
    | GiveUp        // too early, about to drop the claim
    | Begin         // about to read the start time
    | Collect       // inside PyGC_Collect, forcing_collection set
    | Finish        // forcing_collection cleared, about to read the end time
    | Store         // about to store next_forced_ns
    | Release       // about to drop the claim

  datatype Thread = Thread(pc: Pc, now: int, start: int, end: int, forcing: bool)

  /** A forced collection; `end` is meaningful once `ended`. */
  datatype Forced = Forced(start: int, end: int, ended: bool)

  datatype State = State(
    clock: int, forcingGc: bool, nextForced: int, sampler: Sampler,
    threads: seq<Thread>, history: seq<Forced>)

  datatype Event =
    | Advance(thread: nat)                  // the thread's next atomic operation
    | Tick(elapsed: nat)
    | CollectionStarts(thread: nat)         // the gc callbacks, run on some thread
    | CollectionEnds(thread: nat, size: nat)
    | Startup(size: nat)
    | Stop

  function Initial(threads: nat, clock: int): State {
    State(clock, false, 0, Sampler(false, false, EMPTY, 0), seq(threads, _ => Thread(Idle, 0, 0, 0, false)), [])
  }

  function Operate(s: State, t: nat): (r: State)
    requires t < |s.threads|
    ensures |r.threads| == |s.threads|
    ensures forall u :: 0 <= u < |s.threads| && u != t ==> r.threads[u] == s.threads[u]
  {
    var me := s.threads[t];
    match me.pc
    case Idle => if s.sampler.running then Put(s, t, me.(pc := Claim)) else s
    case Claim =>
      if s.forcingGc then Put(s, t, me.(pc := Idle)) else Put(s, t, me.(pc := ReadNow)).(forcingGc := true)
    case ReadNow => Put(s, t, me.(pc := Compare, now := s.clock))
    case Compare => Put(s, t, me.(pc := if me.now < s.nextForced then GiveUp else Begin))
    case GiveUp => Put(s, t, me.(pc := Idle)).(forcingGc := false)
    case Begin =>
      Put(s, t, me.(pc := Collect, start := s.clock, forcing := true))
        .(history := s.history + [Forced(s.clock, 0, false)])
    case Collect => Put(s, t, me.(pc := Finish, forcing := false))
    case Finish =>
      Put(s, t, me.(pc := Store, end := s.clock)).(history := CloseLast(s.history, s.clock))
    case Store =>
      Put(s, t, me.(pc := Release))
        .(nextForced := me.end + Max(MIN_INTERVAL, BACKOFF * (me.end - me.start)))
    case Release => Put(s, t, me.(pc := Idle)).(forcingGc := false)
  }

  function Put(s: State, t: nat, me: Thread): State
    requires t < |s.threads|
  {
    s.(threads := s.threads[t := me])
  }

  function CloseLast(h: seq<Forced>, now: int): seq<Forced> {
    if h == [] then [] else h[|h| - 1 := Forced(h[|h| - 1].start, now, true)]
  }

  function Do(s: State, e: Event): State {
    match e
    case Advance(t) => if t < |s.threads| then Operate(s, t) else s
    case Tick(elapsed) => s.(clock := s.clock + elapsed)
    case CollectionStarts(t) =>
      if t < |s.threads| then s.(sampler := Started(s.sampler, s.threads[t].forcing)) else s
    case CollectionEnds(t, size) =>
      if t < |s.threads| then s.(sampler := Ended(s.sampler, s.threads[t].forcing, size)) else s
    case Startup(size) => s.(sampler := Begun(s.sampler, size))
    case Stop => s.(sampler := Stopped(s.sampler))
  }

  function Run(s: State, es: seq<Event>): State
    decreases |es|
  {
    if es == [] then s else Do(Run(s, es[..|es| - 1]), es[|es| - 1])
  }

  // ----- what every run keeps

  predicate Holding(pc: Pc) { pc != Idle && pc != Claim }

  /** The thread is executing the forced collection, between its start and end times. */
  predicate Forcing(pc: Pc) { pc == Collect || pc == Finish }

  /** The cool-down imposed by a finished collection. */
  function Cooled(f: Forced): int { f.end + Max(MIN_INTERVAL, BACKOFF * (f.end - f.start)) }

  ghost predicate Spaced(h: seq<Forced>) {
    && (forall i :: 0 <= i < |h| - 1 ==> h[i].ended && Cooled(h[i]) <= h[i + 1].start)
    && (forall i :: 0 <= i < |h| && h[i].ended ==> h[i].start <= h[i].end)
  }

  /** The claim is held by at most one thread, and exactly when forcing_gc is set. */
  ghost predicate Exclusive(s: State) {
    && (forall t :: 0 <= t < |s.threads| && Holding(s.threads[t].pc) ==> s.forcingGc)
    && (forall t, u :: 0 <= t < u < |s.threads| ==> !(Holding(s.threads[t].pc) && Holding(s.threads[u].pc)))
    && (s.forcingGc ==> exists t :: 0 <= t < |s.threads| && Holding(s.threads[t].pc))
  }

  /** What the claim holder's position says about the history and next_forced_ns. */
  ghost predicate Consistent(s: State, me: Thread) {
    var h := s.history;
    match me.pc
    case Compare => me.now <= s.clock
    case Begin => s.nextForced <= s.clock
    case Collect => h != [] && !h[|h| - 1].ended && h[|h| - 1].start == me.start <= s.clock
    case Finish => h != [] && !h[|h| - 1].ended && h[|h| - 1].start == me.start <= s.clock
    case Store => h != [] && h[|h| - 1] == Forced(me.start, me.end, true)
    case _ => true
  }

  /** Between collections the last one is closed and its cool-down stored. */
  ghost predicate Stored(s: State) {
    var h := s.history;
    h != [] ==> h[|h| - 1].ended && Cooled(h[|h| - 1]) <= s.nextForced
  }

  /** No thread has a collection begun whose cool-down is not yet stored. */
  ghost predicate NoneBusy(s: State) {
    forall t :: 0 <= t < |s.threads| ==> !(Forcing(s.threads[t].pc) || s.threads[t].pc == Store)
  }

  ghost predicate Safe(s: State) {
    && Exclusive(s) && Spaced(s.history)
    && (forall t :: 0 <= t < |s.threads| ==> Consistent(s, s.threads[t]))
    && (NoneBusy(s) ==> Stored(s))
    && Flagged(s)
  }

  /** forcing_collection is set on a thread exactly while it is inside its forced collection. */
  ghost predicate Flagged(s: State) {
    forall t :: 0 <= t < |s.threads| ==> s.threads[t].forcing == (s.threads[t].pc == Collect)
  }

  lemma KeepsExclusive(s: State, t: nat)
    requires Safe(s) && t < |s.threads|
    ensures Exclusive(Operate(s, t))
  {
    var r := Operate(s, t);
    if r.forcingGc {
      if Holding(r.threads[t].pc) {
      } else {
        var u :| 0 <= u < |s.threads| && Holding(s.threads[u].pc);
        assert u != t && Holding(r.threads[u].pc);
      }
    }
  }

  /** Apart from the holder of the claim no thread writes anything but itself. */
  lemma OthersIdle(s: State, t: nat, u: nat)
    requires Exclusive(s) && t < |s.threads| && u < |s.threads| && t != u && Holding(s.threads[u].pc)
    ensures var r := Operate(s, t);
            && r.threads[u] == s.threads[u] && r.history == s.history && r.nextForced == s.nextForced
            && r.clock == s.clock
  {
    assert !Holding(s.threads[t].pc);
  }

  lemma HolderConsistent(s: State, t: nat)
    requires t < |s.threads| && Consistent(s, s.threads[t])
    ensures var r := Operate(s, t); Consistent(r, r.threads[t])
  {
  }

  lemma KeepsConsistent(s: State, t: nat, u: nat)
    requires Safe(s) && t < |s.threads| && u < |s.threads|
    ensures var r := Operate(s, t); Consistent(r, r.threads[u])
  {
    assert Consistent(s, s.threads[u]);
    if u == t {
      HolderConsistent(s, t);
    } else if Holding(s.threads[u].pc) {
      OthersIdle(s, t, u);
    } else {
      assert Operate(s, t).threads[u] == s.threads[u];
    }
  }

  lemma KeepsSpaced(s: State, t: nat)
    requires Safe(s) && t < |s.threads|
    ensures Spaced(Operate(s, t).history)
  {
    assert Consistent(s, s.threads[t]);
    if s.threads[t].pc == Begin {
      assert NoneBusy(s);
    }
  }

  lemma KeepsStored(s: State, t: nat)
    requires Safe(s) && t < |s.threads| && NoneBusy(Operate(s, t))
    ensures Stored(Operate(s, t))
  {
    var r, pc := Operate(s, t), s.threads[t].pc;
    assert Consistent(s, s.threads[t]);
    if pc != Store {
      assert pc != Begin && !Forcing(pc) by { assert !Forcing(r.threads[t].pc) && r.threads[t].pc != Store; }
      forall u | 0 <= u < |s.threads| ensures !(Forcing(s.threads[u].pc) || s.threads[u].pc == Store) {
        assert u != t ==> r.threads[u] == s.threads[u];
      }
      assert NoneBusy(s);
    }
  }

  lemma KeepsFlagged(s: State, t: nat)
    requires Flagged(s) && t < |s.threads|
    ensures Flagged(Operate(s, t))
  {
  }

  lemma OperateKeepsSafe(s: State, t: nat)
    requires Safe(s) && t < |s.threads|
    ensures Safe(Operate(s, t))
  {
    hide Operate, Exclusive, Spaced, Consistent, Stored, NoneBusy, Flagged;
    KeepsExclusive(s, t);
    KeepsSpaced(s, t);
    KeepsFlagged(s, t);
    var r := Operate(s, t);
    if NoneBusy(r) { KeepsStored(s, t); }
    forall u | 0 <= u < |r.threads| ensures Consistent(r, r.threads[u]) {
      KeepsConsistent(s, t, u);
    }
  }

  lemma DoKeepsSafe(s: State, e: Event)
    requires Safe(s)
    ensures Safe(Do(s, e))
  {
    if e.Advance? && e.thread < |s.threads| {
      OperateKeepsSafe(s, e.thread);
    } else {
      hide Operate, Sample;
      var r := Do(s, e);
      assert r.threads == s.threads && r.history == s.history && r.nextForced == s.nextForced;
      forall u | 0 <= u < |r.threads| ensures Consistent(r, r.threads[u]) {
        assert Consistent(s, s.threads[u]);
      }
    }
  }

  lemma {:induction false} RunIsSafe(threads: nat, clock: int, es: seq<Event>)
    ensures Safe(Run(Initial(threads, clock), es))
    decreases |es|
  {
    if es != [] {
      RunIsSafe(threads, clock, es[..|es| - 1]);
      hide Safe, Do;
      DoKeepsSafe(Run(Initial(threads, clock), es[..|es| - 1]), es[|es| - 1]);
    }
  }

  // ----- main results

  /** Total length of the first n forced collections. */
  function Spent(h: seq<Forced>, n: nat): int
    requires n <= |h|
  {
    if n == 0 then 0 else Spent(h, n - 1) + h[n - 1].end - h[n - 1].start
  }

  lemma {:induction false} SpacingBounds(h: seq<Forced>, n: nat)
    requires Spaced(h) && n < |h|
    ensures (BACKOFF + 1) * Spent(h, n) <= h[n].start - h[0].start
    ensures n * MIN_INTERVAL <= h[n].start - h[0].start
  {
    if n > 0 {
      SpacingBounds(h, n - 1);
      assert Cooled(h[n - 1]) <= h[n].start;
    }
  }

  /** In every run of any number of threads, forcing_gc is set exactly while some thread holds the
      claim, so it is never leaked; at most one forced collection is in progress; and from
      the first start to start n + 1 at least five times the time spent in the first n collections
      passes, and at least n times 50 ms. */
  lemma ForcedCollectionsAreThrottled(threads: nat, clock: int, es: seq<Event>)
    ensures var s := Run(Initial(threads, clock), es);
            && (s.forcingGc <==> exists t :: 0 <= t < |s.threads| && Holding(s.threads[t].pc))
            && (forall t, u :: 0 <= t < u < |s.threads| ==>
                  !(Forcing(s.threads[t].pc) && Forcing(s.threads[u].pc)))
            && (forall i :: 0 <= i < |s.history| - 1 ==> s.history[i].ended)
            && (forall n :: 0 <= n < |s.history| ==>
                  && (BACKOFF + 1) * Spent(s.history, n) <= s.history[n].start - s.history[0].start
                  && n * MIN_INTERVAL <= s.history[n].start - s.history[0].start)
  {
    RunIsSafe(threads, clock, es);
    var s := Run(Initial(threads, clock), es);
    forall n | 0 <= n < |s.history|
      ensures (BACKOFF + 1) * Spent(s.history, n) <= s.history[n].start - s.history[0].start
      ensures n * MIN_INTERVAL <= s.history[n].start - s.history[0].start
    {
      SpacingBounds(s.history, n);
    }
  }

  /** The callbacks of a forced collection change nothing: it never triggers System.gc. */
  lemma ForcedCollectionIsNotSampled(threads: nat, clock: int, es: seq<Event>, t: nat, size: nat)
    requires var s := Run(Initial(threads, clock), es); t < |s.threads| && s.threads[t].pc == Collect
    ensures var s := Run(Initial(threads, clock), es);
            Do(s, CollectionStarts(t)) == s && Do(s, CollectionEnds(t, size)) == s
  {
    RunIsSafe(threads, clock, es);
    assert Flagged(Run(Initial(threads, clock), es));
  }

  /** k operations of thread t in a row. */
  function Operations(s: State, t: nat, k: nat): (r: State)
    requires t < |s.threads|
    ensures |r.threads| == |s.threads|
  {
    if k == 0 then s else Operate(Operations(s, t, k - 1), t)
  }

  /** What the first five operations of a trigger do: claim, read the clock, compare, begin. */
  lemma ReachesCollection(s: State, t: nat)
    requires t < |s.threads| && s.threads[t].pc == Idle && s.sampler.running && !s.forcingGc && s.nextForced <= s.clock
    ensures Operations(s, t, 5) == Put(s, t, Thread(Collect, s.clock, s.clock, s.threads[t].end, true))
              .(forcingGc := true, history := s.history + [Forced(s.clock, 0, false)])
  {
    var s1 := Operate(s, t);
    var s2 := Operate(s1, t);
    assert s2 == Put(s, t, s.threads[t].(pc := ReadNow)).(forcingGc := true);
    var s4 := Operate(Operate(s2, t), t);
    assert s4 == Put(s, t, s.threads[t].(pc := Begin, now := s.clock)).(forcingGc := true);
    Unrolled(s, t);
  }

  lemma Unrolled(s: State, t: nat)
    requires t < |s.threads|
    ensures Operations(s, t, 4) == Operate(Operate(Operate(Operate(s, t), t), t), t)
    ensures Operations(s, t, 5) == Operate(Operations(s, t, 4), t)
  {
    hide Operate;
    assert Operations(s, t, 1) == Operate(s, t);
    assert Operations(s, t, 2) == Operate(Operate(s, t), t);
    assert Operations(s, t, 3) == Operate(Operations(s, t, 2), t);
  }

  lemma CompletesCollection(s: State, t: nat)
    requires t < |s.threads| && s.threads[t].pc == Collect && s.history != []
    ensures var me, r := s.threads[t], Operations(s, t, 4);
            && r.threads[t].pc == Idle && !r.forcingGc && r.history == CloseLast(s.history, s.clock)
            && r.nextForced == s.clock + Max(MIN_INTERVAL, BACKOFF * (s.clock - me.start))
  {
    var s2 := Operate(Operate(s, t), t);
    assert s2 == Put(s, t, s.threads[t].(pc := Store, end := s.clock, forcing := false))
      .(history := CloseLast(s.history, s.clock));
    Unrolled(s, t);
  }

  /** A trigger that finds the claim free and the cool-down over, and that is not interrupted, does
      collect: five operations bring it into the collection, and after `work` nanoseconds four more
      leave the claim free and the cool-down of exactly this collection stored. */
  lemma UncontendedTriggerCollects(s: State, t: nat, work: nat)
    requires t < |s.threads| && s.threads[t].pc == Idle && s.sampler.running && !s.forcingGc && s.nextForced <= s.clock
    ensures var during := Operations(s, t, 5);
            var r := Operations(Do(during, Tick(work)), t, 4);
            && during.threads[t].pc == Collect && during.history == s.history + [Forced(s.clock, 0, false)]
            && r.threads[t].pc == Idle && !r.forcingGc
            && r.history == s.history + [Forced(s.clock, s.clock + work, true)]
            && r.nextForced == s.clock + work + Max(MIN_INTERVAL, BACKOFF * work)
  {
    hide Operate, Operations;
    ReachesCollection(s, t);
    CompletesCollection(Do(Operations(s, t, 5), Tick(work)), t);
  }

  /** A trigger that finds the claim taken, or one before init or after shutdown, returns at once and
      changes nothing; one that comes before the cool-down is over drops its claim and does not collect. */
  lemma OtherTriggersReturn(s: State, t: nat)
    requires t < |s.threads| && s.threads[t].pc == Idle
    ensures !s.sampler.running ==> Operate(s, t) == s
    ensures s.sampler.running && s.forcingGc ==> Operate(Operate(s, t), t) == s
    ensures s.sampler.running && !s.forcingGc && s.clock < s.nextForced ==>
              var r := Operations(s, t, 5); r == Put(s, t, r.threads[t]) && r.threads[t].pc == Idle
  {
    if s.sampler.running && s.forcingGc {
      assert Operate(Operate(s, t), t).threads == s.threads;
    } else if s.sampler.running && s.clock < s.nextForced {
      GivesUp(s, t);
    }
  }

  lemma GivesUp(s: State, t: nat)
    requires t < |s.threads| && s.threads[t].pc == Idle && s.sampler.running && !s.forcingGc && s.clock < s.nextForced
    ensures Operations(s, t, 5) == Put(s, t, s.threads[t].(now := s.clock))
  {
    var s2 := Operate(Operate(s, t), t);
    assert s2 == Put(s, t, s.threads[t].(pc := ReadNow)).(forcingGc := true);
    var s4 := Operate(Operate(s2, t), t);
    assert s4 == Put(s, t, s.threads[t].(pc := GiveUp, now := s.clock)).(forcingGc := true);
    Unrolled(s, t);
  }

  /** Whatever happens between shutdown and the next start: no thread outside triggered enters it, nothing
      is sampled and System.gc is not triggered. */
  lemma {:induction false} NothingAfterStop(threads: nat, clock: int, es: seq<Event>, more: seq<Event>, t: nat)
    requires t < threads && forall i :: 0 <= i < |more| ==> !more[i].Startup?
    ensures var s, r := Run(Initial(threads, clock), es), Run(Initial(threads, clock), es + [Stop] + more);
            && !r.sampler.running && r.sampler.water == s.sampler.water && r.sampler.systemGcs == s.sampler.systemGcs
            && |s.threads| == |r.threads| == threads
            && (s.threads[t].pc == Idle ==> r.threads[t] == s.threads[t])
    decreases |more|
  {
    ThreadsStay(threads, clock, es);
    ThreadsStay(threads, clock, es + [Stop] + more);
    if more == [] {
      assert es + [Stop] + more == es + [Stop] && (es + [Stop])[..|es|] == es;
      hide Operate, Sample;
    } else {
      var n := |more| - 1;
      var all := es + [Stop] + more;
      NothingAfterStop(threads, clock, es, more[..n], t);
      assert all[..|all| - 1] == es + [Stop] + more[..n] && all[|all| - 1] == more[n];
      QuietStep(Run(Initial(threads, clock), es + [Stop] + more[..n]), more[n], t);
      hide Do, Sample;
    }
  }

  lemma QuietStep(s: State, e: Event, t: nat)
    requires !s.sampler.running && !e.Startup? && t < |s.threads|
    ensures var r := Do(s, e);
            && !r.sampler.running && r.sampler.water == s.sampler.water && r.sampler.systemGcs == s.sampler.systemGcs
            && |r.threads| == |s.threads| && (s.threads[t].pc == Idle ==> r.threads[t] == s.threads[t])
  {
    hide Sample;
    if e.Advance? && e.thread < |s.threads| && e.thread != t {
      assert Operate(s, e.thread).threads[t] == s.threads[t];
      OperateKeepsSampler(s, e.thread);
    }
  }

  // ----- which collections are sampled, in terms of the events of the run

  /** Event i is a callback on a thread that is not inside its forced collection, while running. */
  predicate Counts(threads: nat, clock: int, es: seq<Event>, i: nat)
    requires i < |es|
  {
    var s, e := Run(Initial(threads, clock), es[..i]), es[i];
    && (e.CollectionStarts? || e.CollectionEnds?) && e.thread < |s.threads|
    && s.sampler.running && s.threads[e.thread].pc != Collect
  }

  /** There was such a start, and no such end since. */
  ghost predicate Marked(threads: nat, clock: int, es: seq<Event>) {
    exists i :: 0 <= i < |es| && MarkedBy(threads, clock, es, i)
  }

  ghost predicate MarkedBy(threads: nat, clock: int, es: seq<Event>, i: nat)
    requires i < |es|
  {
    && es[i].CollectionStarts? && Counts(threads, clock, es, i)
    && forall j :: i < j < |es| && es[j].CollectionEnds? ==> !Counts(threads, clock, es, j)
  }

  lemma SameCounts(threads: nat, clock: int, es: seq<Event>, i: nat)
    requires i < |es| - 1
    ensures Counts(threads, clock, es, i) <==> Counts(threads, clock, es[..|es| - 1], i)
  {
    assert es[..|es| - 1][..i] == es[..i];
  }

  lemma MarkedStep(threads: nat, clock: int, es: seq<Event>)
    requires es != []
    ensures var n := |es| - 1;
            Marked(threads, clock, es) <==>
              || (es[n].CollectionStarts? && Counts(threads, clock, es, n))
              || (Marked(threads, clock, es[..n]) && !(es[n].CollectionEnds? && Counts(threads, clock, es, n)))
  {
    var n := |es| - 1;
    var front := es[..n];
    forall i | 0 <= i < n
      ensures Counts(threads, clock, es, i) <==> Counts(threads, clock, front, i)
    {
      SameCounts(threads, clock, es, i);
    }
    hide Counts;
    forall i | 0 <= i < n
      ensures MarkedBy(threads, clock, es, i)
         <==> MarkedBy(threads, clock, front, i) && !(es[n].CollectionEnds? && Counts(threads, clock, es, n))
    {
      if MarkedBy(threads, clock, es, i) {
        forall j | i < j < n && front[j].CollectionEnds? ensures !Counts(threads, clock, front, j) {
          assert es[j].CollectionEnds?;
        }
      } else if MarkedBy(threads, clock, front, i) && !(es[n].CollectionEnds? && Counts(threads, clock, es, n)) {
        forall j | i < j <= n && es[j].CollectionEnds? ensures !Counts(threads, clock, es, j) {
          if j < n { assert front[j].CollectionEnds?; }
        }
      }
    }
    assert MarkedBy(threads, clock, es, n) <==> es[n].CollectionStarts? && Counts(threads, clock, es, n);
    hide MarkedBy;
  }

  lemma {:induction false} FlagIffMarked(threads: nat, clock: int, es: seq<Event>)
    ensures Run(Initial(threads, clock), es).sampler.inPythonGc <==> Marked(threads, clock, es)
    decreases |es|
  {
    if es != [] {
      var n := |es| - 1;
      FlagIffMarked(threads, clock, es[..n]);
      MarkedStep(threads, clock, es);
      RunIsSafe(threads, clock, es[..n]);
      var s := Run(Initial(threads, clock), es[..n]);
      assert Flagged(s);
      hide Operate, Sample, Marked, Safe;
      if es[n].Advance? && es[n].thread < |s.threads| { OperateKeepsSampler(s, es[n].thread); }
    }
  }

  /** In every run exactly those ends are sampled that find a Python collection under way: a start on any
      thread, not inside a forced collection, since the last such end. */
  lemma SampledIffMarked(threads: nat, clock: int, es: seq<Event>, t: nat, size: nat)
    requires t < threads
    ensures var more := es + [CollectionEnds(t, size)];
            Samples(threads, clock, more) == Samples(threads, clock, es)
              + if Marked(threads, clock, es) && Counts(threads, clock, more, |es|) then [End(size)] else []
  {
    var more := es + [CollectionEnds(t, size)];
    assert more[..|es|] == es;
    FlagIffMarked(threads, clock, es);
    RunIsSafe(threads, clock, es);
    assert Flagged(Run(Initial(threads, clock), es));
    ThreadsStay(threads, clock, es);
    hide Marked, Safe, Operate;
  }

  lemma {:induction false} ThreadsStay(threads: nat, clock: int, es: seq<Event>)
    ensures |Run(Initial(threads, clock), es).threads| == threads
    decreases |es|
  {
    if es != [] {
      ThreadsStay(threads, clock, es[..|es| - 1]);
      hide Operate, Sample;
    }
  }

  /** So while running, a start and an end outside forced collections add one sample, of the end's size. */
  lemma StartAndEndAreSampled(threads: nat, clock: int, es: seq<Event>, t: nat, u: nat, size: nat)
    requires t < threads && u < threads && |Run(Initial(threads, clock), es).threads| == threads
    requires var s := Run(Initial(threads, clock), es);
             s.sampler.running && s.threads[t].pc != Collect && s.threads[u].pc != Collect
    ensures Samples(threads, clock, es + [CollectionStarts(t), CollectionEnds(u, size)])
         == Samples(threads, clock, es) + [End(size)]
  {
    var one := es + [CollectionStarts(t)];
    var two := one + [CollectionEnds(u, size)];
    assert es + [CollectionStarts(t), CollectionEnds(u, size)] == two;
    assert one[..|es|] == es && two[..|one|] == one;
    assert MarkedBy(threads, clock, one, |es|);
    SampledIffMarked(threads, clock, one, u, size);
    hide Marked, Samples, Operate;
    assert Samples(threads, clock, one) == Samples(threads, clock, es) by { StartAddsNone(threads, clock, es, t); }
  }

  lemma StartAddsNone(threads: nat, clock: int, es: seq<Event>, t: nat)
    ensures Samples(threads, clock, es + [CollectionStarts(t)]) == Samples(threads, clock, es)
  {
    assert (es + [CollectionStarts(t)])[..|es|] == es;
  }

  /** The starts and sampled sizes of a run, in order. */
  function Samples(threads: nat, clock: int, es: seq<Event>): seq<GcPolicy.Event>
    decreases |es|
  {
    if es == [] then []
    else
      var front, e := es[..|es| - 1], es[|es| - 1];
      var s, before := Run(Initial(threads, clock), front), Samples(threads, clock, front);
      match e
      case Startup(size) => before + [Start(size)]
      case CollectionEnds(t, size) =>
        if t < |s.threads| && Sampled(s.sampler, s.threads[t].forcing) then before + [End(size)] else before
      case _ => before
  }

  lemma {:induction false} WaterFollowsSamples(threads: nat, clock: int, es: seq<Event>)
    ensures var s, samples := Run(Initial(threads, clock), es), Samples(threads, clock, es);
            && s.sampler.water == Reacted(samples)
            && (samples == [] ==> !s.sampler.running) && (samples != [] ==> samples[0].Start?)
    decreases |es|
  {
    if es != [] {
      var front, e := es[..|es| - 1], es[|es| - 1];
      var before, after := Samples(threads, clock, front), Samples(threads, clock, es);
      WaterFollowsSamples(threads, clock, front);
      WaterStep(Run(Initial(threads, clock), front), e);
      hide Do, Sample, OnInit, Sampled;
      assert after == before || after[..|after| - 1] == before;
    }
  }

  lemma WaterStep(s: State, e: Event)
    ensures var t := Do(s, e).sampler;
            && (t.running && !s.sampler.running ==> e.Startup?)
            && t.water == match e
                          case Startup(size) => OnInit(s.sampler.water, size)
                          case CollectionEnds(u, size) =>
                            if u < |s.threads| && Sampled(s.sampler, s.threads[u].forcing)
                            then Sample(s.sampler.water, size).water else s.sampler.water
                          case _ => s.sampler.water
  {
    hide Operate, Sample, OnInit;
    if e.Advance? && e.thread < |s.threads| { OperateKeepsSampler(s, e.thread); }
  }

  lemma OperateKeepsSampler(s: State, t: nat)
    requires t < |s.threads|
    ensures Operate(s, t).sampler == s.sampler
  {
  }

  /** In every run the watermarks obey the policy's bounds on the sizes sampled so far. */
  lemma WatermarksInEveryRun(threads: nat, clock: int, es: seq<Event>)
    requires Samples(threads, clock, es) != []
    ensures NearLargest(Run(Initial(threads, clock), es).sampler.water, Largest(Samples(threads, clock, es)))
  {
    WaterFollowsSamples(threads, clock, es);
    WatermarksStayNear(Samples(threads, clock, es));
  }
}
