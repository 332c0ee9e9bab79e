/** Model of the watermark policy in native/common/jp_gc.cpp: when the end of a Python collection
    should trigger a Java one. */
module GcPolicy {
  const DELTA_LIMIT: nat := 20 * 1024 * 1024

  /** The fields the policy keeps. */
  datatype Water = Water(low: nat, high: nat, limit: nat, last: nat)

  function Max(a: int, b: int): int { if a < b then b else a }

  /** The value of the fields before the first call of init. */
  const EMPTY := Water(0, 0, 0, 0)

  function OnInit(w: Water, size: nat): Water { w.(high := size, limit := size + DELTA_LIMIT) }

  datatype Verdict = Verdict(water: Water, systemGc: bool)

  /** Raise or lower the watermarks to the new size; at a new low, relax towards it. */
  function Level(w: Water, current: nat): Water {
    var high := if current > w.high then current else w.high;
    var low := if current < w.low then current else w.low;
    if current == low then
      Water(low, if high > low + 4 * DELTA_LIMIT then low + 4 * DELTA_LIMIT else high, (w.limit + high) / 2, w.last)
    else Water(low, high, w.limit, w.last)
  }

  /** The decision at the end of a collection, with the limits it moves. */
  function Sample(w: Water, current: nat): Verdict {
    var v := Level(w, current);
    if current < v.last then Verdict(v.(last := current), false)
    else
      var over := current > v.limit;
      var limit := if over then v.high + DELTA_LIMIT else v.limit;
      var predicted := current + 2 * (current - v.last) > limit;
      if over || predicted then
        Verdict(Water((v.low + v.high) / 2, v.high,
                      if predicted then v.high + v.high / 8 else limit, current), true)
      else Verdict(Water(v.low, v.high, limit, current), false)
  }

  // ----- every sequence of samples

  datatype Event = Start(size: nat) | End(size: nat)

  function React(w: Water, e: Event): Water {
    match e
    case Start(size) => OnInit(w, size)
    case End(size) => Sample(w, size).water
  }

  function Reacted(es: seq<Event>): Water {
    if es == [] then EMPTY else React(Reacted(es[..|es| - 1]), es[|es| - 1])
  }

  /** The largest size ever seen. */
  function Largest(es: seq<Event>): nat {
    if es == [] then 0 else Max(Largest(es[..|es| - 1]), es[|es| - 1].size)
  }

  /** After a sample low water is at most high water, and a triggered collection leaves the current
      size within the limit, whatever state the sample found. */
  lemma SampleSettles(w: Water, current: nat)
    ensures var v := Sample(w, current);
            && v.water.low <= v.water.high && v.water.last == current
            && (v.systemGc ==> current <= v.water.limit && current <= v.water.high)
  {
  }

  /** The size two steps ahead if it keeps growing as it just did. */
  function Forecast(w: Water, current: int): int { current + 2 * (current - w.last) }

  /** The two tests of the source, current size against the limit and prediction against the limit
      possibly just raised, come to one: a System.gc is triggered exactly if the size has not shrunk and
      its forecast passes the limit in force. Then the limit is reset from high water, by an eighth if
      even the limit raised by the delta is not enough, or the size itself is within the old limit; and
      otherwise, unless the size shrank, the forecast is within the limit that stays. */
  lemma TriggerIsForecast(w: Water, current: nat)
    ensures var v, before := Sample(w, current), Level(w, current);
            && (v.systemGc <==> current >= w.last && Forecast(w, current) > before.limit)
            && v.water.high == before.high
            && (v.systemGc ==> v.water.low == (before.low + before.high) / 2)
            && (v.systemGc ==>
                  v.water.limit == if current > before.limit && Forecast(w, current) <= before.high + DELTA_LIMIT
                                   then before.high + DELTA_LIMIT else before.high + before.high / 8)
            && (!v.systemGc ==> v.water.limit == before.limit && v.water.low == before.low)
  {
    hide Level;
    assert Level(w, current).last == w.last by { LevelKeepsLast(w, current); }
  }

  lemma LevelKeepsLast(w: Water, current: nat)
    ensures Level(w, current).last == w.last
  {
  }

  ghost predicate NearLargest(w: Water, most: nat) {
    w.high <= most && w.limit <= most + Max(DELTA_LIMIT, most / 8)
  }

  lemma LevelStaysNear(w: Water, most: nat, current: nat)
    requires NearLargest(w, most)
    ensures NearLargest(Level(w, current), Max(most, current))
  {
  }

  lemma SampleStaysNear(w: Water, most: nat, current: nat)
    requires NearLargest(w, most)
    ensures NearLargest(Sample(w, current).water, Max(most, current))
  {
    LevelStaysNear(w, most, current);
    hide Level;
  }

  /** Over every sequence of starts and samples, high water never passes the largest size seen, the
      limit passes it by at most the larger of the delta limit and an eighth of it, and after every
      sample low water is at most high water. */
  lemma {:induction false} WatermarksStayNear(es: seq<Event>)
    requires es != [] && es[0].Start?
    ensures NearLargest(Reacted(es), Largest(es))
    ensures es[|es| - 1].End? ==> Reacted(es).low <= Reacted(es).high
  {
    var front, e := es[..|es| - 1], es[|es| - 1];
    if |es| > 1 {
      WatermarksStayNear(front);
      hide Sample;
      if e.End? {
        SampleStaysNear(Reacted(front), Largest(front), e.size);
        SampleSettles(Reacted(front), e.size);
      }
    } else {
      assert Reacted(front) == EMPTY;
    }
  }

  // ----- the callbacks of a Python collection

  /** What init and the callbacks work on. */
  datatype Sampler = Sampler(running: bool, inPythonGc: bool, water: Water, systemGcs: nat)

  /** init */
  function Begun(s: Sampler, size: nat): Sampler { s.(running := true, water := OnInit(s.water, size)) }

  /** shutdown */
  function Stopped(s: Sampler): Sampler { s.(running := false) }

  /** onStart, on a thread that is forcing a collection or not */
  function Started(s: Sampler, forcing: bool): Sampler {
    if s.running && !forcing then s.(inPythonGc := true) else s
  }

  /** Whether this end of a collection is sampled. */
  predicate Sampled(s: Sampler, forcing: bool) { s.running && !forcing && s.inPythonGc }

  /** onEnd, with the size it would measure */
  function Ended(s: Sampler, forcing: bool, size: nat): Sampler {
    if !Sampled(s, forcing) then s
    else
      var v := Sample(s.water, size);
      s.(inPythonGc := false, water := v.water, systemGcs := s.systemGcs + if v.systemGc then 1 else 0)
  }

  /** On threads that are not forcing, while running, a start and an end make one sample, whatever came
      before: the policy is applied to the size once, with one more System.gc exactly if it says so, and
      a further end without a start does nothing. */
  lemma StartAndEndSample(s: Sampler, size: nat, later: nat, forcing: bool)
    requires s.running
    ensures var t, v := Ended(Started(s, false), false, size), Sample(s.water, size);
            && t.running && !t.inPythonGc && t.water == v.water
            && t.systemGcs == s.systemGcs + (if v.systemGc then 1 else 0)
            && Ended(t, forcing, later) == t
  {
  }

  /** The callbacks of a forcing thread, and all of them before init or after shutdown, do nothing. */
  lemma IdleCallbacks(s: Sampler, size: nat, forcing: bool)
    ensures Started(s, true) == s && Ended(s, true, size) == s
    ensures var t := Stopped(s); !t.running && t.water == s.water && Started(t, forcing) == t == Ended(t, forcing, size)
    ensures !s.running ==> Started(s, forcing) == s && Ended(s, forcing, size) == s
  {
  }

  /** The first Python collection behind init triggers System.gc exactly if three times its size passes
      the size at the start by more than the delta limit. */
  lemma FirstSample(start: nat, size: nat)
    ensures var s := Begun(Sampler(false, false, EMPTY, 0), start);
            s.running && (Ended(Started(s, false), false, size).systemGcs == 1 <==> 3 * size > start + DELTA_LIMIT)
  {
    TriggerIsForecast(OnInit(EMPTY, start), size);
    hide Sample;
  }

  /** The marks after a size is taken in: low water is the lowest size, and high water the highest unless
      the size is the lowest. Then high water comes within four delta limits of it, and the limit goes
      half way to the highest. */
  lemma MarksFollow(w: Water, current: nat)
    ensures var v := Level(w, current);
            && v.low <= current <= v.high && v.low <= w.low && (v.low == w.low || v.low == current)
            && (w.low < current ==> v.high == Max(w.high, current) && v.limit == w.limit)
            && (current <= w.low ==>
                  && v.high == -Max(-Max(w.high, current), -(current + 4 * DELTA_LIMIT))
                  && v.limit == (w.limit + Max(w.high, current)) / 2)
  {
  }

  // ----- the code

  /** The sampled part of JPGarbageCollection. `forcing` stands for the thread-local
      forcing_collection of the thread that runs the callback. */
  class Collector {
    var running: bool
    var inPythonGc: bool
    var lowWater: nat
    var highWater: nat
    var limit: nat
    var last: nat
    var pythonTriggered: nat

    function Fields(): Water
      reads this
    {
      Water(lowWater, highWater, limit, last)
    }

    function Sampling(): Sampler
      reads this
    {
      Sampler(running, inPythonGc, Fields(), pythonTriggered)
    }

    constructor ()
      ensures !running && !inPythonGc && Fields() == EMPTY && pythonTriggered == 0
    {
      running, inPythonGc, pythonTriggered := false, false, 0;
      lowWater, highWater, limit, last := 0, 0, 0, 0;
    }

    method Init(size: nat)
      modifies this
      ensures Sampling() == Begun(old(Sampling()), size)
    {
      running := true;
      highWater := size;
      limit := highWater + DELTA_LIMIT;
    }

    method Shutdown()
      modifies this`running
      ensures Sampling() == Stopped(old(Sampling()))
    {
      running := false;
    }

    method OnStart(forcing: bool)
      modifies this`inPythonGc
      ensures Sampling() == Started(old(Sampling()), forcing)
    {
      if !running || forcing { return; }
      inPythonGc := true;
    }

    method MoveMarks(current: nat)
      modifies this`lowWater, this`highWater, this`limit
      ensures Fields() == Level(old(Fields()), current)
    {
      if current > highWater { highWater := current; }
      if current < lowWater { lowWater := current; }
      if current == lowWater {
        limit := (limit + highWater) / 2;
        if highWater > lowWater + 4 * DELTA_LIMIT { highWater := lowWater + 4 * DELTA_LIMIT; }
      }
    }

    method OnEnd(forcing: bool, current: nat) returns (systemGc: bool)
      modifies this
      ensures Sampling() == Ended(old(Sampling()), forcing, current)
      ensures systemGc <==> pythonTriggered == old(pythonTriggered) + 1
    {
      hide Level;
      systemGc := false;
      if !running || forcing { return; }
      if !inPythonGc { return; }
      inPythonGc := false;
      var runGc := 0;
      MoveMarks(current);
      if current < last {
        last := current;
        return;
      }
      if current > limit {
        limit := highWater + DELTA_LIMIT;
        runGc := 1;
      }
      var slope := current - last;
      var pred := current + 2 * slope;
      last := current;
      if pred > limit {
        runGc := 2;
        limit := highWater + highWater / 8;
      }
      if runGc > 0 {
        lowWater := (lowWater + highWater) / 2;
        systemGc := true;
        pythonTriggered := pythonTriggered + 1;
      }
    }
  }
}
