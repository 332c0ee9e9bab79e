/** Runs of cached overload resolution by many dispatches, which may share overloads: a method
    inherited by a class is in the dispatches of both, while the hash is stored once, in the method
    (native/common/jp_methoddispatch.cpp:218). */
module Caching {
  import opened Methods
  import opened Dispatch

  /** Overload lists, one per dispatch. */
  type Dispatches = seq<seq<Method>>

  /** The cache of every dispatch, and the hash stored in every method, -1 if none. */
  datatype State = State(last: seq<Method?>, hashes: map<Method, int>)

  datatype Request = Request(dispatch: nat, call: Call)

  function Hash(st: State, m: Method?): int { if m != null && m in st.hashes then st.hashes[m] else -1 }

  function Initial(sys: Dispatches): State { State(seq(|sys|, _ => null), map[]) }

  function Answer(sys: Dispatches, st: State, r: Request): Outcome
    requires |st.last| == |sys| && r.dispatch < |sys|
  {
    Cached(sys[r.dispatch], st.last[r.dispatch], Hash(st, st.last[r.dispatch]), r.call)
  }

  /** One call of MethodDispatch.FindOverload. */
  function After(sys: Dispatches, st: State, r: Request): (t: State)
    requires |st.last| == |sys| && r.dispatch < |sys|
    ensures |t.last| == |sys|
  {
    var a := Answer(sys, st, r);
    var stored := st.hashes.Keys + if a.Resolved? then {a.overload} else {};
    State(st.last[r.dispatch := LastAfter(a, st.last[r.dispatch])],
          map m | m in stored :: HashAfter(a, r.call, m, Hash(st, m)))
  }

  ghost predicate ValidRun(sys: Dispatches, calls: iset<Call>, rs: seq<Request>) {
    forall i :: 0 <= i < |rs| ==> rs[i].dispatch < |sys| && rs[i].call in calls
  }

  /** Every answer in the run is the one an uncached scan would give. */
  ghost predicate Agrees(sys: Dispatches, st: State, rs: seq<Request>)
    requires |st.last| == |sys| && forall i :: 0 <= i < |rs| ==> rs[i].dispatch < |sys|
    decreases |rs|
  {
    rs != [] ==>
      && Answer(sys, st, rs[0]) == Plain(sys[rs[0].dispatch], rs[0].call)
      && Agrees(sys, After(sys, st, rs[0]), rs[1..])
  }

  /** The hash determines how the call matches every overload. */
  ghost predicate HashDecides(sys: Dispatches, calls: iset<Call>) {
    forall a, b :: a in calls && b in calls && a.hash == b.hash ==>
      && a.instance == b.instance
      && forall d: nat, m :: d < |sys| && m in sys[d] ==> Fit(m, a) == Fit(m, b)
  }

  /** If dispatch d chooses an overload for call a, and dispatch e the same one for call b, then d
      chooses it for b too. */
  predicate Alike(sys: Dispatches, d: nat, e: nat, a: Call, b: Call)
    requires d < |sys| && e < |sys|
  {
    Plain(sys[d], a).Resolved? && Plain(sys[d], a) == Plain(sys[e], b) && !Plain(sys[d], a).overload.isVarArgs
    ==> Plain(sys[d], b) == Plain(sys[e], b)
  }

  ghost predicate SharedAlike(sys: Dispatches, calls: iset<Call>) {
    forall d: nat, e: nat, a, b :: d < |sys| && e < |sys| && a in calls && b in calls ==> Alike(sys, d, e, a, b)
  }

  // ----- agreement on every run

  lemma {:induction false} ScannedDependsOnFit(ms: seq<Method>, a: Call, b: Call, k: nat)
    requires k <= |ms| && a.instance == b.instance && forall m :: m in ms ==> Fit(m, a) == Fit(m, b)
    ensures Scanned(ms, a, k) == Scanned(ms, b, k)
    ensures Scanned(ms, a, k).best != null ==> Scanned(ms, a, k).best in ms
  {
    hide Fit;
    if k > 0 { ScannedDependsOnFit(ms, a, b, k - 1); }
  }

  ghost predicate Chosen(sys: Dispatches, d: nat, a: Call, m: Method)
    requires d < |sys|
  {
    Plain(sys[d], a) == Resolved(m)
  }

  /** A cached overload was once chosen by its dispatch, and a stored hash is that of a call for which
      some dispatch chose the overload. */
  ghost predicate CacheInvariant(sys: Dispatches, calls: iset<Call>, st: State) {
    && |st.last| == |sys|
    && (forall d: nat :: d < |sys| && st.last[d] != null ==>
          st.last[d] in st.hashes && exists a :: a in calls && Chosen(sys, d, a, st.last[d]))
    && (forall m :: m in st.hashes ==>
          exists e: nat, b :: e < |sys| && b in calls && b.hash == st.hashes[m] && Chosen(sys, e, b, m))
  }

  lemma AnswerAgrees(sys: Dispatches, calls: iset<Call>, st: State, r: Request)
    requires HashDecides(sys, calls) && SharedAlike(sys, calls) && CacheInvariant(sys, calls, st)
    requires r.dispatch < |sys| && r.call in calls
    ensures Answer(sys, st, r) == Plain(sys[r.dispatch], r.call)
  {
    hide Fit, Plain, HashDecides;
    var d, c, m := r.dispatch, r.call, st.last[r.dispatch];
    if m != null && !m.isVarArgs && Hash(st, m) == c.hash && Fit(m, c) >= IMPLICIT {
      var a :| a in calls && Chosen(sys, d, a, m);
      var e: nat, b :| e < |sys| && b in calls && b.hash == st.hashes[m] && Chosen(sys, e, b, m);
      SameHashSamePlain(sys, calls, e, b, c);
      assert Alike(sys, d, e, a, c);
    }
  }

  lemma InvariantKept(sys: Dispatches, calls: iset<Call>, st: State, r: Request)
    requires CacheInvariant(sys, calls, st) && r.dispatch < |sys| && r.call in calls
    requires Answer(sys, st, r) == Plain(sys[r.dispatch], r.call)
    ensures CacheInvariant(sys, calls, After(sys, st, r))
  {
    hide Fit, Plain, Answer;
    var answer := Answer(sys, st, r);
    if answer.Resolved? {
      assert Chosen(sys, r.dispatch, r.call, answer.overload);
    }
  }

  lemma SameHashSamePlain(sys: Dispatches, calls: iset<Call>, e: nat, a: Call, b: Call)
    requires HashDecides(sys, calls) && e < |sys| && a in calls && b in calls && a.hash == b.hash
    ensures Plain(sys[e], a) == Plain(sys[e], b)
  {
    hide Fit;
    ScannedDependsOnFit(sys[e], a, b, |sys[e]|);
  }

  lemma {:induction false} RunAgrees(sys: Dispatches, calls: iset<Call>, st: State, rs: seq<Request>)
    requires HashDecides(sys, calls) && SharedAlike(sys, calls) && CacheInvariant(sys, calls, st)
    requires ValidRun(sys, calls, rs)
    ensures Agrees(sys, st, rs)
    decreases |rs|
  {
    assert |st.last| == |sys|;
    if rs != [] {
      hide HashDecides, SharedAlike, CacheInvariant, Answer, After;
      AnswerAgrees(sys, calls, st, rs[0]);
      InvariantKept(sys, calls, st, rs[0]);
      RunAgrees(sys, calls, After(sys, st, rs[0]), rs[1..]);
    }
  }

  /** Three calls suffice to show a shared overload up: d chooses it, e overwrites its hash, and d is
      then asked what e was asked. */
  lemma SharedOverloadMisleads(sys: Dispatches, calls: iset<Call>, d: nat, e: nat, a: Call, b: Call)
    requires d < |sys| && e < |sys| && a in calls && b in calls
    requires !Alike(sys, d, e, a, b)
    ensures var rs := [Request(d, a), Request(e, b), Request(d, b)];
            ValidRun(sys, calls, rs) && !Agrees(sys, Initial(sys), rs)
  {
    hide Fit, Plain;
    var rs := [Request(d, a), Request(e, b), Request(d, b)];
    var m := Plain(sys[d], a).overload;
    var s1 := After(sys, Initial(sys), rs[0]);
    var s2 := After(sys, s1, rs[1]);
    ResolvedFits(sys[e], b);
    ThreeAgree(sys, Initial(sys), rs[0], rs[1], rs[2]);
    if Answer(sys, Initial(sys), rs[0]) == Resolved(m) && Answer(sys, s1, rs[1]) == Resolved(m) {
      assert s2.last[d] == m && Hash(s2, m) == b.hash;
    }
  }

  lemma ThreeAgree(sys: Dispatches, st: State, r: Request, s: Request, t: Request)
    requires |st.last| == |sys| && r.dispatch < |sys| && s.dispatch < |sys| && t.dispatch < |sys|
    ensures var st1 := After(sys, st, r);
            var st2 := After(sys, st1, s);
            Agrees(sys, st, [r, s, t]) <==>
              && Answer(sys, st, r) == Plain(sys[r.dispatch], r.call)
              && Answer(sys, st1, s) == Plain(sys[s.dispatch], s.call)
              && Answer(sys, st2, t) == Plain(sys[t.dispatch], t.call)
  {
    hide Answer, After, Plain;
    var rs := [r, s, t];
    assert rs[1..] == [s, t] && [s, t][1..] == [t];
    assert Agrees(sys, After(sys, After(sys, st, r), s), [t])
      <==> Answer(sys, After(sys, After(sys, st, r), s), t) == Plain(sys[t.dispatch], t.call);
  }

  lemma ResolvedFits(ms: seq<Method>, c: Call)
    requires Plain(ms, c).Resolved?
    ensures Fit(Plain(ms, c).overload, c) >= IMPLICIT
  {
    ScanKeepsInvariant(ms, c, |ms|);
  }

  /** When the hash decides how calls match, caching is invisible in every run of every length
      exactly if shared overloads are chosen alike. */
  lemma CacheInvisibleIffSharedAlike(sys: Dispatches, calls: iset<Call>)
    requires HashDecides(sys, calls)
    ensures SharedAlike(sys, calls)
       <==> forall rs :: ValidRun(sys, calls, rs) ==> Agrees(sys, Initial(sys), rs)
  {
    hide Fit, Plain, HashDecides, Agrees;
    if SharedAlike(sys, calls) {
      forall rs | ValidRun(sys, calls, rs) ensures Agrees(sys, Initial(sys), rs) {
        RunAgrees(sys, calls, Initial(sys), rs);
      }
    } else {
      var d: nat, e: nat, a, b :| d < |sys| && e < |sys| && a in calls && b in calls && !Alike(sys, d, e, a, b);
      SharedOverloadMisleads(sys, calls, d, e, a, b);
    }
  }

  /** In particular it is if no overload is in two dispatches. */
  lemma UnsharedIsInvisible(sys: Dispatches, calls: iset<Call>, rs: seq<Request>)
    requires HashDecides(sys, calls) && ValidRun(sys, calls, rs)
    requires forall d: nat, e: nat, m :: d < |sys| && e < |sys| && m in sys[d] && m in sys[e] ==> d == e
    ensures Agrees(sys, Initial(sys), rs)
  {
    hide Fit;
    forall d: nat, e: nat, a, b | d < |sys| && e < |sys| && a in calls && b in calls
      ensures Alike(sys, d, e, a, b)
    {
      ScannedDependsOnFit(sys[d], a, a, |sys[d]|);
      ScannedDependsOnFit(sys[e], b, b, |sys[e]|);
    }
    CacheInvisibleIffSharedAlike(sys, calls);
  }

  /** A class that overloads an inherited method is already enough: f(Object) is in the dispatch of
      the base class and, beside f(String), in that of the derived class. */
  method InheritedOverload() returns (sys: Dispatches, a: Call, b: Call)
    ensures |sys| == 2 && |sys[0]| == 2 && |sys[1]| == 1
    ensures HashDecides(sys, iset{a, b}) && !SharedAlike(sys, iset{a, b})
  {
    var onObject := new Method(true, false, false, [Scalar(_ => IMPLICIT)], []);
    var onString := new Method(true, false, false, [Scalar(x => if x == 1 then EXACT else NONE)], [onObject]);
    sys := [[onString, onObject], [onObject]];
    a, b := CallData([0], false, 10), CallData([1], false, 11);
    FitOne(onObject, a);
    FitOne(onObject, b);
    FitOne(onString, a);
    FitOne(onString, b);
    SharedUnlike(onString, onObject, a, b);
    hide Fit, Plain;
    assert !Alike(sys, 0, 1, a, b);
  }

  /** A call that only one overload matches, and one that the other, tried first, matches exactly. */
  lemma SharedUnlike(m: Method, shared: Method, a: Call, b: Call)
    requires Fit(m, a) == NONE && Fit(m, b) == EXACT && Fit(shared, a) == Fit(shared, b) == IMPLICIT
    ensures Plain([m, shared], a) == Plain([shared], b) == Resolved(shared) && Plain([m, shared], b) == Resolved(m)
  {
    FirstSteps([m, shared], a);
    FirstSteps([m, shared], b);
    FirstSteps([shared], b);
    hide Fit, Scanned;
  }
}
