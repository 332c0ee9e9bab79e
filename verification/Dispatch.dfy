/** Model of native/common/jp_methoddispatch.cpp: choosing an overload, with a one-entry cache. */
module Dispatch {
  import opened Methods

  datatype Outcome = Resolved(overload: Method) | Ambiguous | NoMatch

  // ----- the scan over the ordered overloads, as a state machine

  datatype Scan = Scan(best: Method?, ambiguous: seq<Method>, done: bool)

  function Step(s: Scan, m: Method, c: Call): Scan {
    var q := Fit(m, c);
    if s.done then s
    else if q == EXACT then Scan(m, s.ambiguous, true)
    else if q < IMPLICIT then s
    else if s.best == null then s.(best := m)
    else if s.best.MoreSpecificThan(m) then s
    else if Suits(m, c) && !Suits(s.best, c) then s.(best := m)
    else if !Suits(m, c) && Suits(s.best, c) then s
    else if Fit(s.best, c) < q then Scan(m, [], false)
    else if Fit(s.best, c) > q then s
    else s.(ambiguous := s.ambiguous + [m])
  }

  /** Whether the overload is of the kind, instance or static, that the call asks for. */
  predicate Suits(m: Method, c: Call) { c.instance == !m.isStatic }

  /** The state after the first k overloads. */
  function Scanned(ms: seq<Method>, c: Call, k: nat): Scan
    requires k <= |ms|
  {
    if k == 0 then Scan(null, [], false) else Step(Scanned(ms, c, k - 1), ms[k - 1], c)
  }

  /** Resolution without a cache. */
  function Plain(ms: seq<Method>, c: Call): Outcome {
    var s := Scanned(ms, c, |ms|);
    if s.ambiguous != [] then Ambiguous else if s.best == null then NoMatch else Resolved(s.best)
  }

  /** Resolution with the overload of the latest success, and the hash now stored in it. */
  function Cached(ms: seq<Method>, last: Method?, hash: int, c: Call): Outcome {
    if last != null && !last.isVarArgs && hash == c.hash && Fit(last, c) >= IMPLICIT then Resolved(last)
    else Plain(ms, c)
  }

  /** The overload a dispatch remembers after a call. */
  function LastAfter(outcome: Outcome, last: Method?): Method? {
    if outcome.Resolved? then outcome.overload else last
  }

  /** The hash stored in overload m after a call. */
  function HashAfter(outcome: Outcome, c: Call, m: Method, hash: int): int {
    if outcome == Resolved(m) then c.hash else hash
  }

  lemma {:induction false} DoneStays(ms: seq<Method>, c: Call, i: nat, k: nat)
    requires i <= k <= |ms| && Scanned(ms, c, i).done
    ensures Scanned(ms, c, k) == Scanned(ms, c, i)
    decreases k - i
  {
    if i < k { DoneStays(ms, c, i, k - 1); }
  }

  /** The first steps of a scan. */
  lemma FirstSteps(ms: seq<Method>, c: Call)
    ensures |ms| >= 1 ==> Scanned(ms, c, 1) == Step(Scan(null, [], false), ms[0], c)
    ensures |ms| >= 2 ==> Scanned(ms, c, 2) == Step(Scanned(ms, c, 1), ms[1], c)
    ensures |ms| >= 3 ==> Scanned(ms, c, 3) == Step(Scanned(ms, c, 2), ms[2], c)
  {
    hide Step;
    assert Scanned(ms, c, 0) == Scan(null, [], false);
  }

  // ----- what the chosen overload is

  /** Overload i was passed over because the best overload at that point is declared more specific. */
  predicate Hidden(ms: seq<Method>, c: Call, i: nat)
    requires i < |ms|
  {
    var s := Scanned(ms, c, i);
    s.best != null && s.best.MoreSpecificThan(ms[i])
  }

  predicate Visited(ms: seq<Method>, c: Call, i: nat)
    requires i < |ms|
  {
    !Scanned(ms, c, i).done
  }

  /** a loses to b: b is of the kind asked for and a is not, or they agree in that and a fits worse
      (no better). */
  predicate Below(a: Method, b: Method, c: Call) {
    (Suits(b, c) && !Suits(a, c)) || (Suits(a, c) == Suits(b, c) && Fit(a, c) < Fit(b, c))
  }
  predicate NotAbove(a: Method, b: Method, c: Call) {
    (Suits(b, c) && !Suits(a, c)) || (Suits(a, c) == Suits(b, c) && Fit(a, c) <= Fit(b, c))
  }

  ghost predicate ScanInvariant(ms: seq<Method>, c: Call, k: nat)
    requires k <= |ms|
  {
    var s := Scanned(ms, c, k);
    && (s.best != null ==> s.best in ms[..k] && IMPLICIT <= Fit(s.best, c) && (s.done <==> Fit(s.best, c) == EXACT))
    && (s.best == null ==> !s.done && s.ambiguous == [])
    && (!s.done ==> forall i :: 0 <= i < k ==> Fit(ms[i], c) < EXACT)
    && (forall i :: 0 <= i < k && Visited(ms, c, i) && Fit(ms[i], c) >= IMPLICIT && ms[i] != s.best ==>
          s.best != null
          && (|| Hidden(ms, c, i)
              || (if s.done then Fit(ms[i], c) < EXACT
                  else if s.ambiguous == [] then Below(ms[i], s.best, c)
                  else NotAbove(ms[i], s.best, c))))
  }

  lemma {:induction false} ScanKeepsInvariant(ms: seq<Method>, c: Call, k: nat)
    requires k <= |ms|
    ensures ScanInvariant(ms, c, k)
  {
    hide Fit;
    if k > 0 {
      ScanKeepsInvariant(ms, c, k - 1);
      var m := ms[k - 1];
      assert ms[..k] == ms[..k - 1] + [m];
    }
  }

  /** A resolved overload matches, and every other matching overload that was looked at was hidden by
      a more specific one, or loses: the kind asked for comes first, quality second, except that an
      exact match beats everything. */
  lemma ChosenIsBest(ms: seq<Method>, c: Call)
    requires Plain(ms, c).Resolved?
    ensures var b := Plain(ms, c).overload;
            && b in ms && Fit(b, c) >= IMPLICIT
            && forall i :: 0 <= i < |ms| && Visited(ms, c, i) && Fit(ms[i], c) >= IMPLICIT && ms[i] != b ==>
                 || Hidden(ms, c, i)
                 || (if Fit(b, c) == EXACT then Fit(ms[i], c) < EXACT else Below(ms[i], b, c))
  {
    ScanKeepsInvariant(ms, c, |ms|);
  }

  /** With overloads all static or all not, quality alone decides. */
  lemma ChosenIsBestAmongEqualKind(ms: seq<Method>, c: Call, isStatic: bool)
    requires Plain(ms, c).Resolved? && forall m :: m in ms ==> m.isStatic == isStatic
    ensures var b := Plain(ms, c).overload;
            && Fit(b, c) >= IMPLICIT
            && forall i :: 0 <= i < |ms| && Visited(ms, c, i) && Fit(ms[i], c) >= IMPLICIT && ms[i] != b ==>
                 Hidden(ms, c, i) || Fit(ms[i], c) < Fit(b, c)
  {
    ChosenIsBest(ms, c);
  }

  /** Nothing matches exactly when resolution reports so. */
  lemma NoMatchIffNoneFits(ms: seq<Method>, c: Call)
    ensures Plain(ms, c).NoMatch? <==> forall m :: m in ms ==> Fit(m, c) < IMPLICIT
  {
    ScanKeepsInvariant(ms, c, |ms|);
    if Plain(ms, c).NoMatch? {
      forall i | 0 <= i < |ms| ensures Fit(ms[i], c) < IMPLICIT && Visited(ms, c, i) {
        if !Visited(ms, c, i) { DoneStays(ms, c, i, |ms|); }
      }
    }
  }

  // ----- when an ambiguity is reported, in terms of overloads and call

  /** Overload i matches and is not hidden by the best overload before it. */
  predicate Visible(ms: seq<Method>, c: Call, i: nat) {
    i < |ms| && Fit(ms[i], c) >= IMPLICIT && !Hidden(ms, c, i)
  }

  /** Overload l beats all the visible ones before it. */
  ghost predicate Leads(ms: seq<Method>, c: Call, l: nat) {
    Visible(ms, c, l) && forall p :: 0 <= p < l && Visible(ms, c, p) ==> Below(ms[p], ms[l], c)
  }

  /** Overload j draws level with the best before it. */
  ghost predicate Ties(ms: seq<Method>, c: Call, j: nat) {
    && Visible(ms, c, j)
    && (forall p :: 0 <= p < j && Visible(ms, c, p) ==> NotAbove(ms[p], ms[j], c))
    && exists p :: 0 <= p < j && Visible(ms, c, p) && !Below(ms[p], ms[j], c)
  }

  /** Overload l takes the lead from another of its own kind; only this makes earlier ties forgotten. */
  ghost predicate Settles(ms: seq<Method>, c: Call, l: nat) {
    && Leads(ms, c, l)
    && exists p :: 0 <= p < l && Visible(ms, c, p) && Suits(ms[p], c) == Suits(ms[l], c)
  }

  /** Among the first k overloads there is a tie that none behind it settles. */
  ghost predicate Pending(ms: seq<Method>, c: Call, k: nat) {
    exists j :: 0 <= j < k && Ties(ms, c, j) && forall l :: j < l < k ==> !Settles(ms, c, l)
  }

  /** The best overload of an unfinished scan is the latest leader. */
  ghost predicate BestIs(ms: seq<Method>, c: Call, k: nat, b: nat) {
    && b < k <= |ms| && Scanned(ms, c, k).best == ms[b] && Leads(ms, c, b)
    && forall p :: 0 <= p < k && Visible(ms, c, p) ==> NotAbove(ms[p], ms[b], c)
  }

  ghost predicate NoneVisible(ms: seq<Method>, c: Call, k: nat) {
    forall p :: 0 <= p < k ==> !Visible(ms, c, p)
  }

  /** Of the first k overloads none is exact. */
  ghost predicate NoExact(ms: seq<Method>, c: Call, k: nat)
    requires k <= |ms|
  {
    forall i :: 0 <= i < k ==> Fit(ms[i], c) != EXACT
  }

  lemma PendingStep(ms: seq<Method>, c: Call, k: nat)
    requires k < |ms|
    ensures Pending(ms, c, k + 1) <==> Ties(ms, c, k) || (Pending(ms, c, k) && !Settles(ms, c, k))
  {
    hide Ties, Settles;
    if Pending(ms, c, k + 1) && !Ties(ms, c, k) {
      var j :| 0 <= j < k + 1 && Ties(ms, c, j) && forall l :: j < l < k + 1 ==> !Settles(ms, c, l);
      assert j != k;
    }
  }

  /** How the next overload, not exact, relates to the best one so far. */
  lemma NextRank(ms: seq<Method>, c: Call, k: nat, b: nat)
    requires k < |ms| && BestIs(ms, c, k, b)
    ensures var better, level := Below(ms[b], ms[k], c), NotAbove(ms[b], ms[k], c);
            && (Leads(ms, c, k) <==> Visible(ms, c, k) && better)
            && (Ties(ms, c, k) <==> Visible(ms, c, k) && level && !better)
            && (Settles(ms, c, k) <==> Leads(ms, c, k) && Suits(ms[b], c) == Suits(ms[k], c))
  {
    hide Fit, Hidden;
    if Leads(ms, c, k) && Suits(ms[b], c) != Suits(ms[k], c) {
      assert !Settles(ms, c, k);
    }
  }

  /** What the scan keeps track of, found again in the overloads. */
  lemma {:induction false} ScanTracks(ms: seq<Method>, c: Call, k: nat)
    requires k <= |ms| && NoExact(ms, c, k)
    ensures !Scanned(ms, c, k).done
    ensures Scanned(ms, c, k).ambiguous != [] <==> Pending(ms, c, k)
    ensures Scanned(ms, c, k).best == null ==> NoneVisible(ms, c, k)
    ensures Scanned(ms, c, k).best != null ==> exists b :: BestIs(ms, c, k, b)
  {
    if k > 0 {
      hide Fit, Pending, Ties, Settles, BestIs;
      ScanTracks(ms, c, k - 1);
      PendingStep(ms, c, k - 1);
      if Scanned(ms, c, k - 1).best == null {
        FirstStep(ms, c, k - 1);
      } else {
        var b :| BestIs(ms, c, k - 1, b);
        NextStep(ms, c, k - 1, b);
      }
    }
  }

  /** Overload b takes the lead, and none between b and i does. */
  ghost predicate LatestLeader(ms: seq<Method>, c: Call, b: nat, i: nat) {
    b < i && Leads(ms, c, b) && forall l :: b < l < i ==> !Leads(ms, c, l)
  }

  /** Hiding, too, in terms of the overloads: the latest leader is declared more specific. */
  lemma HiddenIffLeaderMoreSpecific(ms: seq<Method>, c: Call, i: nat)
    requires i < |ms| && NoExact(ms, c, i)
    ensures Hidden(ms, c, i)
       <==> exists b :: 0 <= b < i && LatestLeader(ms, c, b, i) && ms[b].MoreSpecificThan(ms[i])
  {
    ScanTracks(ms, c, i);
    hide Fit, Pending, BestIs, Leads, Scanned;
    if Scanned(ms, c, i).best != null {
      var b: nat :| BestIs(ms, c, i, b);
      BestLeadsLatest(ms, c, i, b);
    } else {
      NoneLeads(ms, c, i);
    }
  }

  lemma NoneLeads(ms: seq<Method>, c: Call, i: nat)
    requires NoneVisible(ms, c, i)
    ensures forall b :: 0 <= b < i ==> !LatestLeader(ms, c, b, i)
  {
    hide Visible;
  }

  lemma BestLeadsLatest(ms: seq<Method>, c: Call, i: nat, b: nat)
    requires BestIs(ms, c, i, b)
    ensures b < i <= |ms| && Scanned(ms, c, i).best == ms[b]
    ensures forall d :: 0 <= d < i && LatestLeader(ms, c, d, i) <==> d == b
  {
    hide Fit, Hidden;
    forall l | b < l < i ensures !Leads(ms, c, l) {
      if Visible(ms, c, l) { assert NotAbove(ms[l], ms[b], c); }
    }
  }

  lemma FirstStep(ms: seq<Method>, c: Call, k: nat)
    requires k < |ms| && Fit(ms[k], c) != EXACT && !Scanned(ms, c, k).done
    requires Scanned(ms, c, k).best == null && NoneVisible(ms, c, k)
    ensures var s, t := Scanned(ms, c, k), Scanned(ms, c, k + 1);
            && !t.done && t.ambiguous == s.ambiguous && !Ties(ms, c, k) && !Settles(ms, c, k)
            && (t.best == null ==> NoneVisible(ms, c, k + 1))
            && (t.best != null ==> BestIs(ms, c, k + 1, k))
  {
    hide Fit;
  }

  lemma NextStep(ms: seq<Method>, c: Call, k: nat, b: nat)
    requires k < |ms| && Fit(ms[k], c) != EXACT && !Scanned(ms, c, k).done && BestIs(ms, c, k, b)
    ensures var s, t := Scanned(ms, c, k), Scanned(ms, c, k + 1);
            && !t.done && t.best != null
            && (t.ambiguous != [] <==> Ties(ms, c, k) || (s.ambiguous != [] && !Settles(ms, c, k)))
            && BestIs(ms, c, k + 1, if Leads(ms, c, k) then k else b)
  {
    hide Fit;
    NextRank(ms, c, k, b);
    hide Leads, Ties, Settles;
  }

  /** The position of the first exact match, the number of overloads if there is none. */
  function FirstExact(ms: seq<Method>, c: Call, from: nat := 0): (k: nat)
    requires from <= |ms|
    ensures from <= k <= |ms| && forall i :: from <= i < k ==> Fit(ms[i], c) != EXACT
    ensures k < |ms| ==> Fit(ms[k], c) == EXACT
    decreases |ms| - from
  {
    if from == |ms| || Fit(ms[from], c) == EXACT then from else FirstExact(ms, c, from + 1)
  }

  /** For overloads of any kinds: an ambiguity is reported exactly if some tie before the first exact
      match is not settled by a later leader of the same kind. Otherwise an exact match wins. */
  lemma AmbiguousIffUnsettledTie(ms: seq<Method>, c: Call)
    ensures var k := FirstExact(ms, c);
            && (Plain(ms, c) == Ambiguous <==> Pending(ms, c, k))
            && (k < |ms| && !Pending(ms, c, k) ==> Plain(ms, c) == Resolved(ms[k]))
  {
    hide Fit, Pending;
    var k := FirstExact(ms, c);
    ScanTracks(ms, c, k);
    if k < |ms| { DoneStays(ms, c, k + 1, |ms|); }
  }

  /** Short of an exact match, an overload of the kind not asked for, static for an instance call or
      instance for a static one, is chosen only if all those of the kind asked for are hidden or do not
      match; and no visible overload of the chosen one's kind fits better. */
  lemma KindAskedForWins(ms: seq<Method>, c: Call)
    requires Plain(ms, c).Resolved? && Fit(Plain(ms, c).overload, c) < EXACT
    ensures var b := Plain(ms, c).overload;
            && (b.isStatic == c.instance <==>
                  forall i :: 0 <= i < |ms| && Fit(ms[i], c) >= IMPLICIT && ms[i].isStatic != c.instance ==>
                    Hidden(ms, c, i))
            && (forall i :: 0 <= i < |ms| && Fit(ms[i], c) >= IMPLICIT && ms[i].isStatic == b.isStatic ==>
                  Hidden(ms, c, i) || Fit(ms[i], c) <= Fit(b, c))
  {
    AmbiguousIffUnsettledTie(ms, c);
    ScanTracks(ms, c, |ms|);
    var d: nat :| BestIs(ms, c, |ms|, d);
    hide Fit, Pending, Hidden, Scanned, Leads;
    assert Visible(ms, c, d) by { assert Leads(ms, c, d); LeaderVisible(ms, c, d); }
    forall i | 0 <= i < |ms| && Fit(ms[i], c) >= IMPLICIT && !Hidden(ms, c, i) ensures NotAbove(ms[i], ms[d], c) {
      assert Visible(ms, c, i);
    }
  }

  lemma LeaderVisible(ms: seq<Method>, c: Call, l: nat)
    requires Leads(ms, c, l)
    ensures Visible(ms, c, l)
  {
  }

  /** The same argument list with and without an instance: among two matches at implicit, one static and
      one not, the kind decides, whichever comes first. */
  method EachKindWhenAskedFor() returns (ms: seq<Method>, mine: Call, other: Call)
    ensures |ms| == 3 && ms[0].isStatic && ms[1].isStatic && !ms[2].isStatic
    ensures mine.args == other.args && mine.instance && !other.instance
    ensures Fit(ms[0], mine) == Fit(ms[2], mine) == Fit(ms[1], other) == Fit(ms[2], other) == IMPLICIT
    ensures Plain(ms, mine) == Plain([ms[2], ms[1], ms[0]], mine) == Resolved(ms[2])
    ensures Plain(ms, other) == Plain([ms[2], ms[1], ms[0]], other) == Resolved(ms[1])
  {
    var one := new Method(true, false, false, [Scalar(_ => IMPLICIT)], []);
    var two := new Method(true, false, false, [Scalar(_ => IMPLICIT), Scalar(_ => IMPLICIT)], []);
    var instance := new Method(false, false, false, [Scalar(_ => IMPLICIT), Scalar(_ => IMPLICIT)], []);
    mine, other := CallData([0, 1], true, 10), CallData([0, 1], false, 10);
    ms := [one, two, instance];
    FitBehindReceiver(one, mine);
    FitTwo(two, other);
    FitTwo(instance, mine);
    FitTwo(instance, other);
    assert Fit(two, mine) == NONE && Fit(one, other) == NONE;
    PairOfKinds(one, two, instance, mine);
    PairOfKinds(two, one, instance, other);
  }

  /** Overload a alone is of one kind and matches, d does not match at all. */
  lemma PairOfKinds(a: Method, d: Method, b: Method, c: Call)
    requires Fit(a, c) == Fit(b, c) == IMPLICIT && Fit(d, c) == NONE && a.moreSpecific == b.moreSpecific == []
    requires a.isStatic && !b.isStatic
    ensures var chosen := Resolved(if c.instance then b else a);
            && Plain([a, d, b], c) == Plain([b, d, a], c) == chosen
            && Plain([d, a, b], c) == Plain([b, a, d], c) == chosen
  {
    FirstSteps([a, d, b], c);
    FirstSteps([b, d, a], c);
    FirstSteps([d, a, b], c);
    FirstSteps([b, a, d], c);
    hide Fit, Scanned;
  }

  /** A more specific overload in front hides one that matches as well. */
  method MoreSpecificHides() returns (ms: seq<Method>, c: Call)
    ensures |ms| == 2 && ms[0].moreSpecific == [ms[1]] && Fit(ms[0], c) == Fit(ms[1], c) == IMPLICIT
    ensures Plain(ms, c) == Resolved(ms[0]) && Plain([ms[1], ms[0]], c) == Ambiguous
  {
    var onObject := new Method(true, false, false, [Scalar(_ => IMPLICIT)], []);
    var onString := new Method(true, false, false, [Scalar(_ => IMPLICIT)], [onObject]);
    ms, c := [onString, onObject], CallData([0], false, 10);
    FitOne(onString, c);
    FitOne(onObject, c);
    var back := [onObject, onString];
    FirstSteps(ms, c);
    FirstSteps(back, c);
    hide Fit, Scanned;
    assert Scanned(ms, c, 1) == Scan(onString, [], false);
    assert Scanned(back, c, 1) == Scan(onObject, [], false);
  }

  /** One overload beats every other: an exact match, or one above all other visible ones. */
  ghost predicate ClearWinner(ms: seq<Method>, c: Call) {
    FirstExact(ms, c) < |ms| || exists b :: BeatsAll(ms, c, b)
  }

  ghost predicate BeatsAll(ms: seq<Method>, c: Call, b: nat) {
    Visible(ms, c, b) && forall i :: 0 <= i < |ms| && Visible(ms, c, i) && i != b ==> Below(ms[i], ms[b], c)
  }

  /** Overload f is the first of the kind asked for, and no other of that kind fits as well. */
  ghost predicate FirstAndBestOfKind(ms: seq<Method>, c: Call, f: nat) {
    && Visible(ms, c, f) && Suits(ms[f], c)
    && forall i :: 0 <= i < |ms| && Visible(ms, c, i) && i != f && Suits(ms[i], c) ==>
         f < i && Fit(ms[i], c) < Fit(ms[f], c)
  }

  /** The report is spurious, some overload beating all others, exactly in two cases: an unsettled tie
      stands before an exact match, or among the overloads of the kind not asked for that stand before
      the first, and best, one of the kind asked for. */
  lemma SpuriousIff(ms: seq<Method>, c: Call)
    ensures Plain(ms, c) == Ambiguous && ClearWinner(ms, c)
       <==> (|| (FirstExact(ms, c) < |ms| && Pending(ms, c, FirstExact(ms, c)))
             || (FirstExact(ms, c) == |ms| && exists f :: FirstAndBestOfKind(ms, c, f) && Pending(ms, c, f)))
  {
    AmbiguousIffUnsettledTie(ms, c);
    if FirstExact(ms, c) == |ms| {
      hide Fit, Visible, Plain, FirstExact;
      if Pending(ms, c, |ms|) && exists b :: BeatsAll(ms, c, b) {
        var b :| BeatsAll(ms, c, b);
        TieBeforeWinner(ms, c, b);
      }
      forall f | FirstAndBestOfKind(ms, c, f) && Pending(ms, c, f)
        ensures BeatsAll(ms, c, f) && Pending(ms, c, |ms|)
      {
        TieStaysPending(ms, c, f);
      }
    }
  }

  lemma TieBeforeWinner(ms: seq<Method>, c: Call, b: nat)
    requires Pending(ms, c, |ms|) && BeatsAll(ms, c, b)
    ensures FirstAndBestOfKind(ms, c, b) && Pending(ms, c, b)
  {
    hide Fit, Hidden;
    var j :| 0 <= j < |ms| && Ties(ms, c, j) && forall l :: j < l < |ms| ==> !Settles(ms, c, l);
    assert j < b;
    assert Leads(ms, c, b) && !Settles(ms, c, b);
    assert Suits(ms[j], c) != Suits(ms[b], c);
  }

  lemma TieStaysPending(ms: seq<Method>, c: Call, f: nat)
    requires FirstAndBestOfKind(ms, c, f) && Pending(ms, c, f)
    ensures BeatsAll(ms, c, f) && Pending(ms, c, |ms|)
  {
    hide Fit, Hidden;
    var j :| 0 <= j < f && Ties(ms, c, j) && forall l :: j < l < f ==> !Settles(ms, c, l);
    forall l | j < l < |ms| ensures !Settles(ms, c, l) {
      if l > f && Visible(ms, c, l) { assert !Below(ms[f], ms[l], c); }
    }
  }

  /** With overloads all static or all not, and none exact, the report is right: it is made exactly if
      two overloads share the best fit. */
  lemma AmbiguousIffTieAmongEqualKind(ms: seq<Method>, c: Call, isStatic: bool)
    requires FirstExact(ms, c) == |ms| && forall m :: m in ms ==> m.isStatic == isStatic
    ensures Plain(ms, c) == Ambiguous
       <==> exists i, j :: 0 <= i < j < |ms| && BestFit(ms, c, i) && BestFit(ms, c, j)
  {
    AmbiguousIffUnsettledTie(ms, c);
    hide Fit, Plain, Hidden, FirstExact;
    if Pending(ms, c, |ms|) {
      var j :| 0 <= j < |ms| && Ties(ms, c, j) && forall l :: j < l < |ms| ==> !Settles(ms, c, l);
      var i :| 0 <= i < j && Visible(ms, c, i) && !Below(ms[i], ms[j], c);
      NoneAbove(ms, c, isStatic, j, |ms|);
      assert BestFit(ms, c, i) && BestFit(ms, c, j);
    }
    if i, j :| 0 <= i < j < |ms| && BestFit(ms, c, i) && BestFit(ms, c, j) {
      assert Ties(ms, c, j) by { assert !Below(ms[i], ms[j], c); }
    }
  }

  /** No visible overload fits better than i. */
  ghost predicate BestFit(ms: seq<Method>, c: Call, i: nat) {
    Visible(ms, c, i) && forall p :: 0 <= p < |ms| && Visible(ms, c, p) ==> Fit(ms[p], c) <= Fit(ms[i], c)
  }

  lemma {:induction false} NoneAbove(ms: seq<Method>, c: Call, isStatic: bool, j: nat, k: nat)
    requires j < k <= |ms| && Ties(ms, c, j) && forall m :: m in ms ==> m.isStatic == isStatic
    requires forall l :: j < l < k ==> !Settles(ms, c, l)
    ensures forall p :: 0 <= p < k && Visible(ms, c, p) ==> Fit(ms[p], c) <= Fit(ms[j], c)
  {
    hide Fit, Hidden;
    if j < k - 1 {
      NoneAbove(ms, c, isStatic, j, k - 1);
      if Visible(ms, c, k - 1) && Fit(ms[k - 1], c) > Fit(ms[j], c) {
        assert Leads(ms, c, k - 1);
        assert Settles(ms, c, k - 1) by { assert Visible(ms, c, j); }
      }
    }
  }

  /** Two overloads of the kind not asked for that tie, followed by the only one of the kind asked for,
      which also fits better: resolution reports an ambiguity. */
  method OtherKindAfterTie() returns (ms: seq<Method>, c: Call)
    ensures |ms| == 3 && c.instance && ms[0].isStatic && ms[1].isStatic && !ms[2].isStatic
    ensures Fit(ms[0], c) == Fit(ms[1], c) == IMPLICIT && Fit(ms[2], c) == DERIVED
    ensures Plain(ms, c) == Ambiguous
  {
    var first := new Method(true, false, false, [Scalar(_ => IMPLICIT)], []);
    var second := new Method(true, false, false, [Scalar(_ => IMPLICIT)], []);
    var third := new Method(false, false, false, [Scalar(_ => EXACT), Scalar(_ => DERIVED)], []);
    ms, c := [first, second, third], CallData([0, 1], true, 10);
    FitBehindReceiver(first, c);
    FitBehindReceiver(second, c);
    FitTwo(third, c);
    FirstSteps(ms, c);
    hide Fit, Scanned;
    assert Scanned(ms, c, 1) == Scan(first, [], false);
    assert Scanned(ms, c, 2) == Scan(first, [second], false);
    assert Scanned(ms, c, 3) == Scan(third, [second], false);
  }

  /** Two implicit matches that tie, followed by an exact one: resolution reports an ambiguity. */
  method ExactAfterTie() returns (ms: seq<Method>, c: Call)
    ensures |ms| == 3 && Fit(ms[2], c) == EXACT && Plain(ms, c) == Ambiguous
  {
    var first := new Method(true, false, false, [Scalar(_ => IMPLICIT)], []);
    var second := new Method(true, false, false, [Scalar(_ => IMPLICIT)], []);
    var third := new Method(true, false, false, [Scalar(_ => EXACT)], []);
    ms, c := [first, second, third], CallData([0], false, 10);
    FitOne(first, c);
    FitOne(second, c);
    FitOne(third, c);
    FirstSteps(ms, c);
    hide Fit, Scanned;
    assert Scanned(ms, c, 1) == Scan(first, [], false);
    assert Scanned(ms, c, 2) == Scan(first, [second], false);
    assert Scanned(ms, c, 3) == Scan(third, [second], true);
  }

  // ----- the code

  /** JPMethodDispatch: the overloads in priority order, and the one chosen last. */
  class MethodDispatch {
    const overloads: seq<Method>
    var last: Method?

    ghost predicate Valid()
      reads this
    {
      && (last != null ==> last in overloads)
      && forall m :: m in overloads && m.isVarArgs ==> |m.params| >= 1
    }

    constructor (overloads: seq<Method>)
      requires forall m :: m in overloads && m.isVarArgs ==> |m.params| >= 1
      ensures this.overloads == overloads && last == null && Valid()
    {
      this.overloads, last := overloads, null;
    }

    /** The scan of findOverload, from a record without overload. */
    method ScanOverloads(best: MethodMatch) returns (ghost s: Scan, pending: bool)
      requires Valid() && best.overload == null && |best.targets| == |best.call.args|
      modifies best
      ensures s == Scanned(overloads, best.call, |overloads|) && pending == (s.ambiguous != [])
      ensures best.overload == s.best && |best.targets| == |best.call.args|
      ensures s.best != null ==> best.Holds(s.best)
    {
      hide Fit;
      var c := best.call;
      var candidate := new MethodMatch(c);
      candidate.Assign(best);
      var ambiguous: seq<Method> := [];
      s := Scanned(overloads, c, 0);
      for i := 0 to |overloads|
        invariant s == Scanned(overloads, c, i) && !s.done && s.ambiguous == ambiguous
        invariant |candidate.targets| == |best.targets| == |c.args|
        invariant best.overload == s.best && (s.best != null ==> best.Holds(s.best))
      {
        var current := overloads[i];
        s := Scanned(overloads, c, i + 1);
        var q := Matches(current, candidate);
        if q == EXACT {
          best.Assign(candidate);
          DoneStays(overloads, c, i + 1, |overloads|);
          return s, ambiguous != [];
        }
        if q < IMPLICIT { continue; }
        if best.overload == null {
          best.Assign(candidate);
          continue;
        }
        var hides := best.overload.CheckMoreSpecificThan(current);
        if !hides {
          if c.instance == !current.isStatic {
            if c.instance == best.overload.isStatic {
              best.Assign(candidate);
              continue;
            }
          } else {
            if c.instance == !best.overload.isStatic { continue; }
          }
          if best.quality < candidate.quality {
            best.Assign(candidate);
            ambiguous := [];
            continue;
          }
          if best.quality > candidate.quality { continue; }
          ambiguous := ambiguous + [current];
        }
      }
      return s, ambiguous != [];
    }

    /** JPMethodDispatch::findOverload; raising an error and returning false are both the outcomes
        Ambiguous and NoMatch. A success leaves a match record for the chosen overload, and in the
        cache that overload together with the hash of the arguments. */
    method FindOverload(best: MethodMatch) returns (outcome: Outcome)
      requires Valid() && best.overload == null && |best.targets| == |best.call.args|
      modifies this`last, best, set m | m in overloads
      ensures Valid()
      ensures outcome == Cached(overloads, old(last), if old(last) == null then -1 else old(last.hash), best.call)
      ensures outcome.Resolved? ==> best.Holds(outcome.overload)
      ensures last == LastAfter(outcome, old(last))
      ensures forall m :: m in overloads ==> m.hash == HashAfter(outcome, best.call, m, old(m.hash))
    {
      hide Fit;
      var cached := last;
      if cached != null && !cached.isVarArgs {
        if cached.hash == best.call.hash {
          var q := Matches(cached, best);
          if q > EXPLICIT { return Resolved(cached); }
          best.overload := null;
          best.quality := NONE;
        }
      }
      ghost var s;
      var pending;
      s, pending := ScanOverloads(best);
      if pending { return Ambiguous; }
      if best.overload == null { return NoMatch; }
      ScanKeepsInvariant(overloads, best.call, |overloads|);
      if best.quality >= IMPLICIT {
        best.overload.hash := best.call.hash;
        last := best.overload;
      }
      return Resolved(best.overload);
    }
  }
}
