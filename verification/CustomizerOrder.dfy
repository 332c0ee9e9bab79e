/** The order in which the customizer engine of jpype/_jcustomizer.py calls hooks and installs sticky
    methods on a class. That each is called once is in module Customizer. */
module CustomizerOrder {
  import opened Customizer

  /** Where x first stands in s; the length of s if nowhere. */
  function IndexOf(s: seq<Name>, x: Name): (i: nat)
    ensures i <= |s| && (i < |s| ==> s[i] == x) && (x in s <==> i < |s|)
    ensures forall j :: 0 <= j < i ==> s[j] != x
  {
    if s == [] then 0 else if s[0] == x then 0 else 1 + IndexOf(s[1..], x)
  }

  /** The order inside the hook of a class that was the born-th to be created: of what was registered for
      it before, all hooks and then all sticky methods; then one registration after the other. */
  predicate RunsBefore(rs: seq<Registration>, born: nat, a: Action, b: Action)
    requires a.id < |rs| && b.id < |rs|
  {
    if rs[a.id].seen <= born && rs[b.id].seen <= born && a.Hook? != b.Hook? then a.Hook?
    else a.id < b.id || (a.id == b.id && a.Hook? && b.Sticky?)
  }

  /** The order of the calls on the k-th class: at its creation what is registered for the more basic
      classes first; then, one registration after the other, what is registered later. */
  predicate CalledBefore(w: World, k: nat, a: Action, b: Action)
    requires a.id < |w.rs| && b.id < |w.rs| && k < |w.order| && w.order[k] in w.classes
  {
    var r, s, mro := w.rs[a.id], w.rs[b.id], w.classes[w.order[k]].mro;
    if r.seen > k || s.seen > k then a.id < b.id
    else if r.target != s.target then IndexOf(mro, r.target) > IndexOf(mro, s.target)
    else RunsBefore(w.rs, IndexOf(w.order, r.target), a, b)
  }

  // ----- what every run keeps

  ghost predicate HintsInOrder(hints: map<Name, Hints>) {
    forall c :: Increasing(HintsIn(hints, c).implementations)
  }

  ghost predicate Increasing(ps: seq<Proto>) { forall i, j :: 0 <= i < j < |ps| ==> ps[i].id < ps[j].id }

  ghost predicate InitInOrder(rs: seq<Registration>, born: nat, init: seq<Action>) {
    && (forall p :: 0 <= p < |init| ==> init[p].id < |rs|)
    && (forall p, q :: 0 <= p < q < |init| ==> RunsBefore(rs, born, init[p], init[q]))
  }

  ghost predicate InitsInOrder(w: World) {
    forall c :: c in w.classes ==> InitInOrder(w.rs, IndexOf(w.order, c), InitOf(w.inits, c))
  }

  predicate PairInOrder(w: World, x: Call, y: Call) {
    && x.action.id < |w.rs| && y.action.id < |w.rs|
    && (x.cls == y.cls ==>
          && x.cls in w.classes && x.cls in w.order
          && CalledBefore(w, IndexOf(w.order, x.cls), x.action, y.action))
  }

  ghost predicate LogInOrder(w: World) {
    forall p, q :: 0 <= p < q < |w.log| ==> PairInOrder(w, w.log[p], w.log[q])
  }

  ghost predicate InOrder(w: World) { HintsInOrder(w.hints) && InitsInOrder(w) && LogInOrder(w) }

  // ----- a class is created

  lemma {:induction false} IndexStays(order: seq<Name>, name: Name, c: Name)
    ensures c in order ==> IndexOf(order + [name], c) == IndexOf(order, c)
    ensures c !in order ==> IndexOf(order + [name], c) >= |order| == IndexOf(order, c)
    ensures name !in order ==> IndexOf(order + [name], name) == |order|
  {
    var i := IndexOf(order + [name], c);
    var j := IndexOf(order + [name], name);
    assert (order + [name])[|order|] == name;
    assert forall x :: 0 <= x < |order| ==> (order + [name])[x] == order[x];
  }

  lemma IndexAt(mro: seq<Name>, x: nat)
    requires x < |mro| && NoDuplicates(mro)
    ensures IndexOf(mro, mro[x]) == x
  {
  }

  /** Hooks and sticky methods of a list of prototypes, each in the order of the list. */
  lemma {:induction false} GroupsInOrder(ps: seq<Proto>, n: nat)
    requires Increasing(ps) && forall k :: 0 <= k < |ps| ==> ps[k].id < n
    ensures forall p :: 0 <= p < |Hooks(ps)| ==> Hooks(ps)[p].Hook? && Hooks(ps)[p].id < n
    ensures forall p :: 0 <= p < |Stickies(ps)| ==> Stickies(ps)[p].Sticky? && Stickies(ps)[p].id < n
    ensures forall p, q :: 0 <= p < q < |Hooks(ps)| ==> Hooks(ps)[p].id < Hooks(ps)[q].id
    ensures forall p, q :: 0 <= p < q < |Stickies(ps)| ==> Stickies(ps)[p].id < Stickies(ps)[q].id
    decreases |ps|
  {
    if ps != [] { GroupsInOrder(ps[..|ps| - 1], ps[|ps| - 1].id); }
  }

  lemma NewInitInOrder(w: World, name: Name)
    requires Listed(w.hints, w.rs, name) && HintsInOrder(w.hints) && Numbered(w.rs, |w.order|)
    ensures var ps := HintsIn(w.hints, name).implementations;
            InitInOrder(w.rs, |w.order|, Hooks(ps) + Stickies(ps))
  {
    var ps := HintsIn(w.hints, name).implementations;
    GroupsInOrder(ps, |w.rs|);
  }

  lemma CreatedInits(w: World, name: Name, bases: seq<Name>, mro: seq<Name>)
    requires ValidWorld(w) && InOrder(w) && name !in w.classes && LegalMro(w.classes, name, bases, mro)
    ensures InitsInOrder(Created(w, name, bases, mro))
  {
    var v, ps := Created(w, name, bases, mro), HintsIn(w.hints, name).implementations;
    assert Listed(w.hints, w.rs, name);
    NewInitInOrder(w, name);
    AbsentInit(w, name);
    WithInitAdds(w.inits, name, Hooks(ps) + Stickies(ps));
    assert Hooks(ps) + Stickies(ps) == [] + (Hooks(ps) + Stickies(ps));
    hide CreationCalls, Hooks, Stickies, WithInit, InitInOrder, AllReached, AllListed, AllInstalled, Grounded, Linked;
    forall c | c in v.classes ensures InitInOrder(v.rs, IndexOf(v.order, c), InitOf(v.inits, c)) {
      IndexStays(w.order, name, c);
      assert c != name ==> c in w.classes && c in w.order;
    }
  }

  /** What stands in the hook of a class was registered for it. */
  ghost predicate OwnActions(rs: seq<Registration>, init: seq<Action>, c: Name, k: nat) {
    forall a :: a in init ==> a.id < |rs| && rs[a.id].target == c && rs[a.id].seen <= k
  }

  lemma InstalledIsOwn(w: World, c: Name, k: nat)
    requires AllInstalled(w) && InitsGrounded(w) && Numbered(w.rs, k) && c in w.classes
    ensures OwnActions(w.rs, InitOf(w.inits, c), c, k)
  {
    var init := InitOf(w.inits, c);
    forall a | a in init ensures a.id < |w.rs| && w.rs[a.id].target == c {
      assert Installed(init, w.rs, c);
      assert Holds(init, w.rs[a.id], a.id, c);
      assert multiset(init)[a] > 0;
      assert a == Hook(a.id) || a == Sticky(a.id);
    }
  }

  /** Within the order of the k-th class every hook holds its class's own actions, in order. */
  ghost predicate HooksReady(w: World, k: nat) {
    && k < |w.order| && w.order[k] in w.classes && NoDuplicates(w.classes[w.order[k]].mro)
    && forall c :: c in w.classes[w.order[k]].mro ==> HookReady(w, k, c)
  }

  ghost predicate HookReady(w: World, k: nat, c: Name) {
    var init := InitOf(w.inits, c);
    OwnActions(w.rs, init, c, k) && InitInOrder(w.rs, IndexOf(w.order, c), init)
  }

  lemma {:induction false} CreationInOrder(w: World, k: nat, x: nat)
    requires HooksReady(w, k) && x <= |w.classes[w.order[k]].mro|
    ensures CallsReady(w, k, x, CreationCalls(w.inits, w.classes[w.order[k]].mro[x..], w.order[k]))
    decreases |w.classes[w.order[k]].mro| - x
  {
    var mro := w.classes[w.order[k]].mro;
    if x < |mro| {
      CreationInOrder(w, k, x + 1);
      assert mro[x..][1..] == mro[x + 1..];
      assert mro[x] in mro && HookReady(w, k, mro[x]);
      hide HooksReady, HookReady, CallsReady;
      HookCalls(w, k, x);
      OneMoreHook(w, k, x, CreationCalls(w.inits, mro[x + 1..], w.order[k]));
    }
  }

  /** Calls made at the creation of the k-th class, for classes at x or later in its order. */
  ghost predicate CallsReady(w: World, k: nat, x: nat, calls: seq<Call>)
    requires k < |w.order| && w.order[k] in w.classes
  {
    && (forall p :: 0 <= p < |calls| ==> CreatedCall(w, k, x, calls[p]))
    && (forall p, q :: 0 <= p < q < |calls| ==> CalledBefore(w, k, calls[p].action, calls[q].action))
  }

  lemma HookCalls(w: World, k: nat, x: nat)
    requires HooksReady(w, k) && x < |w.classes[w.order[k]].mro| && HookReady(w, k, w.classes[w.order[k]].mro[x])
    ensures var c := w.classes[w.order[k]].mro[x];
            var here := CallsOn(InitOf(w.inits, c), w.order[k]);
            && CallsReady(w, k, x, here)
            && forall q :: 0 <= q < |here| ==> here[q].action.id < |w.rs| && w.rs[here[q].action.id].target == c
  {
    var mro := w.classes[w.order[k]].mro;
    var own := InitOf(w.inits, mro[x]);
    var here := CallsOn(own, w.order[k]);
    IndexAt(mro, x);
    hide HooksReady;
    forall q | 0 <= q < |here| ensures CreatedCall(w, k, x, here[q]) && w.rs[here[q].action.id].target == mro[x] {
      assert own[q] in own;
    }
    forall p, q | 0 <= p < q < |here| ensures CalledBefore(w, k, here[p].action, here[q].action) {
      assert RunsBefore(w.rs, IndexOf(w.order, mro[x]), own[p], own[q]);
      assert own[p] in own && own[q] in own;
      hide RunsBefore;
    }
  }

  lemma OneMoreHook(w: World, k: nat, x: nat, before: seq<Call>)
    requires k < |w.order| && w.order[k] in w.classes && x < |w.classes[w.order[k]].mro|
    requires NoDuplicates(w.classes[w.order[k]].mro) && CallsReady(w, k, x + 1, before)
    requires var c := w.classes[w.order[k]].mro[x];
             var here := CallsOn(InitOf(w.inits, c), w.order[k]);
             && CallsReady(w, k, x, here)
             && forall q :: 0 <= q < |here| ==> here[q].action.id < |w.rs| && w.rs[here[q].action.id].target == c
    ensures CallsReady(w, k, x, before + CallsOn(InitOf(w.inits, w.classes[w.order[k]].mro[x]), w.order[k]))
  {
    var mro := w.classes[w.order[k]].mro;
    var here := CallsOn(InitOf(w.inits, mro[x]), w.order[k]);
    IndexAt(mro, x);
    hide CallsOn, RunsBefore, NoDuplicates;
    forall p, q | 0 <= p < |before| && 0 <= q < |here|
      ensures CalledBefore(w, k, before[p].action, here[q].action)
    {
      assert CreatedCall(w, k, x + 1, before[p]) && CreatedCall(w, k, x, here[q]);
    }
    forall p | 0 <= p < |before| ensures CreatedCall(w, k, x, before[p]) {
      assert CreatedCall(w, k, x + 1, before[p]);
    }
    hide CalledBefore, CreatedCall;
  }

  /** A call made at the creation of the k-th class, for a class that stands at x or later in its order. */
  predicate CreatedCall(w: World, k: nat, x: nat, call: Call)
    requires k < |w.order| && w.order[k] in w.classes
  {
    && call.cls == w.order[k] && call.action.id < |w.rs| && w.rs[call.action.id].seen <= k
    && x <= IndexOf(w.classes[w.order[k]].mro, w.rs[call.action.id].target)
  }

  lemma OldPairStays(w: World, name: Name, bases: seq<Name>, mro: seq<Name>, x: Call, y: Call)
    requires name !in w.order && name !in w.classes && PairInOrder(w, x, y)
    ensures PairInOrder(Created(w, name, bases, mro), x, y)
  {
    hide CreationCalls, WithInit, Hooks, Stickies;
    if x.cls == y.cls {
      IndexStays(w.order, name, x.cls);
      IndexStays(w.order, name, w.rs[x.action.id].target);
    }
  }

  lemma NewPair(w: World, k: nat, x: Call, y: Call)
    requires k < |w.order| && w.order[k] in w.classes && IndexOf(w.order, w.order[k]) == k
    requires CreatedCall(w, k, 0, x) && CreatedCall(w, k, 0, y) && CalledBefore(w, k, x.action, y.action)
    ensures PairInOrder(w, x, y)
  {
  }

  lemma CreatedLog(w: World, name: Name, bases: seq<Name>, mro: seq<Name>)
    requires ValidWorld(w) && LogInOrder(w) && name !in w.classes && LegalMro(w.classes, name, bases, mro)
    requires var v := Created(w, name, bases, mro); ValidWorld(v) && InitsInOrder(v)
    ensures LogInOrder(Created(w, name, bases, mro))
  {
    var v, k, n := Created(w, name, bases, mro), |w.order|, |w.log|;
    var calls := CreationCalls(v.inits, mro, name);
    assert v.log == w.log + calls;
    assert name !in w.order by { hide AllReached, AllListed, AllInstalled; }
    IndexStays(w.order, name, name);
    NewCalls(w, name, bases, mro);
    assert Grounded(w.log, w.classes, |w.rs|) by { hide Created; }
    hide CreationCalls, Created, ValidWorld, InitsInOrder, LegalMro, CalledBefore, PairInOrder;
    forall p, q | 0 <= p < q < |v.log| ensures PairInOrder(v, v.log[p], v.log[q]) {
      if q < n {
        assert PairInOrder(w, w.log[p], w.log[q]);
        OldPairStays(w, name, bases, mro, w.log[p], w.log[q]);
      } else if p >= n {
        NewPair(v, k, calls[p - n], calls[q - n]);
      } else {
        assert w.log[p] in w.log;
        OldAndNew(w, v, k, w.log[p], calls[q - n]);
      }
    }
  }

  lemma OldAndNew(w: World, v: World, k: nat, x: Call, y: Call)
    requires k < |v.order| && v.order[k] in v.classes && v.order[k] !in w.classes && v.rs == w.rs
    requires x.cls in w.classes && x.action.id < |w.rs| && CreatedCall(v, k, 0, y)
    ensures PairInOrder(v, x, y)
  {
  }

  lemma NewCalls(w: World, name: Name, bases: seq<Name>, mro: seq<Name>)
    requires ValidWorld(w) && name !in w.classes && LegalMro(w.classes, name, bases, mro)
    requires var v := Created(w, name, bases, mro); ValidWorld(v) && InitsInOrder(v)
    ensures var v, k := Created(w, name, bases, mro), |w.order|;
            && k < |v.order| && v.order[k] == name && name in v.classes && v.rs == w.rs
            && CallsReady(v, k, 0, CreationCalls(v.inits, mro, name))
  {
    var v, k := Created(w, name, bases, mro), |w.order|;
    assert v.order[k] == name && v.classes[name].mro == mro && mro[0..] == mro && Numbered(v.rs, k);
    forall c | c in mro ensures c in v.classes {
      if c != name { NewMroExists(w.order, w.classes, name, bases, mro, c); }
    }
    hide CreationCalls, Created, CalledBefore, AllReached, AllListed, InitInOrder, OwnActions;
    forall c | c in mro ensures HookReady(v, k, c) { InstalledIsOwn(v, c, k); }
    CreationInOrder(v, k, 0);
  }

  lemma CreatedInOrder(w: World, name: Name, bases: seq<Name>, mro: seq<Name>)
    requires ValidWorld(w) && InOrder(w) && name !in w.classes && LegalMro(w.classes, name, bases, mro)
    ensures InOrder(Created(w, name, bases, mro))
  {
    CreatedIsValid(w, name, bases, mro);
    CreatedInits(w, name, bases, mro);
    CreatedLog(w, name, bases, mro);
    assert Created(w, name, bases, mro).hints == w.hints[name := HintsIn(w.hints, name).(instantiated := true)];
    hide Created, ValidWorld, InitsInOrder, LogInOrder, CreationCalls, WithInit, Hooks, Stickies, WithClass, LegalMro;
  }

  // ----- a prototype is registered

  lemma RegisteredHintsInOrder(w: World, name: Name, p: Proto, visited: seq<Name>)
    requires HintsInOrder(w.hints) && AllListed(w) && p.id == |w.rs|
    ensures HintsInOrder(RegisteredIn(w, name, p, visited).hints)
  {
    var v := RegisteredIn(w, name, p, visited);
    hide WithInit, Actions, Each;
    forall c ensures Increasing(HintsIn(v.hints, c).implementations) {
      assert Listed(w.hints, w.rs, c) && Increasing(HintsIn(w.hints, c).implementations);
    }
  }

  /** The actions of the newest registration come last. */
  lemma NewestLast(rs: seq<Registration>, r: Registration, born: nat, init: seq<Action>, p: Proto)
    requires InitInOrder(rs, born, init) && r.seen > born && p.id == |rs|
    ensures InitInOrder(rs + [r], born, init + Actions(p))
  {
    TwoActions(p);
    InitKept(rs, r, born, init);
    var more, all := Actions(p), rs + [r];
    hide Actions;
    forall x, y | 0 <= x < y < |init + more|
      ensures RunsBefore(all, born, (init + more)[x], (init + more)[y])
    {
      if y < |init| { assert RunsBefore(all, born, init[x], init[y]); }
    }
  }

  lemma InitKept(rs: seq<Registration>, r: Registration, born: nat, init: seq<Action>)
    requires InitInOrder(rs, born, init)
    ensures InitInOrder(rs + [r], born, init)
  {
    forall p, q | 0 <= p < q < |init| ensures RunsBefore(rs + [r], born, init[p], init[q]) {
      assert RunsBefore(rs, born, init[p], init[q]);
    }
  }

  lemma TwoActions(p: Proto)
    ensures forall q :: 0 <= q < |Actions(p)| ==> Actions(p)[q].id == p.id
    ensures |Actions(p)| <= 2 && (|Actions(p)| == 2 ==> Actions(p) == [Hook(p.id), Sticky(p.id)])
  {
    OneProto(p);
    hide Hooks, Stickies;
  }

  lemma CreatedInTurn(order: seq<Name>, classes: map<Name, Class>, c: Name)
    requires Hierarchy(order, classes)
    ensures c in classes <==> c in order
  {
    hide Placed, Linked;
  }

  lemma RegisteredInits(w: World, name: Name, p: Proto, visited: seq<Name>)
    requires ValidWorld(w) && InitsInOrder(w) && p.id == |w.rs|
    ensures InitsInOrder(RegisteredIn(w, name, p, visited))
  {
    var v, r := RegisteredIn(w, name, p, visited), Registration(name, p, |w.order|);
    WithInitAdds(w.inits, name, Actions(p));
    WorldFacts(w);
    assert v.rs == w.rs + [r] && v.order == w.order && v.classes == w.classes;
    assert v.inits == if HintsIn(w.hints, name).instantiated then WithInit(w.inits, name, Actions(p)) else w.inits;
    hide RegisteredIn, WithInit, Actions, ValidWorld, HintsIn, InitInOrder, Hierarchy, HintsCurrent;
    forall c | c in v.classes ensures InitInOrder(v.rs, IndexOf(v.order, c), InitOf(v.inits, c)) {
      assert InitInOrder(w.rs, IndexOf(w.order, c), InitOf(w.inits, c));
      CreatedInTurn(w.order, w.classes, c);
      InitKept(w.rs, r, IndexOf(w.order, c), InitOf(w.inits, c));
      if c == name && HintsIn(w.hints, name).instantiated {
        NewestLast(w.rs, r, IndexOf(w.order, c), InitOf(w.inits, c), p);
      }
    }
  }

  lemma RegisteredLog(w: World, name: Name, p: Proto, visited: seq<Name>)
    requires ValidWorld(w) && LogInOrder(w) && p.id == |w.rs| && Visits(w, name, p, visited)
    ensures LogInOrder(RegisteredIn(w, name, p, visited))
  {
    var v, n := RegisteredIn(w, name, p, visited), |w.log|;
    WorldFacts(w);
    assert Grounded(w.log, w.classes, |w.rs|);
    if !(HintsIn(w.hints, name).instantiated && p.hook) {
      assert v.log == w.log;
      hide RegisteredIn, ValidWorld, Hierarchy, PairInOrder;
      forall x, y | 0 <= x < y < n ensures PairInOrder(v, w.log[x], w.log[y]) {
        OldPairKept(w, name, p, visited, w.log[x], w.log[y]);
      }
    } else {
      assert v.log == w.log + Each(Hook(p.id), visited);
      hide RegisteredIn, ValidWorld, Hierarchy, PairInOrder, HintsIn, Under, BreadthFirst;
      forall x, y | 0 <= x < y < |v.log| ensures PairInOrder(v, v.log[x], v.log[y]) {
        if y < n {
          OldPairKept(w, name, p, visited, w.log[x], w.log[y]);
        } else if x < n {
          assert w.log[x] in w.log && visited[y - n] in visited;
          LateCall(w, name, p, visited, w.log[x], visited[y - n]);
        } else {
          LateCalls(w, name, p, visited, visited[x - n], visited[y - n]);
        }
      }
    }
  }

  lemma LateCall(w: World, name: Name, p: Proto, visited: seq<Name>, x: Call, d: Name)
    requires Hierarchy(w.order, w.classes) && p.id == |w.rs| && d in w.classes && x.action.id < |w.rs|
    ensures PairInOrder(RegisteredIn(w, name, p, visited), x, Call(Hook(p.id), d))
  {
    CreatedInTurn(w.order, w.classes, d);
    hide WithInit, Actions, Each, Hierarchy;
  }

  lemma LateCalls(w: World, name: Name, p: Proto, visited: seq<Name>, c: Name, d: Name)
    requires p.id == |w.rs| && c != d
    ensures PairInOrder(RegisteredIn(w, name, p, visited), Call(Hook(p.id), c), Call(Hook(p.id), d))
  {
    hide WithInit, Actions, Each;
  }

  lemma OldPairKept(w: World, name: Name, p: Proto, visited: seq<Name>, x: Call, y: Call)
    requires PairInOrder(w, x, y)
    ensures PairInOrder(RegisteredIn(w, name, p, visited), x, y)
  {
    hide WithInit, Actions, Each;
  }

  lemma RegisteredInOrder(w: World, name: Name, p: Proto, visited: seq<Name>)
    requires ValidWorld(w) && InOrder(w) && p.id == |w.rs| && Visits(w, name, p, visited)
    ensures InOrder(RegisteredIn(w, name, p, visited))
  {
    RegisteredInits(w, name, p, visited);
    RegisteredLog(w, name, p, visited);
    RegisteredHintsInOrder(w, name, p, visited);
    hide RegisteredIn, InitsInOrder, LogInOrder, HintsInOrder;
  }

  lemma {:induction false} RunInOrder(steps: seq<Step>)
    ensures InOrder(Run(steps))
    decreases |steps|
  {
    if steps == [] {
      assert Run(steps) == World([], map[], map[], map[], [], []);
    } else {
      hide ValidWorld, InOrder, LegalMro, Visits, Created, RegisteredIn;
      var w, s := Run(steps[..|steps| - 1]), steps[|steps| - 1];
      RunInOrder(steps[..|steps| - 1]);
      RunIsValid(steps[..|steps| - 1]);
      match s
      case Create(name, bases, mro) =>
        if name !in w.classes && LegalMro(w.classes, name, bases, mro) { CreatedInOrder(w, name, bases, mro); }
      case Add(name, hook, sticky, visited) =>
        var p := Proto(|w.rs|, hook, sticky);
        if Visits(w, name, p, visited) { RegisteredInOrder(w, name, p, visited); }
    }
  }

  // ----- direct subclasses

  /** The direct subclasses of every class are listed once each, in the order of their creation. */
  ghost predicate SubclassesInOrder(w: World) {
    forall c :: c in w.classes ==> Aged(w.order, w.classes[c].subclasses)
  }

  ghost predicate Aged(order: seq<Name>, names: seq<Name>) {
    && (forall i :: 0 <= i < |names| ==> names[i] in order)
    && forall i, j :: 0 <= i < j < |names| ==> IndexOf(order, names[i]) < IndexOf(order, names[j])
  }

  lemma AgedStays(order: seq<Name>, names: seq<Name>, name: Name)
    requires Aged(order, names) && name !in order
    ensures Aged(order + [name], names) && Aged(order + [name], names + [name])
  {
    IndexStays(order, name, name);
    forall i | 0 <= i < |names| ensures IndexOf(order + [name], names[i]) == IndexOf(order, names[i]) < |order| {
      IndexStays(order, name, names[i]);
    }
  }

  lemma {:induction false} RunKeepsSubclasses(steps: seq<Step>)
    ensures SubclassesInOrder(Run(steps))
    decreases |steps|
  {
    if steps == [] {
      assert Run(steps) == World([], map[], map[], map[], [], []);
    } else {
      var w, s := Run(steps[..|steps| - 1]), steps[|steps| - 1];
      RunKeepsSubclasses(steps[..|steps| - 1]);
      RunIsValid(steps[..|steps| - 1]);
      WorldFacts(w);
      if s.Create? && s.name !in w.classes && LegalMro(w.classes, s.name, s.bases, s.mro) {
        CreatedSubclasses(w, s.name, s.bases, s.mro);
      }
      hide ValidWorld, LegalMro, Visits, Created, CreationCalls, WithInit, Actions, Each, Hierarchy, Aged;
    }
  }

  lemma CreatedSubclasses(w: World, name: Name, bases: seq<Name>, mro: seq<Name>)
    requires SubclassesInOrder(w) && Hierarchy(w.order, w.classes) && name !in w.classes
    ensures SubclassesInOrder(Created(w, name, bases, mro))
  {
    CreatedInTurn(w.order, w.classes, name);
    hide CreationCalls, WithInit, Hooks, Stickies, Hierarchy, Aged;
    forall c | c in w.classes
      ensures Aged(w.order + [name], w.classes[c].subclasses) && Aged(w.order + [name], w.classes[c].subclasses + [name])
    {
      AgedStays(w.order, w.classes[c].subclasses, name);
    }
    NoneAged(w.order + [name]);
  }

  lemma NoneAged(order: seq<Name>)
    ensures Aged(order, [])
  {
  }

  // ----- main results

  /** Over any interleaving of class creations and registrations, of two calls on the same class the one
      that CalledBefore puts first was made first. As every call is made at most once, this and the counts
      of HooksReachEveryClassOnce give all calls on a class and their order. */
  lemma CallsInOrder(steps: seq<Step>, p: nat, q: nat)
    requires var log := Run(steps).log; p < |log| && q < |log| && p != q && log[p].cls == log[q].cls
    ensures var w := Run(steps);
            var x, y := w.log[p], w.log[q];
            var k := IndexOf(w.order, x.cls);
            && x.cls in w.order && x.cls in w.classes && x.action.id < |w.rs| && y.action.id < |w.rs|
            && (p < q ==> CalledBefore(w, k, x.action, y.action))
            && (q < p ==> CalledBefore(w, k, y.action, x.action))
  {
    RunInOrder(steps);
    var w := Run(steps);
    hide Run, CalledBefore, InitsInOrder, HintsInOrder;
    if p < q { assert PairInOrder(w, w.log[p], w.log[q]); } else { assert PairInOrder(w, w.log[q], w.log[p]); }
  }

  /** The hooks registered for one class run in the order of their registration, on whatever class. */
  lemma HooksInRegistrationOrder(steps: seq<Step>, d: Name, i: nat, j: nat, p: nat, q: nat)
    requires var w := Run(steps);
             && i < j < |w.rs| && w.rs[i].target == w.rs[j].target
             && p < |w.log| && q < |w.log| && w.log[p] == Call(Hook(i), d) && w.log[q] == Call(Hook(j), d)
    ensures p < q
  {
    CallsInOrder(steps, p, q);
    hide Run;
  }

  lemma {:induction false} MroEarlier(order: seq<Name>, classes: map<Name, Class>, i: nat, c: Name)
    requires Hierarchy(order, classes) && i < |order| && Under(classes, order[i], c)
    ensures IndexOf(order, c) <= i
    decreases i
  {
    assert Placed(order, classes, i);
    if c != order[i] {
      var b :| b in classes[order[i]].bases && c in classes[b].mro;
      assert b in order[..i];
      var j :| 0 <= j < |order[..i]| && order[..i][j] == b;
      MroEarlier(order, classes, j, c);
    }
  }

  /** A class on which an action was called is at or under the action's target, which is no younger; and a
      sticky method was registered before it. */
  lemma CalledIsUnder(steps: seq<Step>, p: nat)
    requires p < |Run(steps).log|
    ensures var w := Run(steps);
            var a, d := w.log[p].action, w.log[p].cls;
            var k := IndexOf(w.order, d);
            && d in w.classes && d in w.order && a.id < |w.rs| && IndexOf(w.order, w.rs[a.id].target) <= k
            && (a.Sticky? ==> w.rs[a.id].seen <= k)
  {
    var w := Run(steps);
    RunIsValid(steps);
    var call := w.log[p];
    assert call in w.log && multiset(w.log)[call] > 0;
    assert call.cls in w.classes && call.action.id < |w.rs| && call.cls in w.order;
    var k := IndexOf(w.order, call.cls);
    HooksReachEveryClassOnce(steps, call.action.id, k);
    assert call == Call(Hook(call.action.id), w.order[k]) || call == Call(Sticky(call.action.id), w.order[k]);
    MroEarlier(w.order, w.classes, k, w.rs[call.action.id].target);
  }

  /** Hooks stand before sticky methods: those registered for the same class no later, and all of those
      registered before that class was created. */
  lemma HooksBeforeSticky(steps: seq<Step>, d: Name, i: nat, j: nat, p: nat, q: nat)
    requires var w := Run(steps);
             && i < |w.rs| && j < |w.rs| && w.rs[i].target == w.rs[j].target
             && (var born := IndexOf(w.order, w.rs[i].target);
                 i <= j || (w.rs[i].seen <= born && w.rs[j].seen <= born))
             && p < |w.log| && q < |w.log| && w.log[p] == Call(Hook(i), d) && w.log[q] == Call(Sticky(j), d)
    ensures p < q
  {
    CallsInOrder(steps, p, q);
    CalledIsUnder(steps, p);
    CalledIsUnder(steps, q);
    hide Run;
  }

  /** At the creation of a class what was registered for the more basic classes comes first: for those
      further back in its resolution order. */
  lemma BasicBeforeDerived(steps: seq<Step>, d: Name, p: nat, q: nat)
    requires p < |Run(steps).log| && q < |Run(steps).log|
    requires var w := Run(steps);
             var a, b, k := w.log[p].action, w.log[q].action, IndexOf(w.order, d);
             && w.log[p].cls == w.log[q].cls == d && d in w.classes && a.id < |w.rs| && b.id < |w.rs|
             && w.rs[a.id].seen <= k && w.rs[b.id].seen <= k
             && IndexOf(w.classes[d].mro, w.rs[a.id].target) > IndexOf(w.classes[d].mro, w.rs[b.id].target)
    ensures p < q
  {
    CallsInOrder(steps, p, q);
    hide Run;
  }
}
