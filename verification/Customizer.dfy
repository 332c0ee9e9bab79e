/** Model of the class customizer engine in jpype/_jcustomizer.py: prototypes registered for Java classes
    by name, before or after the classes are created, over a multiple-inheritance hierarchy. */
module Customizer {
  type Name = string

  /** What a prototype contributes: at most one __jclass_init__ hook, and a group of sticky methods.
      The id numbers the registration. */
  datatype Proto = Proto(id: nat, hook: bool, sticky: bool)

  /** What a class's __jclass_init__ does to the class it is called with, one entry per prototype. */
  datatype Action = Hook(id: nat) | Sticky(id: nat)

  datatype Call = Call(action: Action, cls: Name)

  /** A created class: its direct bases, its method resolution order and its direct subclasses. */
  datatype Class = Class(bases: seq<Name>, mro: seq<Name>, subclasses: seq<Name>)

  /** JClassHints. */
  datatype Hints = Hints(implementations: seq<Proto>, instantiated: bool)

  /** A registration, with the number of classes that existed when it was made. */
  datatype Registration = Registration(target: Name, proto: Proto, seen: nat)

  // ----- specification of the parts

  function HookOf(p: Proto): seq<Action> { if p.hook then [Hook(p.id)] else [] }
  function StickyOf(p: Proto): seq<Action> { if p.sticky then [Sticky(p.id)] else [] }

  function Hooks(ps: seq<Proto>): seq<Action> {
    if ps == [] then [] else Hooks(ps[..|ps| - 1]) + HookOf(ps[|ps| - 1])
  }

  function Stickies(ps: seq<Proto>): seq<Action> {
    if ps == [] then [] else Stickies(ps[..|ps| - 1]) + StickyOf(ps[|ps| - 1])
  }

  /** The hook, if any, stored in a class dictionary; absent means no action. */
  function InitOf(inits: map<Name, seq<Action>>, c: Name): seq<Action> {
    if c in inits then inits[c] else []
  }

  function CallsOn(actions: seq<Action>, cls: Name): seq<Call> {
    seq(|actions|, i requires 0 <= i < |actions| => Call(actions[i], cls))
  }

  /** applyInitializer: the hooks along the method resolution order, most basic class first. */
  function CreationCalls(inits: map<Name, seq<Action>>, mro: seq<Name>, cls: Name): seq<Call> {
    if mro == [] then []
    else CreationCalls(inits, mro[1..], cls) + CallsOn(InitOf(inits, mro[0]), cls)
  }

  function Each(action: Action, classes: seq<Name>): seq<Call> {
    seq(|classes|, i requires 0 <= i < |classes| => Call(action, classes[i]))
  }

  ghost predicate NoDuplicates<T>(s: seq<T>) { forall i, j :: 0 <= i < j < |s| ==> s[i] != s[j] }

  // ----- counting calls

  lemma {:induction false} CountCallsOn(actions: seq<Action>, cls: Name, a: Action, d: Name)
    ensures multiset(CallsOn(actions, cls))[Call(a, d)] == if d == cls then multiset(actions)[a] else 0
    decreases |actions|
  {
    if actions != [] {
      var n := |actions| - 1;
      CountCallsOn(actions[..n], cls, a, d);
      assert actions == actions[..n] + [actions[n]];
      assert CallsOn(actions, cls) == CallsOn(actions[..n], cls) + [Call(actions[n], cls)];
    } else {
      assert CallsOn(actions, cls) == [];
    }
  }

  /** If only `target` stores the action, and once, it is called once on a new class below it. */
  lemma {:induction false} CountCreationCalls(inits: map<Name, seq<Action>>, mro: seq<Name>, cls: Name,
                                              a: Action, target: Name, present: bool, d: Name)
    requires NoDuplicates(mro)
    requires forall c :: c in mro ==> multiset(InitOf(inits, c))[a] == if c == target && present then 1 else 0
    ensures multiset(CreationCalls(inits, mro, cls))[Call(a, d)]
         == if d == cls && present && target in mro then 1 else 0
    decreases |mro|
  {
    if mro != [] {
      CountCreationCalls(inits, mro[1..], cls, a, target, present, d);
      CountCallsOn(InitOf(inits, mro[0]), cls, a, d);
      assert mro == [mro[0]] + mro[1..];
    }
  }

  lemma {:induction false} CountEach(action: Action, classes: seq<Name>, a: Action, d: Name)
    requires NoDuplicates(classes)
    ensures multiset(Each(action, classes))[Call(a, d)] == if a == action && d in classes then 1 else 0
    decreases |classes|
  {
    if classes != [] {
      var n := |classes| - 1;
      CountEach(action, classes[..n], a, d);
      assert classes == classes[..n] + [classes[n]];
      assert Each(action, classes) == Each(action, classes[..n]) + [Call(action, classes[n])];
    } else {
      assert Each(action, classes) == [];
    }
  }

  ghost predicate DistinctIds(ps: seq<Proto>) { forall i, j :: 0 <= i < j < |ps| ==> ps[i].id != ps[j].id }

  lemma CountOne(p: Proto, id: nat)
    ensures multiset(HookOf(p))[Hook(id)] == if p.hook && p.id == id then 1 else 0
    ensures multiset(HookOf(p))[Sticky(id)] == 0 && multiset(StickyOf(p))[Hook(id)] == 0
    ensures multiset(StickyOf(p))[Sticky(id)] == if p.sticky && p.id == id then 1 else 0
  {
  }

  lemma {:induction false} CountNone(ps: seq<Proto>, id: nat)
    requires forall i :: 0 <= i < |ps| ==> ps[i].id != id
    ensures multiset(Hooks(ps))[Hook(id)] == multiset(Stickies(ps))[Sticky(id)] == 0
    decreases |ps|
  {
    if ps != [] {
      var n := |ps| - 1;
      hide HookOf, StickyOf;
      CountOne(ps[n], id);
      CountNone(ps[..n], id);
    }
  }

  lemma {:induction false} CountForeign(ps: seq<Proto>, id: nat)
    ensures multiset(Hooks(ps))[Sticky(id)] == multiset(Stickies(ps))[Hook(id)] == 0
    decreases |ps|
  {
    if ps != [] {
      CountOne(ps[|ps| - 1], id);
      CountForeign(ps[..|ps| - 1], id);
    }
  }

  lemma CountLast(ps: seq<Proto>)
    requires ps != []
    ensures multiset(Hooks(ps)) == multiset(Hooks(ps[..|ps| - 1])) + multiset(HookOf(ps[|ps| - 1]))
    ensures multiset(Stickies(ps)) == multiset(Stickies(ps[..|ps| - 1])) + multiset(StickyOf(ps[|ps| - 1]))
  {
  }

  /** Prototypes with distinct ids contribute each of their actions once. */
  lemma {:induction false} CountProto(ps: seq<Proto>, k: nat)
    requires DistinctIds(ps) && k < |ps|
    ensures multiset(Hooks(ps))[Hook(ps[k].id)] == if ps[k].hook then 1 else 0
    ensures multiset(Stickies(ps))[Sticky(ps[k].id)] == if ps[k].sticky then 1 else 0
    decreases |ps|
  {
    hide HookOf, StickyOf, Hooks, Stickies;
    var n, id := |ps| - 1, ps[k].id;
    CountLast(ps);
    CountOne(ps[n], id);
    if k < n {
      CountProto(ps[..n], k);
      assert ps[n].id != id;
    } else {
      CountNone(ps[..n], id);
    }
  }

  // ----- the class hierarchy

  /** Classes in creation order, each with earlier bases, and a method resolution order made of itself
      and everything in its bases' orders, in any arrangement without repetition. */
  ghost predicate Hierarchy(order: seq<Name>, classes: map<Name, Class>) {
    && NoDuplicates(order) && (forall c :: c in classes <==> c in order)
    && (forall i :: 0 <= i < |order| ==> Placed(order, classes, i))
    && Linked(classes)
  }

  /** Bases know their direct subclasses. */
  ghost predicate Linked(classes: map<Name, Class>) {
    && (forall c, d :: c in classes && d in classes ==> (d in classes[c].subclasses <==> c in classes[d].bases))
    && (forall c, d :: c in classes && d in classes[c].subclasses ==> d in classes)
  }

  ghost predicate Placed(order: seq<Name>, classes: map<Name, Class>, i: nat)
    requires i < |order| && forall c :: c in order ==> c in classes
  {
    var k := classes[order[i]];
    && (forall b :: b in k.bases ==> b in order[..i])
    && LegalMro(classes, order[i], k.bases, k.mro)
  }

  ghost predicate LegalMro(classes: map<Name, Class>, name: Name, bases: seq<Name>, mro: seq<Name>) {
    && (forall b :: b in bases ==> b in classes)
    && NoDuplicates(mro)
    && forall c :: c in mro <==> c == name || exists b :: b in bases && c in classes[b].mro
  }

  predicate Under(classes: map<Name, Class>, d: Name, c: Name)
    requires d in classes
  {
    c in classes[d].mro
  }

  /** A set of classes that contains c and all direct subclasses of its members contains every class
      under c. */
  lemma {:induction false} ClosedContainsAllUnder(order: seq<Name>, classes: map<Name, Class>,
                                                 closed: set<Name>, c: Name, i: nat)
    requires Hierarchy(order, classes) && c in closed && i < |order|
    requires forall a, d :: a in closed && a in classes && d in classes[a].subclasses ==> d in closed
    requires Under(classes, order[i], c)
    ensures order[i] in closed
    decreases i
  {
    var d := order[i];
    assert Placed(order, classes, i);
    if d != c {
      var b :| b in classes[d].bases && c in classes[b].mro;
      assert b in order[..i];
      var j :| 0 <= j < |order[..i]| && order[..i][j] == b;
      ClosedContainsAllUnder(order, classes, closed, c, j);
      assert d in classes[b].subclasses;
    }
  }

  /** A direct subclass of a class under c is under c. */
  lemma SubclassUnder(order: seq<Name>, classes: map<Name, Class>, a: Name, d: Name, c: Name)
    requires Hierarchy(order, classes) && a in classes && d in classes[a].subclasses && Under(classes, a, c)
    ensures d in classes && Under(classes, d, c)
  {
    assert d in order;
    var i :| 0 <= i < |order| && order[i] == d;
    assert Placed(order, classes, i);
  }

  // ----- what a registration has to have done

  function HintsIn(hints: map<Name, Hints>, c: Name): Hints { if c in hints then hints[c] else Hints([], false) }

  /** The hints of a class hold exactly the prototypes registered for it. */
  ghost predicate Listed(hints: map<Name, Hints>, rs: seq<Registration>, c: Name) {
    var ps := HintsIn(hints, c).implementations;
    && DistinctIds(ps)
    && (forall k :: 0 <= k < |ps| ==> ps[k].id < |rs| && rs[ps[k].id].proto == ps[k] && rs[ps[k].id].target == c)
    && (forall i :: 0 <= i < |rs| && rs[i].target == c ==> rs[i].proto in ps)
  }

  /** The dictionary of a class holds the actions of its own registrations, once each. */
  ghost predicate Installed(init: seq<Action>, rs: seq<Registration>, c: Name) {
    forall i :: 0 <= i < |rs| ==> Holds(init, rs[i], i, c)
  }

  predicate Holds(init: seq<Action>, r: Registration, i: nat, c: Name) {
    && multiset(init)[Hook(i)] == (if r.target == c && r.proto.hook then 1 else 0)
    && multiset(init)[Sticky(i)] == (if r.target == c && r.proto.sticky then 1 else 0)
  }

  /** Registration i has reached the k-th class, d, as it should: its hook was applied exactly once if
      d is at or under the target, and never otherwise, no matter which came first; its sticky methods
      likewise, but only if d was created after the registration. */
  predicate Reached(log: seq<Call>, classes: map<Name, Class>, r: Registration, i: nat, d: Name, k: nat) {
    && d in classes
    && multiset(log)[Call(Hook(i), d)] == (if r.proto.hook && Under(classes, d, r.target) then 1 else 0)
    && multiset(log)[Call(Sticky(i), d)]
       == (if r.proto.sticky && Under(classes, d, r.target) && r.seen <= k then 1 else 0)
  }

  /** No call mentions a registration or a class that does not exist yet. */
  ghost predicate Grounded(log: seq<Call>, classes: map<Name, Class>, n: nat) {
    forall c :: c in log ==> c.cls in classes && c.action.id < n
  }

  /** Everything the engine keeps, and every registration ever made. */
  datatype World = World(order: seq<Name>, classes: map<Name, Class>, hints: map<Name, Hints>,
                         inits: map<Name, seq<Action>>, log: seq<Call>, rs: seq<Registration>)

  ghost predicate ValidWorld(w: World) {
    && Hierarchy(w.order, w.classes) && Grounded(w.log, w.classes, |w.rs|)
    && Numbered(w.rs, |w.order|) && InitsGrounded(w)
    && HintsCurrent(w) && AllListed(w) && AllInstalled(w) && AllReached(w)
  }

  ghost predicate HintsCurrent(w: World) {
    forall c :: c in w.classes <==> HintsIn(w.hints, c).instantiated
  }

  ghost predicate AllListed(w: World) { forall c :: Listed(w.hints, w.rs, c) }

  ghost predicate AllInstalled(w: World) {
    forall c :: c in w.classes ==> Installed(InitOf(w.inits, c), w.rs, c)
  }

  ghost predicate AllReached(w: World) {
    forall i, k :: 0 <= i < |w.rs| && 0 <= k < |w.order| ==> ReachedIn(w, i, k)
  }

  ghost predicate Numbered(rs: seq<Registration>, n: nat) {
    forall i :: 0 <= i < |rs| ==> rs[i].proto.id == i && rs[i].seen <= n
  }

  ghost predicate InitsGrounded(w: World) {
    && (forall c :: c in w.inits ==> c in w.classes)
    && (forall c, a :: c in w.inits && a in w.inits[c] ==> a.id < |w.rs|)
  }

  predicate ReachedIn(w: World, i: nat, k: nat)
    requires i < |w.rs| && k < |w.order|
  {
    Reached(w.log, w.classes, w.rs[i], i, w.order[k], k)
  }

  // ----- a class is created

  function WithClass(classes: map<Name, Class>, name: Name, bases: seq<Name>, mro: seq<Name>): map<Name, Class> {
    (map c | c in classes ::
       if c in bases then classes[c].(subclasses := classes[c].subclasses + [name]) else classes[c])
    [name := Class(bases, mro, [])]
  }

  function WithInit(inits: map<Name, seq<Action>>, name: Name, more: seq<Action>): map<Name, seq<Action>> {
    if more == [] then inits else inits[name := InitOf(inits, name) + more]
  }

  function Created(w: World, name: Name, bases: seq<Name>, mro: seq<Name>): World {
    var h := HintsIn(w.hints, name);
    var inits := WithInit(w.inits, name, Hooks(h.implementations) + Stickies(h.implementations));
    World(w.order + [name], WithClass(w.classes, name, bases, mro), w.hints[name := h.(instantiated := true)],
          inits, w.log + CreationCalls(inits, mro, name), w.rs)
  }

  lemma HierarchyGrows(order: seq<Name>, classes: map<Name, Class>, name: Name, bases: seq<Name>, mro: seq<Name>)
    requires Hierarchy(order, classes) && name !in classes && LegalMro(classes, name, bases, mro)
    ensures Hierarchy(order + [name], WithClass(classes, name, bases, mro))
  {
    var o, k := order + [name], WithClass(classes, name, bases, mro);
    assert NoDuplicates(o) by { hide Placed, Linked, WithClass, LegalMro; assert name !in order; }
    forall i | 0 <= i < |o| ensures Placed(o, k, i) {
      PlacedStays(order, classes, name, bases, mro, i);
    }
    forall c, b | c in classes && b in classes[c].bases ensures b in classes {
      BaseExists(order, classes, c, b);
    }
    LinkedGrows(classes, name, bases, mro);
    hide Placed, Linked, LegalMro;
  }

  lemma BaseExists(order: seq<Name>, classes: map<Name, Class>, c: Name, b: Name)
    requires Hierarchy(order, classes) && c in classes && b in classes[c].bases
    ensures b in classes
  {
    assert c in order;
    var i :| 0 <= i < |order| && order[i] == c;
    assert Placed(order, classes, i);
  }

  lemma PlacedStays(order: seq<Name>, classes: map<Name, Class>, name: Name, bases: seq<Name>, mro: seq<Name>, i: nat)
    requires Hierarchy(order, classes) && name !in classes && LegalMro(classes, name, bases, mro) && i <= |order|
    ensures Placed(order + [name], WithClass(classes, name, bases, mro), i)
  {
    var o, k := order + [name], WithClass(classes, name, bases, mro);
    hide Linked;
    if i < |order| {
      assert Placed(order, classes, i) && o[..i] == order[..i] && o[i] == order[i];
      LegalMroStays(classes, k, order[i], classes[order[i]].bases, classes[order[i]].mro);
    } else {
      assert o[..i] == order;
      LegalMroStays(classes, k, name, bases, mro);
    }
  }

  lemma LegalMroStays(classes: map<Name, Class>, more: map<Name, Class>, name: Name, bases: seq<Name>, mro: seq<Name>)
    requires LegalMro(classes, name, bases, mro)
    requires forall c :: c in classes ==> c in more && more[c].mro == classes[c].mro
    ensures LegalMro(more, name, bases, mro)
  {
  }

  lemma LinkedGrows(classes: map<Name, Class>, name: Name, bases: seq<Name>, mro: seq<Name>)
    requires Linked(classes) && name !in classes && forall b :: b in bases ==> b in classes
    requires forall c, b :: c in classes && b in classes[c].bases ==> b in classes
    ensures Linked(WithClass(classes, name, bases, mro))
  {
  }

  lemma {:induction false} ActionsHaveIds(ps: seq<Proto>, n: nat)
    requires forall k :: 0 <= k < |ps| ==> ps[k].id < n
    ensures forall a :: a in Hooks(ps) + Stickies(ps) ==> a.id < n
    decreases |ps|
  {
    if ps != [] { ActionsHaveIds(ps[..|ps| - 1], n); }
  }

  lemma {:induction false} CreationCallsGrounded(inits: map<Name, seq<Action>>, mro: seq<Name>, cls: Name, n: nat)
    requires forall c, a :: c in inits && a in inits[c] ==> a.id < n
    ensures forall call :: call in CreationCalls(inits, mro, cls) ==> call.cls == cls && call.action.id < n
    decreases |mro|
  {
    if mro != [] { CreationCallsGrounded(inits, mro[1..], cls, n); }
  }

  lemma NewClassInstalled(hints: map<Name, Hints>, rs: seq<Registration>, name: Name, bound: nat)
    requires Listed(hints, rs, name) && Numbered(rs, bound)
    ensures var ps := HintsIn(hints, name).implementations; Installed(Hooks(ps) + Stickies(ps), rs, name)
  {
    var ps := HintsIn(hints, name).implementations;
    forall i | 0 <= i < |rs| ensures Holds(Hooks(ps) + Stickies(ps), rs[i], i, name) {
      CountForeign(ps, i);
      if rs[i].target == name {
        var k :| 0 <= k < |ps| && ps[k] == rs[i].proto;
        CountProto(ps, k);
      } else {
        CountNone(ps, i);
      }
    }
  }

  /** A class that existed is not called again by a creation. */
  lemma OldStaysReached(classes: map<Name, Class>, inits: map<Name, seq<Action>>, log: seq<Call>, r: Registration,
                        i: nat, d: Name, k: nat, name: Name, bases: seq<Name>, mro: seq<Name>)
    requires name !in classes && NoDuplicates(mro) && Reached(log, classes, r, i, d, k)
    requires forall c :: c in mro ==> Holds(InitOf(inits, c), r, i, c)
    ensures Reached(log + CreationCalls(inits, mro, name), WithClass(classes, name, bases, mro), r, i, d, k)
  {
    CountCreationCalls(inits, mro, name, Hook(i), r.target, r.proto.hook, d);
    CountCreationCalls(inits, mro, name, Sticky(i), r.target, r.proto.sticky, d);
  }

  /** The new class gets everything registered for the classes it is under. */
  lemma NewIsReached(classes: map<Name, Class>, inits: map<Name, seq<Action>>, log: seq<Call>, r: Registration,
                     i: nat, k: nat, n: nat, name: Name, bases: seq<Name>, mro: seq<Name>)
    requires name !in classes && NoDuplicates(mro) && Grounded(log, classes, n) && r.seen <= k
    requires forall c :: c in mro ==> Holds(InitOf(inits, c), r, i, c)
    ensures Reached(log + CreationCalls(inits, mro, name), WithClass(classes, name, bases, mro), r, i, name, k)
  {
    CountCreationCalls(inits, mro, name, Hook(i), r.target, r.proto.hook, name);
    CountCreationCalls(inits, mro, name, Sticky(i), r.target, r.proto.sticky, name);
    assert Call(Hook(i), name) !in log && Call(Sticky(i), name) !in log;
  }

  lemma WithInitAdds(inits: map<Name, seq<Action>>, name: Name, more: seq<Action>)
    ensures InitOf(WithInit(inits, name, more), name) == InitOf(inits, name) + more
    ensures forall c :: c != name ==> InitOf(WithInit(inits, name, more), c) == InitOf(inits, c)
    ensures forall c :: c in WithInit(inits, name, more) ==> c in inits || c == name
  {
  }

  lemma CreatedInitsGrounded(w: World, name: Name, bases: seq<Name>, mro: seq<Name>)
    requires InitsGrounded(w) && Listed(w.hints, w.rs, name) && forall b :: b in bases ==> b in w.classes
    ensures InitsGrounded(Created(w, name, bases, mro))
  {
    var v, ps := Created(w, name, bases, mro), HintsIn(w.hints, name).implementations;
    ActionsHaveIds(ps, |w.rs|);
    WithInitAdds(w.inits, name, Hooks(ps) + Stickies(ps));
    hide Listed, CreationCalls, Hooks, Stickies, WithInit;
    forall c, a | c in v.inits && a in v.inits[c] ensures a.id < |w.rs| {
      assert a in InitOf(v.inits, c);
      assert c in w.inits ==> InitOf(w.inits, c) == w.inits[c];
    }
  }

  lemma CreatedInstalls(w: World, name: Name, bases: seq<Name>, mro: seq<Name>)
    requires AllInstalled(w) && InitsGrounded(w) && Listed(w.hints, w.rs, name) && Numbered(w.rs, |w.order|)
    requires name !in w.classes && forall b :: b in bases ==> b in w.classes
    ensures AllInstalled(Created(w, name, bases, mro))
  {
    var v, ps := Created(w, name, bases, mro), HintsIn(w.hints, name).implementations;
    NewClassInstalled(w.hints, w.rs, name, |w.order|);
    WithInitAdds(w.inits, name, Hooks(ps) + Stickies(ps));
    assert InitOf(w.inits, name) == [];
    hide Listed, Numbered, CreationCalls, Hooks, Stickies, Installed, WithInit, InitsGrounded;
    assert InitOf(v.inits, name) == Hooks(ps) + Stickies(ps);
  }

  lemma {:induction false} MroExists(order: seq<Name>, classes: map<Name, Class>, i: nat, c: Name)
    requires Hierarchy(order, classes) && i < |order| && Under(classes, order[i], c)
    ensures c in classes
    decreases i
  {
    assert Placed(order, classes, i);
    if c != order[i] {
      var b :| b in classes[order[i]].bases && c in classes[b].mro;
      assert b in order[..i];
      var j :| 0 <= j < |order[..i]| && order[..i][j] == b;
      MroExists(order, classes, j, c);
    }
  }

  lemma NewMroExists(order: seq<Name>, classes: map<Name, Class>, name: Name, bases: seq<Name>, mro: seq<Name>, c: Name)
    requires Hierarchy(order, classes) && LegalMro(classes, name, bases, mro) && c in mro && c != name
    ensures c in classes
  {
    var b :| b in bases && c in classes[b].mro;
    assert b in order;
    var i :| 0 <= i < |order| && order[i] == b;
    MroExists(order, classes, i, c);
  }

  lemma CreatedReaches(w: World, name: Name, bases: seq<Name>, mro: seq<Name>)
    requires ValidWorld(w) && name !in w.classes && LegalMro(w.classes, name, bases, mro)
    ensures AllReached(Created(w, name, bases, mro))
  {
    var v := Created(w, name, bases, mro);
    assert Listed(w.hints, w.rs, name);
    CreatedInstalls(w, name, bases, mro);
    forall c | c in mro ensures Installed(InitOf(v.inits, c), w.rs, c) {
      if c != name { NewMroExists(w.order, w.classes, name, bases, mro, c); }
    }
    forall i, k | 0 <= i < |v.rs| && 0 <= k < |v.order| ensures ReachedIn(v, i, k) {
      var r := w.rs[i];
      assert r.seen <= |w.order|;
      assert k < |w.order| ==> ReachedIn(w, i, k);
      hide Hierarchy, AllListed, InitsGrounded, AllInstalled, AllReached, HintsCurrent, Numbered;
      hide Reached, Holds, CreationCalls;
      if k < |w.order| {
        OldStaysReached(w.classes, v.inits, w.log, r, i, w.order[k], k, name, bases, mro);
      } else {
        NewIsReached(w.classes, v.inits, w.log, r, i, k, |w.rs|, name, bases, mro);
      }
    }
  }

  lemma CreatedGrounded(w: World, name: Name, bases: seq<Name>, mro: seq<Name>)
    requires InitsGrounded(Created(w, name, bases, mro)) && Grounded(w.log, w.classes, |w.rs|)
    requires name !in w.classes && forall b :: b in bases ==> b in w.classes
    ensures var v := Created(w, name, bases, mro); Grounded(v.log, v.classes, |v.rs|)
  {
    hide CreationCalls;
    CreationCallsGrounded(Created(w, name, bases, mro).inits, mro, name, |w.rs|);
  }

  lemma CreatedHints(w: World, name: Name, bases: seq<Name>, mro: seq<Name>)
    requires HintsCurrent(w) && AllListed(w) && Numbered(w.rs, |w.order|) && forall b :: b in bases ==> b in w.classes
    ensures var v := Created(w, name, bases, mro); HintsCurrent(v) && AllListed(v) && Numbered(v.rs, |v.order|)
  {
    var v := Created(w, name, bases, mro);
    hide CreationCalls, WithInit, Hooks, Stickies;
    forall c ensures Listed(v.hints, v.rs, c) { assert Listed(w.hints, w.rs, c); }
  }

  /** Creating a class keeps everything registered so far in its proper reach. */
  lemma CreatedIsValid(w: World, name: Name, bases: seq<Name>, mro: seq<Name>)
    requires ValidWorld(w) && name !in w.classes && LegalMro(w.classes, name, bases, mro)
    ensures ValidWorld(Created(w, name, bases, mro))
  {
    assert forall b :: b in bases ==> b in w.classes;
    assert Listed(w.hints, w.rs, name);
    hide Hierarchy, Grounded, Numbered, InitsGrounded, HintsCurrent, AllListed, Listed, AllInstalled, AllReached;
    hide LegalMro, CreationCalls, WithInit, WithClass, Hooks, Stickies, HintsIn;
    HierarchyGrows(w.order, w.classes, name, bases, mro);
    CreatedInstalls(w, name, bases, mro);
    CreatedInitsGrounded(w, name, bases, mro);
    CreatedGrounded(w, name, bases, mro);
    CreatedReaches(w, name, bases, mro);
    CreatedHints(w, name, bases, mro);
  }

  // ----- a prototype is registered

  /** What registering adds to the hook of an existing class. */
  function Actions(p: Proto): seq<Action> { Hooks([p]) + Stickies([p]) }

  /** The state after a registration, with the classes that _applyAll visited if it ran. */
  function RegisteredIn(w: World, name: Name, p: Proto, visited: seq<Name>): World {
    var h := HintsIn(w.hints, name);
    World(w.order, w.classes, w.hints[name := h.(implementations := h.implementations + [p])],
          if h.instantiated then WithInit(w.inits, name, Actions(p)) else w.inits,
          if h.instantiated && p.hook then w.log + Each(Hook(p.id), visited) else w.log,
          w.rs + [Registration(name, p, |w.order|)])
  }

  /** _applyAll runs for a hook on an existing class, over every class at or under it, once each, breadth
      first. */
  ghost predicate Visits(w: World, name: Name, p: Proto, visited: seq<Name>) {
    && NoDuplicates(visited)
    && (HintsIn(w.hints, name).instantiated && p.hook ==>
          && (forall d :: d in visited <==> d in w.classes && Under(w.classes, d, name))
          && BreadthFirst(w.classes, name, visited))
  }

  lemma CountActions(p: Proto, id: nat)
    ensures multiset(Actions(p))[Hook(id)] == if p.hook && p.id == id then 1 else 0
    ensures multiset(Actions(p))[Sticky(id)] == if p.sticky && p.id == id then 1 else 0
    ensures forall a :: a in Actions(p) ==> a.id == p.id
  {
    CountOne(p, id);
    OneProto(p);
    hide Hooks, Stickies;
  }

  lemma OneProto(p: Proto)
    ensures Hooks([p]) == HookOf(p) && Stickies([p]) == StickyOf(p)
  {
    var none: seq<Proto> := [];
    hide HookOf, StickyOf;
    assert [p][..|[p]| - 1] == none && Hooks(none) == [] && Stickies(none) == [];
  }

  lemma RegisteredInstalls(w: World, name: Name, p: Proto, visited: seq<Name>)
    requires AllInstalled(w) && InitsGrounded(w) && HintsCurrent(w) && p.id == |w.rs|
    ensures AllInstalled(RegisteredIn(w, name, p, visited))
  {
    var v, n := RegisteredIn(w, name, p, visited), |w.rs|;
    WithInitAdds(w.inits, name, Actions(p));
    hide WithInit, Actions, HintsIn;
    forall c, i | c in v.classes && 0 <= i <= n ensures Holds(InitOf(v.inits, c), v.rs[i], i, c) {
      CountActions(p, i);
      assert i < n ==> Installed(InitOf(w.inits, c), w.rs, c) && Holds(InitOf(w.inits, c), w.rs[i], i, c);
      assert i == n ==> Hook(n) !in InitOf(w.inits, c) && Sticky(n) !in InitOf(w.inits, c);
      assert name in w.classes <==> HintsIn(w.hints, name).instantiated;
    }
  }

  lemma RegisteredInitsGrounded(w: World, name: Name, p: Proto, visited: seq<Name>)
    requires InitsGrounded(w) && HintsCurrent(w) && p.id == |w.rs|
    ensures InitsGrounded(RegisteredIn(w, name, p, visited))
  {
    var v := RegisteredIn(w, name, p, visited);
    WithInitAdds(w.inits, name, Actions(p));
    CountActions(p, 0);
    hide WithInit, Actions, HintsIn;
    forall c, a | c in v.inits && a in v.inits[c] ensures a.id < |v.rs| && c in v.classes {
      assert a in InitOf(v.inits, c);
      assert c in w.inits ==> InitOf(w.inits, c) == w.inits[c];
      assert name in w.classes <==> HintsIn(w.hints, name).instantiated;
    }
    assert forall c :: c in v.inits ==> c in v.classes by {
      assert name in w.classes <==> HintsIn(w.hints, name).instantiated;
    }
  }

  lemma RegisteredReaches(w: World, name: Name, p: Proto, visited: seq<Name>)
    requires AllReached(w) && HintsCurrent(w) && Grounded(w.log, w.classes, |w.rs|) && p.id == |w.rs|
    requires Hierarchy(w.order, w.classes)
    requires Visits(w, name, p, visited)
    ensures AllReached(RegisteredIn(w, name, p, visited))
  {
    var v, n := RegisteredIn(w, name, p, visited), |w.rs|;
    forall i, k | 0 <= i <= n && 0 <= k < |w.order| ensures ReachedIn(v, i, k) {
      var d := w.order[k];
      CountEach(Hook(n), visited, Hook(i), d);
      CountEach(Hook(n), visited, Sticky(i), d);
      assert d in w.classes;
      if i < n {
        assert ReachedIn(w, i, k);
      } else {
        assert Call(Hook(n), d) !in w.log && Call(Sticky(n), d) !in w.log;
        UninstantiatedHasNoneUnder(w, name, k);
      }
    }
  }

  /** Nothing is under a class that does not exist. */
  lemma UninstantiatedHasNoneUnder(w: World, name: Name, k: nat)
    requires Hierarchy(w.order, w.classes) && HintsCurrent(w) && k < |w.order|
    ensures !HintsIn(w.hints, name).instantiated ==> !Under(w.classes, w.order[k], name)
  {
    if Under(w.classes, w.order[k], name) { MroExists(w.order, w.classes, k, name); }
  }

  lemma RegisteredHints(w: World, name: Name, p: Proto, visited: seq<Name>)
    requires HintsCurrent(w) && AllListed(w) && Numbered(w.rs, |w.order|) && p.id == |w.rs|
    ensures var v := RegisteredIn(w, name, p, visited);
            HintsCurrent(v) && AllListed(v) && Numbered(v.rs, |v.order|)
  {
    var v := RegisteredIn(w, name, p, visited);
    hide WithInit, Actions;
    forall c ensures Listed(v.hints, v.rs, c) {
      assert Listed(w.hints, w.rs, c);
      var ps := HintsIn(v.hints, c).implementations;
      assert c == name ==> p in ps && ps == HintsIn(w.hints, c).implementations + [p];
    }
  }

  lemma RegisteredGrounded(w: World, name: Name, p: Proto, visited: seq<Name>)
    requires Grounded(w.log, w.classes, |w.rs|) && p.id == |w.rs| && Visits(w, name, p, visited)
    ensures var v := RegisteredIn(w, name, p, visited); Grounded(v.log, v.classes, |v.rs|)
  {
    hide WithInit, Actions;
  }

  /** Registering a prototype, before or after its class exists, keeps every registration in its
      proper reach, the new one included. */
  lemma RegisteredIsValid(w: World, name: Name, p: Proto, visited: seq<Name>)
    requires ValidWorld(w) && p.id == |w.rs| && Visits(w, name, p, visited)
    ensures ValidWorld(RegisteredIn(w, name, p, visited))
  {
    hide Hierarchy, Grounded, Numbered, InitsGrounded, HintsCurrent, AllListed, AllInstalled, AllReached;
    hide WithInit, Actions, HintsIn, Visits, Each;
    RegisteredInstalls(w, name, p, visited);
    RegisteredInitsGrounded(w, name, p, visited);
    RegisteredReaches(w, name, p, visited);
    RegisteredHints(w, name, p, visited);
    RegisteredGrounded(w, name, p, visited);
  }

  // ----- the engine

  class Engine {
    var order: seq<Name>
    var classes: map<Name, Class>
    var hints: map<Name, Hints>
    var inits: map<Name, seq<Action>>      // the '__jclass_init__' entries of the class dictionaries
    var log: seq<Call>                     // every action called, in order
    var nextId: nat
    ghost var registered: seq<Registration>

    ghost function View(): World
      reads this
    {
      World(order, classes, hints, inits, log, registered)
    }

    ghost predicate Valid()
      reads this
    {
      ValidWorld(View()) && nextId == |registered|
    }

    constructor ()
      ensures Valid() && order == [] && registered == [] && log == []
    {
      order, classes, hints, inits, log, nextId, registered := [], map[], map[], map[], [], 0, [];
    }

    /** _applyAll: a work list over direct subclasses. */
    method ApplyAll(c: Name, action: Action) returns (ghost visited: seq<Name>)
      requires Hierarchy(order, classes) && c in classes
      modifies this`log
      ensures NoDuplicates(visited)
      ensures forall d :: d in visited <==> d in classes && Under(classes, d, c)
      ensures BreadthFirst(classes, c, visited)
      ensures log == old(log) + Each(action, visited)
    {
      var applied: set<Name> := {};
      var todo := [c];
      visited := [];
      ghost var base: seq<nat>, tags: seq<nat> := [], [0];
      hide Hierarchy, Underway, Each, NoDuplicates, BreadthFirst, Under, Copies;
      StartsUnderway(order, classes, c);
      NoCallYet(action);
      while todo != []
        invariant Underway(classes, c, applied, visited, base, todo, tags)
        invariant log == old(log) + Each(action, visited)
        decreases classes.Keys - applied, |todo|
      {
        var x := todo[0];
        UnderwayFacts(order, classes, c, applied, visited, base, todo, tags);
        if x in applied {
          todo, tags := todo[1..], tags[1..];
          continue;
        }
        EachAppend(old(log), action, visited, x);
        Fewer(classes.Keys, applied, x);
        base, tags := base + [tags[0]], tags[1..] + Copies(|classes[x].subclasses|, |visited|);
        todo := todo[1..] + classes[x].subclasses;
        applied := applied + {x};
        visited := visited + [x];
        log := log + [Call(action, x)];
      }
      Arrived(order, classes, c, applied, visited, base, todo, tags);
    }

    /** The sticky methods and hooks that a list of prototypes contributes. */
    static method Collect(ps: seq<Proto>) returns (actions: seq<Action>)
      ensures actions == Hooks(ps) + Stickies(ps)
    {
      var sticky, hooks := [], [];
      for i := 0 to |ps|
        invariant hooks == Hooks(ps[..i]) && sticky == Stickies(ps[..i])
      {
        assert ps[..i + 1][..i] == ps[..i];
        hooks := hooks + HookOf(ps[i]);
        sticky := sticky + StickyOf(ps[i]);
      }
      assert ps[..|ps|] == ps;
      return hooks + sticky;
    }

    /** The hooks along the resolution order, each inserted in front of the earlier ones. */
    method GatherHooks(name: Name, mro: seq<Name>) returns (funcs: seq<seq<Action>>)
      ensures Flat(funcs, name) == CreationCalls(inits, mro, name)
    {
      hide CreationCalls, CallsOn;
      funcs := [];
      NoCreationCalls(inits, mro[..0], name);
      for i := 0 to |mro|
        invariant Flat(funcs, name) == CreationCalls(inits, mro[..i], name)
      {
        CreationCallsExtend(inits, mro[..i], mro[i], name);
        assert mro[..i + 1] == mro[..i] + [mro[i]];
        if mro[i] in inits {
          assert ([inits[mro[i]]] + funcs)[1..] == funcs;
          funcs := [inits[mro[i]]] + funcs;
        } else {
          NoCalls(name);
        }
      }
      assert mro[..|mro|] == mro;
    }

    /** applyInitializer: gather the hooks, then call them on the class. */
    method ApplyInitializer(name: Name, mro: seq<Name>)
      modifies this`log, this`hints
      ensures log == old(log) + CreationCalls(inits, mro, name)
      ensures hints == old(hints)[name := HintsIn(old(hints), name).(instantiated := true)]
    {
      hide CreationCalls, CallsOn, Flat;
      hints := hints[name := HintsIn(hints, name).(instantiated := true)];
      var funcs := GatherHooks(name, mro);
      ghost var after := hints;
      assert funcs[0..] == funcs;
      for i := 0 to |funcs|
        invariant log + Flat(funcs[i..], name) == old(log) + CreationCalls(inits, mro, name) && hints == after
      {
        FlatStep(funcs, i, name);
        assert log + Flat(funcs[i..], name) == log + CallsOn(funcs[i], name) + Flat(funcs[i + 1..], name);
        log := log + CallsOn(funcs[i], name);
      }
      FlatEnd(funcs[|funcs|..], name);
    }

    /** A Java class wrapper is created: applyCustomizers, the class itself, applyInitializer. */
    method CreateClass(name: Name, bases: seq<Name>, mro: seq<Name>)
      requires Valid() && name !in classes && LegalMro(classes, name, bases, mro)
      modifies this
      ensures Valid() && View() == Created(old(View()), name, bases, mro)
    {
      hide ValidWorld, LegalMro, CreationCalls, Hooks, Stickies;
      CreatedIsValid(View(), name, bases, mro);
      ghost var w := View();
      var actions := Collect(HintsIn(hints, name).implementations);
      AbsentInit(w, name);
      if actions != [] {
        inits := inits[name := actions];
        assert InitOf(w.inits, name) + actions == actions;
      }
      assert inits == WithInit(w.inits, name, actions);
      classes := WithClass(classes, name, bases, mro);
      order := order + [name];
      ApplyInitializer(name, mro);
    }

    /** registerClassImplementation, with _applyCustomizerPost if the class exists already. */
    method Register(name: Name, hook: bool, sticky: bool) returns (ghost visited: seq<Name>)
      requires Valid()
      modifies this
      ensures Visits(old(View()), name, Proto(old(nextId), hook, sticky), visited)
      ensures Valid() && View() == RegisteredIn(old(View()), name, Proto(old(nextId), hook, sticky), visited)
    {
      hide ValidWorld, Hooks, Stickies, Each, InitOf;
      ghost var w := View();
      WorldFacts(w);
      var proto := Proto(nextId, hook, sticky);
      var h := HintsIn(hints, name);
      visited := [];
      nextId := nextId + 1;
      registered := registered + [Registration(name, proto, |order|)];
      hints := hints[name := h.(implementations := h.implementations + [proto])];
      if h.instantiated {
        var actions := Collect([proto]);
        if actions != [] {
          inits := inits[name := InitOf(inits, name) + actions];
        }
        if hook {
          visited := ApplyAll(name, Hook(proto.id));
        }
      }
      RegisteredIsValid(w, name, proto, visited);
    }
  }

  /** One step of a run; for Add, also the classes that its _applyAll visits. */
  datatype Step =
    | Create(name: Name, bases: seq<Name>, mro: seq<Name>)
    | Add(name: Name, hook: bool, sticky: bool, visited: seq<Name>)

  /** A step as CreateClass and Register take it; one they could not take changes nothing. */
  ghost function Do(w: World, s: Step): World {
    match s
    case Create(name, bases, mro) =>
      if name !in w.classes && LegalMro(w.classes, name, bases, mro) then Created(w, name, bases, mro) else w
    case Add(name, hook, sticky, visited) =>
      var p := Proto(|w.rs|, hook, sticky);
      if Visits(w, name, p, visited) then RegisteredIn(w, name, p, visited) else w
  }

  ghost function Run(steps: seq<Step>): World {
    if steps == [] then World([], map[], map[], map[], [], []) else Do(Run(steps[..|steps| - 1]), steps[|steps| - 1])
  }

  lemma {:induction false} RunIsValid(steps: seq<Step>)
    ensures ValidWorld(Run(steps))
  {
    if steps == [] {
      assert Run(steps) == World([], map[], map[], map[], [], []);
    } else {
      hide ValidWorld, LegalMro, Visits, Created, RegisteredIn;
      var w, s := Run(steps[..|steps| - 1]), steps[|steps| - 1];
      RunIsValid(steps[..|steps| - 1]);
      match s
      case Create(name, bases, mro) =>
        if name !in w.classes && LegalMro(w.classes, name, bases, mro) { CreatedIsValid(w, name, bases, mro); }
      case Add(name, hook, sticky, visited) =>
        var p := Proto(|w.rs|, hook, sticky);
        if Visits(w, name, p, visited) { RegisteredIsValid(w, name, p, visited); }
    }
  }

  lemma AbsentInit(w: World, name: Name)
    requires ValidWorld(w) && name !in w.classes
    ensures InitOf(w.inits, name) == []
  {
  }

  lemma WorldFacts(w: World)
    requires ValidWorld(w)
    ensures Hierarchy(w.order, w.classes) && HintsCurrent(w)
  {
  }

  /** Over any interleaving of class creations and registrations: for every registration and every class
      that exists, the hook has been applied to the class exactly once if the class is at or under the
      target and not at all otherwise, whichever of the two came first; the sticky methods have been
      installed by the class's initialization exactly if the class came later. */
  lemma HooksReachEveryClassOnce(steps: seq<Step>, i: nat, k: nat)
    requires i < |Run(steps).rs| && k < |Run(steps).order|
    ensures var w := Run(steps);
            var r, d := w.rs[i], w.order[k];
            && d in w.classes
            && multiset(w.log)[Call(Hook(i), d)] == (if r.proto.hook && Under(w.classes, d, r.target) then 1 else 0)
            && multiset(w.log)[Call(Sticky(i), d)]
               == (if r.proto.sticky && Under(w.classes, d, r.target) && r.seen <= k then 1 else 0)
  {
    RunIsValid(steps);
    assert ReachedIn(Run(steps), i, k);
  }

  function Flat(funcs: seq<seq<Action>>, name: Name): seq<Call> {
    if funcs == [] then [] else CallsOn(funcs[0], name) + Flat(funcs[1..], name)
  }

  lemma FlatStep(funcs: seq<seq<Action>>, i: nat, name: Name)
    requires i < |funcs|
    ensures Flat(funcs[i..], name) == CallsOn(funcs[i], name) + Flat(funcs[i + 1..], name)
  {
    assert funcs[i..][1..] == funcs[i + 1..];
  }

  lemma FlatEnd(funcs: seq<seq<Action>>, name: Name)
    requires funcs == []
    ensures Flat(funcs, name) == []
  {
  }

  lemma NoCreationCalls(inits: map<Name, seq<Action>>, mro: seq<Name>, name: Name)
    requires mro == []
    ensures CreationCalls(inits, mro, name) == []
  {
  }

  lemma NoCalls(name: Name)
    ensures CallsOn([], name) == []
  {
  }

  lemma {:induction false} CreationCallsExtend(inits: map<Name, seq<Action>>, mro: seq<Name>, c: Name, name: Name)
    ensures CreationCalls(inits, mro + [c], name) == CallsOn(InitOf(inits, c), name) + CreationCalls(inits, mro, name)
    decreases |mro|
  {
    if mro == [] {
      assert (mro + [c])[1..] == [];
    } else {
      CreationCallsExtend(inits, mro[1..], c, name);
      assert (mro + [c])[1..] == mro[1..] + [c];
    }
  }

  /** The work list invariant of _applyAll. */
  ghost predicate Frontier(classes: map<Name, Class>, applied: set<Name>, todo: seq<Name>, c: Name) {
    && (c in applied || c in todo)
    && (forall d :: d in applied || d in todo ==> d in classes && Under(classes, d, c))
    && (forall a, d :: a in applied && a in classes && d in classes[a].subclasses ==> d in applied || d in todo)
  }

  /** Behind the first class, c, every visited class is a direct subclass of an earlier one, base[k] at
      the earliest, and classes found from an earlier base come before those found from a later one. */
  ghost predicate FoundFrom(classes: map<Name, Class>, c: Name, visited: seq<Name>, base: seq<nat>) {
    && |base| == |visited| && (visited != [] ==> visited[0] == c)
    && (forall k :: 0 <= k < |visited| ==> visited[k] in classes)
    && (forall k :: 0 < k < |visited| ==> FirstFrom(classes, visited, visited[k], base[k]) && base[k] < k)
    && (forall k, l :: 0 < k < l < |visited| ==> base[k] <= base[l])
  }

  ghost predicate FirstFrom(classes: map<Name, Class>, visited: seq<Name>, x: Name, j: nat)
    requires forall k :: 0 <= k < |visited| ==> visited[k] in classes
  {
    && j < |visited| && x in classes[visited[j]].subclasses
    && forall i :: 0 <= i < j ==> x !in classes[visited[i]].subclasses
  }

  /** The classes are visited breadth first from c. */
  ghost predicate BreadthFirst(classes: map<Name, Class>, c: Name, visited: seq<Name>) {
    exists base :: FoundFrom(classes, c, visited, base)
  }

  /** The work list holds, in order, the classes found from visited[tags[0]], visited[tags[1]], ... */
  ghost predicate Queue(classes: map<Name, Class>, c: Name, visited: seq<Name>, base: seq<nat>,
                        todo: seq<Name>, tags: seq<nat>) {
    && |tags| == |todo| && FoundFrom(classes, c, visited, base)
    && (if visited == [] then todo == [c] && tags == [0]
        else Tagged(classes, visited, todo, tags) && Monotone(base, tags)
             && forall j :: 0 <= j < |visited| ==> Discovered(classes, visited, todo, tags, j))
  }

  ghost predicate Tagged(classes: map<Name, Class>, visited: seq<Name>, todo: seq<Name>, tags: seq<nat>)
    requires |tags| == |todo| && forall k :: 0 <= k < |visited| ==> visited[k] in classes
  {
    forall t :: 0 <= t < |todo| ==> tags[t] < |visited| && todo[t] in classes[visited[tags[t]]].subclasses
  }

  ghost predicate Monotone(base: seq<nat>, tags: seq<nat>) {
    && (forall k, t :: 0 < k < |base| && 0 <= t < |tags| ==> base[k] <= tags[t])
    && (forall t, u :: 0 <= t < u < |tags| ==> tags[t] <= tags[u])
  }

  /** What visited[j] leads to was visited, or waits with a tag no larger than j. */
  ghost predicate Discovered(classes: map<Name, Class>, visited: seq<Name>, todo: seq<Name>, tags: seq<nat>, j: nat)
    requires j < |visited| && visited[j] in classes && |tags| == |todo|
  {
    forall y :: y in classes[visited[j]].subclasses ==> y in visited || Waits(todo, tags, y, j)
  }

  ghost predicate Waits(todo: seq<Name>, tags: seq<nat>, y: Name, j: nat)
    requires |tags| == |todo|
  {
    exists t :: 0 <= t < |todo| && todo[t] == y && tags[t] <= j
  }

  function Copies(n: nat, tag: nat): (s: seq<nat>)
    ensures |s| == n && forall i :: 0 <= i < n ==> s[i] == tag
  {
    seq(n, _ => tag)
  }

  /** What the loop of _applyAll keeps. */
  ghost predicate Underway(classes: map<Name, Class>, c: Name, applied: set<Name>, visited: seq<Name>,
                           base: seq<nat>, todo: seq<Name>, tags: seq<nat>) {
    && Frontier(classes, applied, todo, c) && NoDuplicates(visited) && SameMembers(visited, applied)
    && Queue(classes, c, visited, base, todo, tags)
  }

  lemma StartsUnderway(order: seq<Name>, classes: map<Name, Class>, c: Name)
    requires Hierarchy(order, classes) && c in classes
    ensures Underway(classes, c, {}, [], [], [c], [0])
  {
    SelfUnder(order, classes, c);
    hide Hierarchy, Under;
  }

  lemma NoCallYet(action: Action)
    ensures Each(action, []) == []
  {
  }

  lemma UnderwayFacts(order: seq<Name>, classes: map<Name, Class>, c: Name, applied: set<Name>, visited: seq<Name>,
                      base: seq<nat>, todo: seq<Name>, tags: seq<nat>)
    requires Hierarchy(order, classes) && Underway(classes, c, applied, visited, base, todo, tags) && todo != []
    ensures todo[0] in classes && |tags| == |todo|
    ensures todo[0] in applied ==> Underway(classes, c, applied, visited, base, todo[1..], tags[1..])
    ensures var x := todo[0];
            x !in applied ==>
              Underway(classes, c, applied + {x}, visited + [x], base + [tags[0]],
                       todo[1..] + classes[x].subclasses,
                       tags[1..] + Copies(|classes[x].subclasses|, |visited|))
  {
    var x := todo[0];
    Expand(order, classes, applied, todo, c);
    InSame(visited, applied, x);
    hide Hierarchy, Frontier, Queue, NoDuplicates, SameMembers;
    QueueLengths(classes, c, visited, base, todo, tags);
    if x in applied {
      Skip(classes, applied, todo, c);
      QueueSkips(classes, c, visited, base, todo, tags);
    } else {
      OneMore(visited, applied, x);
      QueueVisits(classes, c, visited, base, todo, tags);
    }
  }

  lemma QueueLengths(classes: map<Name, Class>, c: Name, visited: seq<Name>, base: seq<nat>,
                     todo: seq<Name>, tags: seq<nat>)
    requires Queue(classes, c, visited, base, todo, tags)
    ensures |tags| == |todo|
  {
  }

  lemma Arrived(order: seq<Name>, classes: map<Name, Class>, c: Name, applied: set<Name>, visited: seq<Name>,
                base: seq<nat>, todo: seq<Name>, tags: seq<nat>)
    requires Hierarchy(order, classes) && Underway(classes, c, applied, visited, base, todo, tags) && todo == []
    ensures NoDuplicates(visited) && BreadthFirst(classes, c, visited)
    ensures forall d :: d in visited <==> d in classes && Under(classes, d, c)
  {
    AllApplied(order, classes, visited, applied, c);
  }

  ghost predicate SameMembers(s: seq<Name>, t: set<Name>) { forall d :: d in s <==> d in t }

  lemma OneMore(s: seq<Name>, t: set<Name>, x: Name)
    requires NoDuplicates(s) && SameMembers(s, t) && x !in t
    ensures NoDuplicates(s + [x]) && SameMembers(s + [x], t + {x}) && x !in s
  {
  }

  lemma InSame(s: seq<Name>, t: set<Name>, x: Name)
    requires SameMembers(s, t)
    ensures x in s <==> x in t
  {
  }

  lemma QueueSkips(classes: map<Name, Class>, c: Name, visited: seq<Name>, base: seq<nat>,
                   todo: seq<Name>, tags: seq<nat>)
    requires Queue(classes, c, visited, base, todo, tags) && todo != [] && todo[0] in visited
    ensures Queue(classes, c, visited, base, todo[1..], tags[1..])
  {
    forall j | 0 <= j < |visited| ensures Discovered(classes, visited, todo[1..], tags[1..], j) {
      assert Discovered(classes, visited, todo, tags, j);
      forall y | y in classes[visited[j]].subclasses && y !in visited ensures Waits(todo[1..], tags[1..], y, j) {
        var t :| 0 <= t < |todo| && todo[t] == y && tags[t] <= j;
        assert todo[1..][t - 1] == y && tags[1..][t - 1] <= j;
      }
    }
  }

  lemma QueueVisits(classes: map<Name, Class>, c: Name, visited: seq<Name>, base: seq<nat>,
                    todo: seq<Name>, tags: seq<nat>)
    requires Queue(classes, c, visited, base, todo, tags) && todo != [] && todo[0] !in visited && todo[0] in classes
    ensures var x := todo[0];
            Queue(classes, c, visited + [x], base + [tags[0]], todo[1..] + classes[x].subclasses,
                  tags[1..] + Copies(|classes[x].subclasses|, |visited|))
  {
    var x, n := todo[0], |visited|;
    var found, more := classes[x].subclasses, Copies(|classes[x].subclasses|, n);
    VisitedFound(classes, c, visited, base, todo, tags);
    VisitedTagged(classes, c, visited, base, todo, tags);
    forall j | 0 <= j <= n ensures Discovered(classes, visited + [x], todo[1..] + found, tags[1..] + more, j) {
      hide Tagged, Monotone, Discovered, FirstFrom;
      if j < n {
        StaysDiscovered(classes, visited, todo, tags, found, more, j);
      } else {
        NewlyDiscovered(classes, visited + [x], todo[1..], tags[1..], more);
      }
    }
    hide FoundFrom, Discovered, Tagged, Monotone;
  }

  lemma VisitedTagged(classes: map<Name, Class>, c: Name, visited: seq<Name>, base: seq<nat>,
                      todo: seq<Name>, tags: seq<nat>)
    requires Queue(classes, c, visited, base, todo, tags) && todo != [] && todo[0] in classes
    ensures var x := todo[0];
            var later := tags[1..] + Copies(|classes[x].subclasses|, |visited|);
            && Tagged(classes, visited + [x], todo[1..] + classes[x].subclasses, later)
            && Monotone(base + [tags[0]], later)
  {
    var x, more := todo[0], visited + [todo[0]];
    hide Discovered, FirstFrom;
    forall t | 0 <= t < |todo| - 1 && visited != []
      ensures tags[1..][t] < |visited| && todo[1..][t] in classes[more[tags[1..][t]]].subclasses
    {
      assert todo[1..][t] == todo[t + 1] && tags[1..][t] == tags[t + 1];
    }
  }

  lemma StaysDiscovered(classes: map<Name, Class>, visited: seq<Name>, todo: seq<Name>, tags: seq<nat>,
                        found: seq<Name>, more: seq<nat>, j: nat)
    requires j < |visited| && visited[j] in classes && |tags| == |todo| > 0 && |found| == |more|
    requires Discovered(classes, visited, todo, tags, j)
    ensures Discovered(classes, visited + [todo[0]], todo[1..] + found, tags[1..] + more, j)
  {
    var later, laterTags := todo[1..] + found, tags[1..] + more;
    forall y | y in classes[visited[j]].subclasses && y !in visited + [todo[0]] ensures Waits(later, laterTags, y, j) {
      assert y !in visited && y != todo[0];
      var t :| 0 <= t < |todo| && todo[t] == y && tags[t] <= j;
      assert later[t - 1] == y && laterTags[t - 1] <= j;
    }
  }

  lemma NewlyDiscovered(classes: map<Name, Class>, visited: seq<Name>, todo: seq<Name>, tags: seq<nat>, more: seq<nat>)
    requires visited != [] && visited[|visited| - 1] in classes && |tags| == |todo|
    requires var found := classes[visited[|visited| - 1]].subclasses;
             |more| == |found| && forall t :: 0 <= t < |more| ==> more[t] == |visited| - 1
    ensures var found := classes[visited[|visited| - 1]].subclasses;
            Discovered(classes, visited, todo + found, tags + more, |visited| - 1)
  {
    var found := classes[visited[|visited| - 1]].subclasses;
    forall y | y in found ensures Waits(todo + found, tags + more, y, |visited| - 1) {
      var t :| 0 <= t < |found| && found[t] == y;
      assert (todo + found)[|todo| + t] == y && (tags + more)[|todo| + t] == |visited| - 1;
    }
  }

  lemma VisitedFound(classes: map<Name, Class>, c: Name, visited: seq<Name>, base: seq<nat>,
                     todo: seq<Name>, tags: seq<nat>)
    requires Queue(classes, c, visited, base, todo, tags) && todo != [] && todo[0] !in visited && todo[0] in classes
    ensures FoundFrom(classes, c, visited + [todo[0]], base + [tags[0]])
  {
    var more := visited + [todo[0]];
    if visited != [] {
      HeadFound(classes, c, visited, base, todo, tags);
      hide Discovered, Tagged, FirstFrom;
      forall k | 0 < k < |more| ensures FirstFrom(classes, more, more[k], (base + [tags[0]])[k]) {
        if k < |visited| { StaysFirst(classes, visited, todo[0], visited[k], base[k]); }
      }
    }
  }

  lemma StaysFirst(classes: map<Name, Class>, visited: seq<Name>, last: Name, x: Name, j: nat)
    requires forall k :: 0 <= k < |visited| ==> visited[k] in classes
    requires FirstFrom(classes, visited, x, j) && last in classes
    ensures FirstFrom(classes, visited + [last], x, j)
  {
  }

  lemma HeadFound(classes: map<Name, Class>, c: Name, visited: seq<Name>, base: seq<nat>,
                  todo: seq<Name>, tags: seq<nat>)
    requires Queue(classes, c, visited, base, todo, tags) && todo != [] && todo[0] !in visited && todo[0] in classes
    requires visited != []
    ensures FirstFrom(classes, visited + [todo[0]], todo[0], tags[0]) && tags[0] < |visited|
  {
    hide FirstFrom;
    forall i | 0 <= i < tags[0] ensures todo[0] !in classes[visited[i]].subclasses {
      assert Discovered(classes, visited, todo, tags, i);
      assert !Waits(todo, tags, todo[0], i);
    }
    HeadIsFirst(classes, visited, todo[0], tags[0]);
  }

  lemma HeadIsFirst(classes: map<Name, Class>, visited: seq<Name>, x: Name, j: nat)
    requires (forall k :: 0 <= k < |visited| ==> visited[k] in classes) && x in classes && j < |visited|
    requires x in classes[visited[j]].subclasses
    requires forall i :: 0 <= i < j ==> x !in classes[visited[i]].subclasses
    ensures FirstFrom(classes, visited + [x], x, j)
  {
  }

  lemma Skip(classes: map<Name, Class>, applied: set<Name>, todo: seq<Name>, c: Name)
    requires Frontier(classes, applied, todo, c) && todo != [] && todo[0] in applied
    ensures Frontier(classes, applied, todo[1..], c)
  {
    assert todo == [todo[0]] + todo[1..];
  }

  lemma Expand(order: seq<Name>, classes: map<Name, Class>, applied: set<Name>, todo: seq<Name>, c: Name)
    requires Hierarchy(order, classes)
    requires Frontier(classes, applied, todo, c) && todo != []
    ensures todo[0] in classes
    ensures Frontier(classes, applied + {todo[0]}, todo[1..] + classes[todo[0]].subclasses, c)
  {
    var x := todo[0];
    assert todo == [x] + todo[1..];
    forall d | d in classes[x].subclasses ensures d in classes && Under(classes, d, c) {
      SubclassUnder(order, classes, x, d, c);
    }
    hide Hierarchy;
  }

  lemma AllApplied(order: seq<Name>, classes: map<Name, Class>, visited: seq<Name>, applied: set<Name>, c: Name)
    requires Hierarchy(order, classes) && Frontier(classes, applied, [], c) && SameMembers(visited, applied)
    ensures forall d :: d in visited <==> d in classes && Under(classes, d, c)
  {
    forall d | d in classes && Under(classes, d, c) ensures d in applied {
      var i :| 0 <= i < |order| && order[i] == d;
      ClosedContainsAllUnder(order, classes, applied, c, i);
    }
  }

  lemma EachAppend(log: seq<Call>, action: Action, classes: seq<Name>, x: Name)
    ensures log + Each(action, classes + [x]) == log + Each(action, classes) + [Call(action, x)]
  {
    assert Each(action, classes + [x]) == Each(action, classes) + [Call(action, x)];
  }

  lemma Fewer(all: set<Name>, applied: set<Name>, x: Name)
    requires x in all && x !in applied
    ensures all - (applied + {x}) < all - applied
  {
  }

  lemma SelfUnder(order: seq<Name>, classes: map<Name, Class>, c: Name)
    requires Hierarchy(order, classes) && c in classes
    ensures Under(classes, c, c)
  {
    var i :| 0 <= i < |order| && order[i] == c;
    assert Placed(order, classes, i);
  }
}
