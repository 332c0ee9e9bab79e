/** Model of JPMethod::packArgs (native/common/jp_method.cpp) after a successful match. */
module Packing {
  import opened Methods
  import opened Wrappers

  datatype JValue =
    | Unset
    | Converted(arg: Arg, to: JavaType)
    | Elements(args: seq<Arg>, of: JavaType)

  /** The slots JNI reads: one per parameter, the receiver excepted. */
  function Slots(m: Method): int { |m.params| - (if m.IsInstance() then 1 else 0) }

  /** The parameter type that slot s is read as. */
  function ParamOf(m: Method, s: nat): int { s + |m.params| - Slots(m) }

  /** What belongs in slot s: the argument at the position of its parameter, or for the array of an
      indirect variadic call all the trailing arguments. */
  function RightSlot(m: Method, c: Call, s: nat): JValue
    requires m.Callable(c) && Fit(m, c) >= IMPLICIT && s < Slots(m)
  {
    var p, off := ParamOf(m, s), Offset(m, c);
    if Indirect(m, c) && p == |m.params| - 1 then Elements(c.args[p + off..], Component(m.params[p]))
    else Converted(c.args[p + off], m.params[p])
  }

  /** The source reads the wrong argument positions for these calls. */
  predicate Misaligned(m: Method, c: Call) { m.isVarArgs && m.isStatic && c.instance }

  // ----- what the code of matches and packArgs does, slot by slot

  /** What packArgs writes into slot s. */
  function PackedSlot(m: Method, c: Call, s: nat): JValue {
    var tlen, skip, n := |m.params|, Skip(m, c), |c.args|;
    var len := if Indirect(m, c) then tlen - 1 else n;
    if s + skip < len && s + skip < n && Tested(m, c, s + skip).Some? then
      Converted(c.args[s + skip], Tested(m, c, s + skip).value)
    else if Indirect(m, c) && s == tlen - 1 - skip && tlen - 1 <= n then
      Elements(c.args[tlen - 1..], Component(m.params[tlen - 1]))
    else Unset
  }

  /** Packing is right for every slot exactly when the call is not a static variadic method called
      on an instance. */
  lemma PackedIffAligned(m: Method, c: Call)
    requires m.Callable(c) && Fit(m, c) >= IMPLICIT
    ensures (forall s :: 0 <= s < Slots(m) ==> PackedSlot(m, c, s) == RightSlot(m, c, s))
       <==> !Misaligned(m, c)
  {
    hide Pairwise, TailFit;
    if Misaligned(m, c) {
      var last := Slots(m) - 1;
      assert PackedSlot(m, c, last) != RightSlot(m, c, last);
    }
  }

  /** A misaligned call that matches and is packed wrongly: all arguments land in the first slot. */
  method MisalignedMatch() returns (m: Method, c: Call)
    ensures m.Callable(c) && Fit(m, c) == EXACT && Misaligned(m, c) && Packable(m, c)
    ensures |m.params| == 2 && c.args == [0, 1, 2]
    ensures RightSlot(m, c, 0) == Converted(1, m.params[0]) && RightSlot(m, c, 1).Elements?
    ensures PackedSlot(m, c, 0) == Elements([1, 2], Component(m.params[1])) && PackedSlot(m, c, 1) == Unset
  {
    var first, rest := Scalar(_ => EXACT), ArrayOf(_ => NONE, Scalar(_ => EXACT));
    m := new Method(true, false, true, [first, rest], []);
    c := CallData([0, 1, 2], true, 10);
    MisalignedFit(m, c);
    hide Fit;
    assert c.args[2..] == [2] && c.args[1..] == [1, 2];
  }

  lemma MisalignedFit(m: Method, c: Call)
    requires m.isStatic && m.isVarArgs && c.instance && |m.params| == 2 && |c.args| == 3 && m.params[1].ArrayOf?
    requires m.params[1].accepts(c.args[0]) < IMPLICIT
    requires m.params[0].accepts(c.args[1]) == EXACT && m.params[1].component.accepts(c.args[2]) == EXACT
    ensures Indirect(m, c) && Fit(m, c) == EXACT
  {
    AllExact(m.params[..1], c.args[1..2]);
    var last := c.args[2..];
    assert Against(m.params[1].component, last[1..]) == EXACT;
    assert TailFit(m, c) == EXACT;
    hide TailFit, Pairwise;
  }

  lemma AllExact(types: seq<JavaType>, args: seq<Arg>)
    requires |types| == |args| == 1 && types[0].accepts(args[0]) == EXACT
    ensures Pairwise(types, args) == EXACT
  {
    PairwiseEmpty(types[1..], args[1..]);
  }

  /** The calls that packArgs packs at all: for the others it writes in front of the vector, or converts
      an argument that no type was tried on. */
  predicate Packable(m: Method, c: Call) {
    Misaligned(m, c) ==> Indirect(m, c) && |m.params| >= 2
  }

  lemma Layout(m: Method, c: Call)
    requires m.Callable(c) && Fit(m, c) >= IMPLICIT && Packable(m, c)
    ensures var n, tlen, skip := |c.args|, |m.params|, Skip(m, c);
            if Indirect(m, c) then skip <= tlen - 1 <= n else skip <= n <= tlen + skip
    ensures !Misaligned(m, c) ==> forall s :: s >= Slots(m) ==> PackedSlot(m, c, s) == Unset
  {
    hide Pairwise, TailFit;
  }

  /** What the write for argument i puts in its slot. */
  lemma LayoutAt(m: Method, c: Call, i: nat)
    requires m.Callable(c) && Fit(m, c) >= IMPLICIT && Packable(m, c)
    requires Skip(m, c) <= i < |c.args| && (Indirect(m, c) ==> i < |m.params| - 1)
    ensures Tested(m, c, i).Some?
    ensures PackedSlot(m, c, i - Skip(m, c)) == Converted(c.args[i], Tested(m, c, i).value)
  {
    hide Pairwise, TailFit;
  }

  /** What is behind the written slots. */
  lemma LayoutBehind(m: Method, c: Call, s: nat)
    requires m.Callable(c) && Fit(m, c) >= IMPLICIT && Packable(m, c)
    requires s + Skip(m, c) >= if Indirect(m, c) then |m.params| - 1 else |c.args|
    ensures PackedSlot(m, c, s)
         == if Indirect(m, c) && s + Skip(m, c) == |m.params| - 1
            then Elements(c.args[|m.params| - 1..], Component(m.params[|m.params| - 1])) else Unset
  {
    hide Pairwise, TailFit;
  }

  /** JPMethod::packArgs into a fresh vector of one slot more than there are parameters. */
  method PackArgs(m: Method, record: MethodMatch, v: array<JValue>)
    requires m.Callable(record.call) && record.Holds(m) && Packable(m, record.call)
    requires v.Length == |m.params| + 1
    requires forall s :: 0 <= s < v.Length ==> v[s] == Unset
    modifies v
    ensures forall s :: 0 <= s < v.Length ==> v[s] == PackedSlot(m, record.call, s)
    ensures !Misaligned(m, record.call) ==>
              forall s :: 0 <= s < v.Length ==>
                v[s] == if s < Slots(m) then RightSlot(m, record.call, s) else Unset
  {
    hide Fit, RightSlot, PackedSlot, Tested, Indirect, Skip, Misaligned, Packable;
    var c := record.call;
    var len, tlen := |c.args|, |m.params|;
    Layout(m, c);
    PackedIffAligned(m, c);
    if record.indirect {
      len := tlen - 1;
      v[tlen - 1 - record.skip] := Elements(c.args[tlen - 1..], Component(m.params[tlen - 1]));
    }
    forall s | len - record.skip <= s < v.Length ensures v[s] == PackedSlot(m, c, s) {
      LayoutBehind(m, c, s);
    }
    for i := record.skip to len
      invariant forall s :: 0 <= s < i - record.skip || len - record.skip <= s < v.Length ==>
        v[s] == PackedSlot(m, c, s)
      invariant forall s :: i - record.skip <= s < len - record.skip ==> v[s] == Unset
    {
      LayoutAt(m, c, i);
      assert v[i - record.skip] == Unset;
      v[i - record.skip] := Converted(c.args[i], record.targets[i].value);
    }
  }

  /** The arguments behind the receiver or the instance called on, and the types of the slots. */
  function Passed(m: Method, c: Call): seq<Arg>
    requires m.IsInstance() ==> |c.args| >= 1
  {
    if c.instance || m.IsInstance() then c.args[1..] else c.args
  }

  function SlotTypes(m: Method): seq<JavaType>
    requires m.IsInstance() ==> |m.params| >= 1
  {
    if m.IsInstance() then m.params[1..] else m.params
  }

  /** The slots of an aligned call are the passed arguments in order, each converted to the type at its
      own place. The last slot of a variadic method is the last argument if there are as many as slots
      and it is accepted as the array, and otherwise an array of all arguments from there on. */
  lemma SlotsInOrder(m: Method, c: Call)
    requires m.Callable(c) && Fit(m, c) >= IMPLICIT && !Misaligned(m, c)
    ensures m.IsInstance() ==> |c.args| >= 1
    ensures var args, types := Passed(m, c), SlotTypes(m);
            var last := |types| - 1;
            && (forall s :: 0 <= s < (if m.isVarArgs then last else |types|) ==>
                  s < |args| && PackedSlot(m, c, s) == Converted(args[s], types[s]))
            && (if !m.isVarArgs then |args| == |types|
                else if |args| == |types| && types[last].accepts(args[last]) >= IMPLICIT then
                  PackedSlot(m, c, last) == Converted(args[last], types[last])
                else 0 <= last <= |args| && types[last].ArrayOf?
                     && PackedSlot(m, c, last) == Elements(args[last..], types[last].component))
  {
    var types := SlotTypes(m);
    Layout(m, c);
    PackedLengths(m, c);
    forall s | 0 <= s < (if m.isVarArgs then |types| - 1 else |types|)
      ensures s < |Passed(m, c)| && PackedSlot(m, c, s) == Converted(Passed(m, c)[s], types[s])
    {
      PackedFixed(m, c, s);
    }
    if m.isVarArgs { PackedLast(m, c); }
    hide PackedSlot, Fit, Indirect;
  }

  lemma PackedLengths(m: Method, c: Call)
    requires m.Callable(c) && Fit(m, c) >= IMPLICIT && !Misaligned(m, c)
    ensures m.IsInstance() ==> |c.args| >= 1
    ensures var args, types := Passed(m, c), SlotTypes(m);
            && |types| == Slots(m)
            && if m.isVarArgs then 1 <= |types| <= |args| + 1 else |args| == |types|
  {
    hide Pairwise, TailFit;
  }

  lemma PackedFixed(m: Method, c: Call, s: nat)
    requires m.Callable(c) && Fit(m, c) >= IMPLICIT && !Misaligned(m, c) && (m.IsInstance() ==> |c.args| >= 1)
    requires s < |SlotTypes(m)| - if m.isVarArgs then 1 else 0
    ensures s < |Passed(m, c)| && PackedSlot(m, c, s) == Converted(Passed(m, c)[s], SlotTypes(m)[s])
  {
    hide Pairwise, TailFit;
  }

  lemma PackedLast(m: Method, c: Call)
    requires m.Callable(c) && Fit(m, c) >= IMPLICIT && !Misaligned(m, c) && (m.IsInstance() ==> |c.args| >= 1)
    requires m.isVarArgs && 1 <= |SlotTypes(m)| <= |Passed(m, c)| + 1
    ensures var args, types := Passed(m, c), SlotTypes(m);
            var last := |types| - 1;
            if |args| == |types| && types[last].accepts(args[last]) >= IMPLICIT then
              PackedSlot(m, c, last) == Converted(args[last], types[last])
            else types[last].ArrayOf? && PackedSlot(m, c, last) == Elements(args[last..], types[last].component)
  {
    var args, types, skip := Passed(m, c), SlotTypes(m), Skip(m, c);
    var last := |types| - 1;
    assert last + skip == |m.params| - 1 && types[last] == m.params[last + skip] && args == c.args[skip..];
    assert Packable(m, c) && Tested(m, c, |m.params| - 1) == if Indirect(m, c) then None else Some(types[last]) by {
      LastTested(m, c);
    }
    DirectIff(m, c);
    hide Fit, Indirect, PackedSlot, Tested, Skip, Passed, SlotTypes, Misaligned;
    if Indirect(m, c) {
      LayoutBehind(m, c, last);
      assert args[last..] == c.args[last + skip..];
    } else {
      LayoutAt(m, c, last + skip);
    }
  }

  lemma LastTested(m: Method, c: Call)
    requires m.Callable(c) && m.isVarArgs && !Misaligned(m, c)
    ensures Tested(m, c, |m.params| - 1) == if Indirect(m, c) then None else Some(m.params[|m.params| - 1])
  {
  }

  /** When the last argument is taken as the whole array. */
  lemma DirectIff(m: Method, c: Call)
    requires m.Callable(c) && m.isVarArgs && !Misaligned(m, c)
    ensures !Indirect(m, c)
       <==> |c.args| == |m.params| && m.params[|m.params| - 1].accepts(c.args[|m.params| - 1]) >= IMPLICIT
  {
  }

  // ----- the reported quality

  /** As many arguments as types, each accepted implicitly or better by its type. */
  ghost predicate EachAccepted(types: seq<JavaType>, args: seq<Arg>) {
    |types| == |args| && forall i :: 0 <= i < |types| ==> types[i].accepts(args[i]) >= IMPLICIT
  }

  ghost predicate AllAccepted(t: JavaType, args: seq<Arg>) {
    forall i :: 0 <= i < |args| ==> t.accepts(args[i]) >= IMPLICIT
  }

  /** A call matches exactly if the number of arguments is right and each of them is accepted: as its own
      parameter, or behind the fixed ones of a variadic method all as components of the array, unless
      there is just one and it is accepted as the array itself. */
  lemma MatchesIff(m: Method, c: Call)
    requires m.Callable(c) && !Misaligned(m, c)
    ensures var args := if c.instance && m.isStatic then c.args[1..] else c.args;
            var last := |m.params| - 1;
            Fit(m, c) >= IMPLICIT <==>
              if !m.isVarArgs then EachAccepted(m.params, args)
              else && last <= |args| && EachAccepted(m.params[..last], args[..last])
                   && (EachAccepted(m.params, args) || AllAccepted(m.params[last].component, args[last..]))
  {
    if ArityOk(m, c) {
      FitImplicit(m, c);
      if m.isVarArgs {
        VariadicMatches(m, c);
      } else {
        assert m.params[..|m.params|] == m.params;
        PairwiseImplicit(m.params, c.args[Offset(m, c)..]);
        assert c.args[Offset(m, c)..Offset(m, c) + |m.params|] == c.args[Offset(m, c)..];
      }
      hide TailFit, Pairwise, Against, Fit, AllAccepted;
    }
  }

  lemma VariadicMatches(m: Method, c: Call)
    requires m.Callable(c) && !Misaligned(m, c) && m.isVarArgs && ArityOk(m, c)
    ensures var last := |m.params| - 1;
            Fit(m, c) >= IMPLICIT <==>
              && EachAccepted(m.params[..last], c.args[..last])
              && (EachAccepted(m.params, c.args) || AllAccepted(m.params[last].component, c.args[last..]))
  {
    var last := |m.params| - 1;
    hide TailFit, Pairwise, Against;
    FitImplicit(m, c);
    PairwiseImplicit(m.params[..last], c.args[..last]);
    AgainstImplicit(m.params[last].component, c.args[last..]);
    TailImplicit(m, c);
    hide Fit, AllAccepted;
    assert c.args[0..last] == c.args[..last];
    if |c.args| == last + 1 && EachAccepted(m.params[..last], c.args[..last]) {
      forall i | 0 <= i < last ensures m.params[i].accepts(c.args[i]) >= IMPLICIT {
        assert m.params[..last][i] == m.params[i] && c.args[..last][i] == c.args[i];
      }
    }
  }

  lemma FitImplicit(m: Method, c: Call)
    requires ArityOk(m, c)
    ensures var off, fixed := Offset(m, c), Fixed(m);
            Fit(m, c) >= IMPLICIT <==>
              && Pairwise(m.params[..fixed], c.args[off..off + fixed]) >= IMPLICIT
              && (m.isVarArgs ==> TailFit(m, c) >= IMPLICIT)
  {
    hide Pairwise;
  }

  /** The trailing arguments of a variadic call. */
  lemma TailImplicit(m: Method, c: Call)
    requires m.Callable(c) && !Misaligned(m, c) && m.isVarArgs && ArityOk(m, c)
    ensures var last := |m.params| - 1;
            && (TailFit(m, c) >= IMPLICIT <==>
                  || (|c.args| == last + 1 && m.params[last].accepts(c.args[last]) >= IMPLICIT)
                  || Against(m.params[last].component, c.args[last..]) >= IMPLICIT)
  {
    if |c.args| == |m.params| - 1 { assert c.args[|m.params| - 1..] == []; }
  }

  lemma {:induction false} PairwiseImplicit(types: seq<JavaType>, args: seq<Arg>)
    requires |types| == |args|
    ensures Pairwise(types, args) >= IMPLICIT <==> EachAccepted(types, args)
    decreases |types|
  {
    if types != [] { PairwiseImplicit(types[1..], args[1..]); }
  }

  lemma {:induction false} AgainstImplicit(t: JavaType, args: seq<Arg>)
    ensures Against(t, args) >= IMPLICIT <==> AllAccepted(t, args)
    decreases |args|
  {
    if args != [] { AgainstImplicit(t, args[1..]); }
  }

  /** The type that argument i has to convert to, for an aligned call that matches; every argument
      but a skipped receiver has one. */
  function UsedAs(m: Method, c: Call, i: nat): JavaType
    requires m.Callable(c) && Fit(m, c) >= IMPLICIT && Offset(m, c) <= i < |c.args|
  {
    var p := i - Offset(m, c);
    if Indirect(m, c) && p >= |m.params| - 1 then Component(m.params[|m.params| - 1]) else m.params[p]
  }

  /** m_Type is the minimum of the qualities of all arguments. */
  lemma FitIsMinimum(m: Method, c: Call)
    requires m.Callable(c) && Fit(m, c) >= IMPLICIT && !Misaligned(m, c)
    ensures forall i :: Offset(m, c) <= i < |c.args| ==> Fit(m, c) <= UsedAs(m, c, i).accepts(c.args[i])
    ensures Fit(m, c) == EXACT
         || exists i :: Offset(m, c) <= i < |c.args| && UsedAs(m, c, i).accepts(c.args[i]) == Fit(m, c)
  {
    forall i | Offset(m, c) <= i < |c.args| ensures Fit(m, c) <= UsedAs(m, c, i).accepts(c.args[i]) {
      FitIsBound(m, c, i);
    }
    if Fit(m, c) < EXACT {
      var i := FitIsAttained(m, c);
    }
    hide Fit, UsedAs;
  }

  lemma FitIsBound(m: Method, c: Call, i: nat)
    requires m.Callable(c) && Fit(m, c) >= IMPLICIT && !Misaligned(m, c) && Offset(m, c) <= i < |c.args|
    ensures Fit(m, c) <= UsedAs(m, c, i).accepts(c.args[i])
  {
    var off, fixed := Offset(m, c), Fixed(m);
    if i < off + fixed {
      PairwiseBound(m.params[..fixed], c.args[off..off + fixed], i - off);
    } else if Indirect(m, c) {
      AgainstBound(UsedAs(m, c, i), c.args[off + fixed..], i - off - fixed);
    }
    hide Pairwise, Against;
  }

  lemma FitIsAttained(m: Method, c: Call) returns (i: nat)
    requires m.Callable(c) && IMPLICIT <= Fit(m, c) < EXACT && !Misaligned(m, c)
    ensures Offset(m, c) <= i < |c.args| && UsedAs(m, c, i).accepts(c.args[i]) == Fit(m, c)
  {
    hide Pairwise, Against;
    var off, fixed := Offset(m, c), Fixed(m);
    var types, args := m.params[..fixed], c.args[off..off + fixed];
    if Pairwise(types, args) == Fit(m, c) {
      var k := PairwiseAttained(types, args);
      return off + k;
    }
    if Indirect(m, c) {
      var k := AgainstAttained(Component(m.params[fixed]), c.args[off + fixed..]);
      return off + fixed + k;
    }
    return off + fixed;
  }

  lemma {:induction false} PairwiseAttained(types: seq<JavaType>, args: seq<Arg>) returns (k: nat)
    requires |types| == |args| && Pairwise(types, args) < EXACT
    ensures k < |types| && types[k].accepts(args[k]) == Pairwise(types, args)
    decreases |types|
  {
    if types[0].accepts(args[0]) == Pairwise(types, args) { return 0; }
    k := PairwiseAttained(types[1..], args[1..]);
    k := k + 1;
  }

  lemma {:induction false} AgainstAttained(t: JavaType, args: seq<Arg>) returns (k: nat)
    requires Against(t, args) < EXACT
    ensures k < |args| && t.accepts(args[k]) == Against(t, args)
    decreases |args|
  {
    if t.accepts(args[0]) == Against(t, args) { return 0; }
    k := AgainstAttained(t, args[1..]);
    k := k + 1;
  }
}
