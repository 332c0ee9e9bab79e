/** Model of native/common/jp_method.cpp: matching one overload against an argument list, and
    packing the arguments into JNI slots. */
module Methods {
  import opened Wrappers

  /** The match qualities of native/common/include/jp_match.h, in order. */
  type Quality = q: int | 0 <= q <= 4
  const NONE: Quality := 0
  const EXPLICIT: Quality := 1
  const IMPLICIT: Quality := 2
  const DERIVED: Quality := 3
  const EXACT: Quality := 4

  /** The identity of a Python argument. */
  type Arg = int

  /** A parameter type: how well it accepts each argument, and its component type if an array. */
  datatype JavaType =
    | Scalar(accepts: Arg -> Quality)
    | ArrayOf(accepts: Arg -> Quality, component: JavaType)

  /** An argument list; a call on an instance carries the instance first. The hash is the one
      computed when the match record is built. */
  datatype CallData = CallData(args: seq<Arg>, instance: bool, hash: int)
  type Call = c: CallData | c.instance ==> |c.args| > 0 witness CallData([], false, 0)

  class Method {
    const isStatic: bool
    const isConstructor: bool
    const isVarArgs: bool
    const params: seq<JavaType>
    const moreSpecific: seq<Method>
    var hash: int

    constructor (isStatic: bool, isConstructor: bool, isVarArgs: bool, params: seq<JavaType>, moreSpecific: seq<Method>)
      ensures this.isStatic == isStatic && this.isConstructor == isConstructor
      ensures this.isVarArgs == isVarArgs && this.params == params && this.moreSpecific == moreSpecific
      ensures hash == -1
    {
      this.isStatic, this.isConstructor, this.isVarArgs := isStatic, isConstructor, isVarArgs;
      this.params, this.moreSpecific, this.hash := params, moreSpecific, -1;
    }

    predicate IsInstance() { !isStatic && !isConstructor }

    /** An instance method has its receiver as first parameter type, a variadic one an array as its
        last, and a constructor is never called on an instance. */
    ghost predicate Callable(c: Call) {
      && (IsInstance() ==> |params| >= 1)
      && (isVarArgs ==> |params| >= (if IsInstance() then 2 else 1) && params[|params| - 1].ArrayOf?)
      && (isConstructor ==> !isStatic && !c.instance)
    }

    predicate MoreSpecificThan(other: Method) { other in moreSpecific }

    method CheckMoreSpecificThan(other: Method) returns (found: bool)
      ensures found <==> exists i :: 0 <= i < |moreSpecific| && moreSpecific[i] == other
      ensures found <==> MoreSpecificThan(other)
    {
      for i := 0 to |moreSpecific|
        invariant other !in moreSpecific[..i]
      {
        if other == moreSpecific[i] { return true; }
      }
      return false;
    }
  }

  // ----- specification: which argument is held against which type

  function Min(a: Quality, b: Quality): Quality { if b < a then b else a }

  /** Position of the argument that belongs to the first parameter type. */
  function Offset(m: Method, c: Call): nat { if c.instance && m.isStatic then 1 else 0 }

  /** Number of leading arguments that are not passed in a JNI slot. */
  function Skip(m: Method, c: Call): nat { if c.instance || m.IsInstance() then 1 else 0 }

  /** The worst quality of args against types, pairwise. */
  function Pairwise(types: seq<JavaType>, args: seq<Arg>): Quality
    requires |types| == |args|
  {
    if types == [] then EXACT
    else Min(types[0].accepts(args[0]), Pairwise(types[1..], args[1..]))
  }

  /** The worst quality of args against one type. */
  function Against(t: JavaType, args: seq<Arg>): Quality {
    if args == [] then EXACT else Min(t.accepts(args[0]), Against(t, args[1..]))
  }

  function Component(t: JavaType): JavaType { if t.ArrayOf? then t.component else t }

  /** Anything below implicit does not match. */
  function Cut(q: Quality): Quality { if q < IMPLICIT then NONE else q }

  /** A variadic method takes a lone last argument as the whole array if that converts. The index
      counts from the wrong end for a static method called on an instance. */
  predicate TakesArray(m: Method, c: Call) {
    var tlen, off := |m.params|, Offset(m, c);
    && 1 <= tlen == |c.args| - off && off < tlen
    && m.params[tlen - 1].accepts(c.args[tlen - 1 - off]) >= IMPLICIT
  }

  predicate Indirect(m: Method, c: Call) { m.isVarArgs && !TakesArray(m, c) }

  /** How many parameters take one argument each. */
  function Fixed(m: Method): int { if m.isVarArgs then |m.params| - 1 else |m.params| }

  predicate ArityOk(m: Method, c: Call) {
    var len := |c.args| - Offset(m, c);
    if m.isVarArgs then 1 <= |m.params| <= len + 1 else len == |m.params|
  }

  /** The quality of what follows the fixed arguments. */
  function TailFit(m: Method, c: Call): Quality
    requires ArityOk(m, c)
  {
    if !m.isVarArgs then EXACT
    else
      var tlen, off := |m.params|, Offset(m, c);
      if TakesArray(m, c) then m.params[tlen - 1].accepts(c.args[tlen - 1 - off])
      else if |c.args| - off < tlen then EXACT
      else Cut(Against(Component(m.params[tlen - 1]), c.args[tlen - 1 + off..]))
  }

  /** The quality of the match of m with the call: the worst over all arguments, NONE if one of them
      does not convert implicitly or the number of arguments is wrong. */
  function Fit(m: Method, c: Call): Quality {
    if !ArityOk(m, c) then NONE
    else
      var off := Offset(m, c);
      Cut(Min(Pairwise(m.params[..Fixed(m)], c.args[off..off + Fixed(m)]), TailFit(m, c)))
  }

  /** The type that a successful match leaves argument i converted to, if any. */
  function Tested(m: Method, c: Call, i: nat): Option<JavaType> {
    var tlen, off := |m.params|, Offset(m, c);
    if off <= i < off + Fixed(m) then Some(m.params[i - off])
    else if m.isVarArgs && !Indirect(m, c) && i == tlen - 1 - off then Some(m.params[tlen - 1])
    else None
  }

  // ----- the mutable match record

  /** JPMethodMatch: the outcome of the latest attempt, and for each argument the type it was last
      held against, whose conversion `convert` would run. */
  class MethodMatch {
    const call: Call
    var targets: seq<Option<JavaType>>
    var quality: Quality
    var indirect: bool
    var offset: nat
    var skip: nat
    var overload: Method?

    constructor (call: Call)
      ensures this.call == call && overload == null && quality == NONE && |targets| == |call.args|
    {
      this.call, targets := call, seq(|call.args|, _ => None);
      quality, indirect, offset, skip, overload := NONE, false, 0, 0, null;
    }

    /** `*this = other` */
    method Assign(other: MethodMatch)
      requires other.call == call
      modifies this
      ensures targets == other.targets && quality == other.quality && indirect == other.indirect
      ensures offset == other.offset && skip == other.skip && overload == other.overload
    {
      targets, quality, indirect := other.targets, other.quality, other.indirect;
      offset, skip, overload := other.offset, other.skip, other.overload;
    }

    /** findJavaConversion on one argument. */
    method Find(t: JavaType, i: nat) returns (q: Quality)
      requires i < |targets| == |call.args|
      modifies this`targets
      ensures q == t.accepts(call.args[i]) && targets == old(targets)[i := Some(t)]
    {
      targets := targets[i := Some(t)];
      q := t.accepts(call.args[i]);
    }

    /** The record describes a successful match with m. */
    ghost predicate Holds(m: Method)
      reads this
    {
      && overload == m && quality == Fit(m, call) >= IMPLICIT
      && indirect == Indirect(m, call) && offset == Offset(m, call) && skip == Skip(m, call)
      && |targets| == |call.args|
      && (forall j :: 0 <= j < |targets| && Tested(m, call, j).Some? ==> targets[j] == Tested(m, call, j))
    }
  }

  lemma {:induction false} PairwiseSplit(types: seq<JavaType>, args: seq<Arg>, i: nat)
    requires |types| == |args| && i < |types|
    ensures Pairwise(types[..i + 1], args[..i + 1])
         == Min(Pairwise(types[..i], args[..i]), types[i].accepts(args[i]))
  {
    if i > 0 {
      PairwiseSplit(types[1..], args[1..], i - 1);
      assert types[..i + 1][1..] == types[1..][..i] && args[..i + 1][1..] == args[1..][..i];
      assert types[..i][1..] == types[1..][..i - 1] && args[..i][1..] == args[1..][..i - 1];
    }
  }

  lemma PairwiseEmpty(types: seq<JavaType>, args: seq<Arg>)
    requires |types| == |args| == 0
    ensures Pairwise(types, args) == EXACT
  {
  }

  lemma {:induction false} PairwiseBound(types: seq<JavaType>, args: seq<Arg>, i: nat)
    requires |types| == |args| && i < |types|
    ensures Pairwise(types, args) <= types[i].accepts(args[i])
    decreases i
  {
    if i > 0 { PairwiseBound(types[1..], args[1..], i - 1); }
  }

  lemma {:induction false} AgainstSplit(t: JavaType, args: seq<Arg>, i: nat)
    requires i < |args|
    ensures Against(t, args[..i + 1]) == Min(Against(t, args[..i]), t.accepts(args[i]))
  {
    if i > 0 {
      AgainstSplit(t, args[1..], i - 1);
      assert args[..i + 1][1..] == args[1..][..i] && args[..i][1..] == args[1..][..i - 1];
    }
  }

  lemma {:induction false} AgainstBound(t: JavaType, args: seq<Arg>, i: nat)
    requires i < |args|
    ensures Against(t, args) <= t.accepts(args[i])
    decreases i
  {
    if i > 0 { AgainstBound(t, args[1..], i - 1); }
  }

  method MatchVars(record: MethodMatch, start: nat, vartype: JavaType) returns (q: Quality)
    requires |record.targets| == |record.call.args| && start <= |record.call.args|
    modifies record`targets
    ensures q == Cut(Against(Component(vartype), record.call.args[start..]))
    ensures |record.targets| == |record.call.args| && record.targets[..start] == old(record.targets[..start])
  {
    var t, args := Component(vartype), record.call.args[start..];
    q := EXACT;
    for i := start to |record.call.args|
      invariant |record.targets| == |record.call.args|
      invariant record.targets[..start] == old(record.targets[..start])
      invariant q == Against(t, args[..i - start]) >= IMPLICIT
    {
      AgainstSplit(t, args, i - start);
      var quality := record.Find(t, i);
      if quality < IMPLICIT {
        AgainstBound(t, args, i - start);
        return NONE;
      }
      if quality < q { q := quality; }
    }
    assert args[..|args|] == args;
  }

  /** The variadic part of JPMethod::matches, with `len` arguments not counting a skipped receiver. */
  method MatchTail(m: Method, record: MethodMatch, len: nat)
    requires m.isVarArgs && |record.targets| == |record.call.args| && |m.params| >= 1
    requires record.offset == Offset(m, record.call) && len == |record.call.args| - record.offset
    requires record.quality == NONE && !record.indirect && len >= |m.params| - 1
    modifies record`targets, record`quality, record`indirect
    ensures |record.targets| == |record.call.args|
    ensures record.indirect == Indirect(m, record.call)
    ensures record.quality == TailFit(m, record.call)
    ensures !record.indirect ==>
              record.targets[|m.params| - 1 - record.offset] == Some(m.params[|m.params| - 1])
  {
    hide Against;
    var tlen := |m.params|;
    var t := m.params[tlen - 1];
    // With offset 1 and a single parameter the source would read in front of its arguments.
    if len == tlen && record.offset < tlen {
      record.quality := record.Find(t, tlen - 1 - record.offset);
    }
    if record.quality < IMPLICIT && len >= tlen {
      record.quality := MatchVars(record, tlen - 1 + record.offset, t);
      record.indirect := true;
    } else if len < tlen {
      record.indirect := true;
      record.quality := EXACT;
    }
  }

  /** The loop at the end of JPMethod::matches. */
  method MatchFixed(m: Method, record: MethodMatch, len: nat) returns (q: Quality)
    requires |record.targets| == |record.call.args| && record.quality >= IMPLICIT
    requires len <= |m.params| && len + record.offset <= |record.call.args|
    modifies record`targets, record`quality
    ensures |record.targets| == |record.call.args| && q == record.quality
    ensures Cut(q) == Cut(Min(Pairwise(m.params[..len], record.call.args[record.offset..record.offset + len]),
                              old(record.quality)))
    ensures q >= IMPLICIT ==> forall j :: 0 <= j < |record.targets| ==>
              record.targets[j] == if record.offset <= j < record.offset + len then Some(m.params[j - record.offset])
                                   else old(record.targets[j])
  {
    hide Pairwise;
    ghost var types, args := m.params[..len], record.call.args[record.offset..record.offset + len];
    PairwiseEmpty(types[..0], args[..0]);
    for i := 0 to len
      invariant |record.targets| == |record.call.args|
      invariant record.quality == Min(Pairwise(types[..i], args[..i]), old(record.quality)) >= IMPLICIT
      invariant forall j :: 0 <= j < |record.targets| ==>
        record.targets[j] == if record.offset <= j < record.offset + i then Some(m.params[j - record.offset])
                             else old(record.targets[j])
    {
      PairwiseSplit(types, args, i);
      var ematch := record.Find(m.params[i], i + record.offset);
      if ematch < record.quality {
        record.quality := ematch;
      }
      if record.quality < IMPLICIT {
        PairwiseBound(types, args, i);
        return record.quality;
      }
    }
    assert types[..len] == types && args[..len] == args;
    return record.quality;
  }

  lemma NoTail(m: Method, c: Call)
    requires !m.isVarArgs && ArityOk(m, c)
    ensures TailFit(m, c) == EXACT
  {
  }

  /** JPMethod::matches. A failed match leaves some quality below implicit. */
  method Matches(m: Method, record: MethodMatch) returns (q: Quality)
    requires |record.targets| == |record.call.args|
    requires m.isVarArgs ==> |m.params| >= 1
    modifies record
    ensures |record.targets| == |record.call.args|
    ensures q == record.quality && record.overload == m
    ensures Cut(q) == Fit(m, record.call)
    ensures q >= IMPLICIT ==> record.Holds(m)
  {
    hide Pairwise, Against, TailFit, TakesArray;
    var c := record.call;
    record.overload, record.offset, record.skip := m, 0, 0;
    record.indirect, record.quality := false, EXACT;
    var len, tlen := |c.args|, |m.params|;
    if c.instance && m.isStatic {
      len, record.offset := len - 1, 1;
    }
    if c.instance || m.IsInstance() {
      record.skip := 1;
    }
    if !m.isVarArgs {
      if len != tlen {
        record.quality := NONE;
        return NONE;
      }
      NoTail(m, c);
    } else {
      record.quality := NONE;
      if len < tlen - 1 { return NONE; }
      MatchTail(m, record, len);
      len := tlen - 1;
      if record.quality < IMPLICIT {
        return record.quality;
      }
    }
    q := MatchFixed(m, record, len);
  }

  /** A static method of one parameter fits as that parameter accepts the one argument. */
  lemma FitOne(m: Method, c: Call)
    requires m.isStatic && !m.isVarArgs && |m.params| == 1 && |c.args| == 1 && !c.instance
    ensures Fit(m, c) == Cut(m.params[0].accepts(c.args[0]))
  {
    assert m.params[..1] == m.params && c.args[0..1] == c.args;
    assert Pairwise(m.params[1..], c.args[1..]) == EXACT;
  }

  /** The same for a call on an instance, which a static method does not look at. */
  lemma FitBehindReceiver(m: Method, c: Call)
    requires m.isStatic && !m.isVarArgs && |m.params| == 1 && |c.args| == 2 && c.instance
    ensures Fit(m, c) == Cut(m.params[0].accepts(c.args[1]))
  {
    assert m.params[..1] == m.params && c.args[1..2] == c.args[1..];
    assert Pairwise(m.params[1..], c.args[1..][1..]) == EXACT;
  }

  /** Two parameters, an instance method's receiver included. */
  lemma FitTwo(m: Method, c: Call)
    requires (m.isStatic ==> !c.instance) && !m.isVarArgs && |m.params| == 2 == |c.args|
    ensures Fit(m, c) == Cut(Min(m.params[0].accepts(c.args[0]), m.params[1].accepts(c.args[1])))
  {
    assert m.params[..2] == m.params && c.args[0..2] == c.args;
    var types, args := m.params[1..], c.args[1..];
    assert Pairwise(types[1..], args[1..]) == EXACT;
    assert Pairwise(types, args) == types[0].accepts(args[0]);
  }
}
