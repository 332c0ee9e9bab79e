/** Model of the option block that JPContext::startJVM packs for the Java VM
    (native/common/jp_context.cpp): one allocation holding a header, an option table and all strings. */
module JvmOptions {
  /** A std::string; it may contain zero bytes. */
  type Text = string

  // ----- which options are passed

  const PREFIX: Text := "--enable-native-access"
  const DEFAULT: Text := "--enable-native-access=ALL-UNNAMED"

  predicate IsNativeAccess(t: Text) { PREFIX <= t }

  predicate Mentions(ts: seq<Text>) { exists i :: 0 <= i < |ts| && IsNativeAccess(ts[i]) }

  /** The arguments that are not native-access options, in order. */
  function Others(ts: seq<Text>): seq<Text> {
    if ts == [] then []
    else Others(ts[..|ts| - 1]) + if IsNativeAccess(ts[|ts| - 1]) then [] else [ts[|ts| - 1]]
  }

  lemma MentionsMore(ts: seq<Text>, t: Text)
    ensures Mentions(ts + [t]) <==> Mentions(ts) || IsNativeAccess(t)
    ensures Others(ts + [t]) == Others(ts) + if IsNativeAccess(t) then [] else [t]
  {
    hide IsNativeAccess;
    var more := ts + [t];
    assert more[..|more| - 1] == ts && more[|ts|] == t;
    if Mentions(ts) {
      var k :| 0 <= k < |ts| && IsNativeAccess(ts[k]);
      assert IsNativeAccess(more[k]);
    }
  }

  lemma {:induction false} OthersAre(ts: seq<Text>)
    ensures forall t :: multiset(Others(ts))[t] == if PREFIX <= t then 0 else multiset(ts)[t]
    decreases |ts|
  {
    if ts != [] {
      OthersAre(ts[..|ts| - 1]);
      assert ts == ts[..|ts| - 1] + [ts[|ts| - 1]];
    }
  }

  lemma MentionsPrefix(ts: seq<Text>)
    ensures Mentions(ts) <==> exists i :: 0 <= i < |ts| && PREFIX <= ts[i]
  {
  }

  /** What FinalArgs returns, by the prefix of the arguments: an older JDK gets each argument as often as it
      is given, but none with the prefix; a newer one gets the arguments, and the default behind them if
      none has the prefix. */
  lemma FinalArgsMean(args: seq<Text>, jdk21: bool, final: seq<Text>)
    requires final == if !jdk21 then Others(args) else if Mentions(args) then args else args + [DEFAULT]
    ensures !jdk21 ==> forall t :: multiset(final)[t] == if PREFIX <= t then 0 else multiset(args)[t]
    ensures jdk21 && (exists i :: 0 <= i < |args| && PREFIX <= args[i]) ==> final == args
    ensures jdk21 && (forall i :: 0 <= i < |args| ==> !(PREFIX <= args[i])) ==> final == args + [DEFAULT]
  {
    if !jdk21 { OthersAre(args); } else { MentionsPrefix(args); }
  }

  /** An older JDK gets no native-access option; a newer one gets those of the caller, or else the
      default. Everything else is passed on in order. */
  method FinalArgs(args: seq<Text>, jdk21: bool) returns (final: seq<Text>)
    ensures final == if !jdk21 then Others(args)
                     else if Mentions(args) then args else args + [DEFAULT]
    ensures Mentions(final) <==> jdk21
    ensures Others(final) == Others(args)
  {
    assert IsNativeAccess(DEFAULT);
    hide IsNativeAccess, Mentions, Others;
    var has := false;
    final := [];
    NothingMentioned();
    assert args[..0] == [];
    for i := 0 to |args|
      invariant final == if jdk21 then args[..i] else Others(args[..i])
      invariant Mentions(args[..i]) && jdk21 <==> has
      invariant !jdk21 ==> !Mentions(final)
      invariant Others(final) == Others(args[..i])
    {
      assert args[..i + 1] == args[..i] + [args[i]];
      MentionsMore(args[..i], args[i]);
      MentionsMore(final, args[i]);
      if IsNativeAccess(args[i]) {
        if !jdk21 { continue; }
        has := true;
      }
      final := final + [args[i]];
    }
    assert args[..|args|] == args;
    if jdk21 && !has {
      MentionsMore(final, DEFAULT);
      final := final + [DEFAULT];
    }
  }

  lemma NothingMentioned()
    ensures !Mentions([]) && Others([]) == []
  {
  }

  // ----- how they are laid out

  /** PAD: up to the next multiple of 32. */
  function Pad(x: nat): (r: nat)
    ensures x <= r < x + 32 && r % 32 == 0
  {
    (x + 31) / 32 * 32
  }

  /** Sizes of JavaVMInitArgs and JavaVMOption. */
  datatype Sizes = Sizes(header: nat, option: nat)

  function TableAt(z: Sizes): nat { Pad(z.header) }

  function StringsAt(z: Sizes, n: nat): nat { TableAt(z) + Pad(z.option * n + 1) }

  /** Where string i starts; for i == |ts| the size of the whole block. */
  function StartOf(z: Sizes, ts: seq<Text>, i: nat): nat
    requires i <= |ts|
  {
    if i == 0 then StringsAt(z, |ts|) else StartOf(z, ts, i - 1) + Pad(|ts[i - 1]| + 1)
  }

  lemma {:induction false} StartsIncrease(z: Sizes, ts: seq<Text>, i: nat, j: nat)
    requires i < j <= |ts|
    ensures StartOf(z, ts, i) + |ts[i]| + 1 <= StartOf(z, ts, j)
    decreases j - i
  {
    if i + 1 < j { StartsIncrease(z, ts, i, j - 1); }
  }

  lemma {:induction false} StartsAligned(z: Sizes, ts: seq<Text>, i: nat)
    requires i <= |ts|
    ensures StartOf(z, ts, i) % 32 == 0
  {
    if i > 0 {
      StartsAligned(z, ts, i - 1);
      AlignedSum(StartOf(z, ts, i - 1), Pad(|ts[i - 1]| + 1));
    } else {
      AlignedSum(TableAt(z), Pad(z.option * |ts| + 1));
    }
    hide Pad;
  }

  lemma AlignedSum(a: nat, b: nat)
    requires a % 32 == b % 32 == 0
    ensures (a + b) % 32 == 0
  {
  }

  /** What reading a C string from position `at` yields. */
  function CString(block: seq<char>, at: nat): (c: Text)
    requires at <= |block|
    ensures at + |c| <= |block|
    decreases |block| - at
  {
    if at == |block| || block[at] == '\0' then [] else [block[at]] + CString(block, at + 1)
  }

  /** An argument up to its first zero byte: what strncpy copies. */
  function UpToNul(t: Text): (c: Text)
    ensures |c| <= |t|
  {
    CString(t, 0)
  }

  lemma {:induction false} CStringIsPrefix(t: seq<char>, at: nat)
    requires at <= |t|
    ensures var c := CString(t, at);
            && at + |c| <= |t| && c == t[at..at + |c|] && '\0' !in c
            && (at + |c| < |t| ==> t[at + |c|] == '\0')
            && (c == t[at..] <==> '\0' !in t[at..])
    decreases |t| - at
  {
    if at < |t| && t[at] != '\0' {
      CStringIsPrefix(t, at + 1);
      assert t[at..] == [t[at]] + t[at + 1..];
    } else if at < |t| {
      assert t[at..][0] == '\0';
    }
  }

  /** A zero-terminated copy reads back as what was copied. */
  lemma {:induction false} CStringReads(block: seq<char>, at: nat, c: Text)
    requires at + |c| < |block| && block[at..at + |c|] == c && '\0' !in c && block[at + |c|] == '\0'
    ensures CString(block, at) == c
    decreases |c|
  {
    if c != [] {
      assert block[at] == c[0];
      assert block[at + 1..at + |c|] == c[1..];
      CStringReads(block, at + 1, c[1..]);
    }
  }

  /** The block: string i starts at its place and reads back up to its first zero byte. */
  ghost predicate Packed(z: Sizes, ts: seq<Text>, block: seq<char>, at: seq<nat>) {
    && |at| == |ts| && |block| == StartOf(z, ts, |ts|)
    && forall i :: 0 <= i < |ts| ==> PackedAt(z, ts, block, at, i)
  }

  ghost predicate PackedAt(z: Sizes, ts: seq<Text>, block: seq<char>, at: seq<nat>, i: nat)
    requires i < |ts| == |at|
  {
    && at[i] == StartOf(z, ts, i) && at[i] + |ts[i]| < |block|
    && block[at[i]..at[i] + |UpToNul(ts[i])|] == UpToNul(ts[i]) && block[at[i] + |UpToNul(ts[i])|] == '\0'
  }

  /** Header, table and strings are disjoint and fill the allocation. */
  lemma PackedRegions(z: Sizes, ts: seq<Text>, block: seq<char>, at: seq<nat>, i: nat)
    requires Packed(z, ts, block, at) && i < |ts|
    ensures z.header <= TableAt(z) && TableAt(z) + z.option * |ts| < StringsAt(z, |ts|) <= at[i]
    ensures at[i] + |ts[i]| + 1 <= |block| && at[i] % 32 == 0 && |block| % 32 == 0
    ensures forall j :: i < j < |ts| ==> at[i] + |ts[i]| + 1 <= at[j]
  {
    assert PackedAt(z, ts, block, at, i);
    StartsAligned(z, ts, i);
    StartsAligned(z, ts, |ts|);
    StartsIncrease(z, ts, i, |ts|);
    if i > 0 { StartsIncrease(z, ts, 0, i); }
    forall j | i < j < |ts| ensures at[i] + |ts[i]| + 1 <= at[j] {
      assert PackedAt(z, ts, block, at, j);
      StartsIncrease(z, ts, i, j);
    }
  }

  /** Option i reads back as argument i, exactly when that contains no zero byte. */
  lemma PackedReadsBack(z: Sizes, ts: seq<Text>, block: seq<char>, at: seq<nat>, i: nat)
    requires Packed(z, ts, block, at) && i < |ts|
    ensures at[i] < |block| && CString(block, at[i]) == UpToNul(ts[i])
    ensures CString(block, at[i]) == ts[i] <==> '\0' !in ts[i]
  {
    assert PackedAt(z, ts, block, at, i);
    hide StartOf;
    CStringIsPrefix(ts[i], 0);
    assert ts[i][0..] == ts[i];
    CStringReads(block, at[i], UpToNul(ts[i]));
  }

  // ----- the code

  /** strncpy into memory that is zero already. */
  method CopyString(block: array<char>, j: nat, t: Text)
    requires j + |t| < block.Length
    requires forall k :: j <= k < block.Length ==> block[k] == '\0'
    modifies block
    ensures forall k :: 0 <= k < block.Length ==>
              block[k] == if j <= k < j + |UpToNul(t)| then UpToNul(t)[k - j] else old(block[k])
  {
    CStringIsPrefix(t, 0);
    for n := 0 to |t|
      invariant n <= |UpToNul(t)|
      invariant forall k :: 0 <= k < block.Length ==>
        block[k] == if j <= k < j + n then UpToNul(t)[k - j] else old(block[k])
    {
      if t[n] == '\0' { break; }
      assert n < |UpToNul(t)|;
      block[j + n] := t[n];
    }
  }

  /** The packing part of startJVM: the block, and the position stored in each option. The cursor ends
      exactly at the allocated size. */
  method PackOptions(z: Sizes, ts: seq<Text>) returns (block: array<char>, at: array<nat>)
    ensures fresh(block) && fresh(at) && Packed(z, ts, block[..], at[..])
  {
    hide PackedAt, UpToNul, StartOf;
    var mem := BlockSize(z, ts);
    block := new char[mem](_ => '\0');
    at := new nat[|ts|](_ => 0);
    var j := Pad(z.header) + Pad(z.option * |ts| + 1);
    FirstStart(z, ts);
    for i := 0 to |ts|
      invariant j == StartOf(z, ts, i) <= mem
      invariant forall k :: j <= k < mem ==> block[k] == '\0'
      invariant forall k :: 0 <= k < i ==> PackedAt(z, ts, block[..], at[..], k)
    {
      StartsIncrease(z, ts, i, |ts|);
      NextStart(z, ts, i);
      ghost var was, stored := block[..], at[..];
      CopyString(block, j, ts[i]);
      at[i] := j;
      PackedNew(z, ts, was, block[..], at[..], i);
      forall k | 0 <= k < i ensures PackedAt(z, ts, block[..], at[..], k) {
        StartsIncrease(z, ts, k, i);
        PackedStays(z, ts, was, block[..], stored, at[..], k, j);
      }
      j := j + Pad(|ts[i]| + 1);
    }
  }

  method BlockSize(z: Sizes, ts: seq<Text>) returns (mem: nat)
    ensures mem == StartOf(z, ts, |ts|)
  {
    mem := Pad(z.header);
    mem := mem + Pad(z.option * |ts| + 1);
    for i := 0 to |ts|
      invariant mem == StartOf(z, ts, i)
    {
      mem := mem + Pad(|ts[i]| + 1);
    }
  }

  lemma FirstStart(z: Sizes, ts: seq<Text>)
    ensures StartOf(z, ts, 0) == Pad(z.header) + Pad(z.option * |ts| + 1) <= StartOf(z, ts, |ts|)
  {
    if ts != [] { StartsIncrease(z, ts, 0, |ts|); }
  }

  lemma NextStart(z: Sizes, ts: seq<Text>, i: nat)
    requires i < |ts|
    ensures StartOf(z, ts, i + 1) == StartOf(z, ts, i) + Pad(|ts[i]| + 1) <= StartOf(z, ts, |ts|)
  {
    if i + 1 < |ts| { StartsIncrease(z, ts, i + 1, |ts|); }
  }

  lemma PackedNew(z: Sizes, ts: seq<Text>, was: seq<char>, now: seq<char>, at: seq<nat>, i: nat)
    requires i < |ts| == |at| && |was| == |now| && at[i] == StartOf(z, ts, i) && at[i] + |ts[i]| < |now|
    requires forall k :: at[i] <= k < |was| ==> was[k] == '\0'
    requires forall k :: 0 <= k < |now| ==>
               now[k] == if at[i] <= k < at[i] + |UpToNul(ts[i])| then UpToNul(ts[i])[k - at[i]] else was[k]
    ensures PackedAt(z, ts, now, at, i)
  {
  }

  lemma PackedStays(z: Sizes, ts: seq<Text>, was: seq<char>, now: seq<char>, before: seq<nat>, after: seq<nat>,
                    k: nat, j: nat)
    requires k < |ts| == |before| == |after| && |was| == |now| && PackedAt(z, ts, was, before, k)
    requires before[k] == after[k] && StartOf(z, ts, k) + |ts[k]| + 1 <= j <= |now|
    requires forall p :: 0 <= p < j ==> was[p] == now[p]
    ensures PackedAt(z, ts, now, after, k)
  {
    var s, n := before[k], |UpToNul(ts[k])|;
    assert was[s..s + n] == now[s..s + n];
  }
}
