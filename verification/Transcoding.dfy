/** Whole-string properties of the transcoder in native/common/jp_encoding.cpp, and the
    stream-driven methods themselves. */
module Transcoding {
  import opened CodeBits
  import opened Encoding

  // ----- whole strings: encoding and fetching are inverse, and reach exactly the well-formed strings

  lemma EncodeAllAppend(e: Encoding, cs: seq<word>, ds: seq<word>)
    ensures EncodeAll(e, cs + ds) == EncodeAll(e, cs) + EncodeAll(e, ds)
  {
    hide EncodeUtf8, EncodeJava;
    if cs == [] {
      assert cs + ds == ds;
    } else {
      assert (cs + ds)[1..] == cs[1..] + ds;
      EncodeAllAppend(e, cs[1..], ds);
    }
  }

  lemma FetchStep(e: Encoding, c: word, tail: seq<byte>)
    requires IsScalar(c)
    ensures FetchAll(e, Encode(e, c) + tail) == [c] + FetchAll(e, tail)
  {
    hide EncodeUtf8, EncodeJava, FetchUtf8, FetchJava;
    FetchAtHead(e, c, tail);
    Prefix(Encode(e, c), tail);
  }

  /** Fetching a string that starts with encoded scalar values yields those values, then whatever
      the remaining bytes, well formed or not, yield. */
  lemma {:induction false} FetchAllPrefix(e: Encoding, cs: seq<word>, rest: seq<byte>)
    requires AllScalar(cs)
    ensures FetchAll(e, EncodeAll(e, cs) + rest) == cs + FetchAll(e, rest)
    decreases |cs|
  {
    hide Encode, Fetch, FetchAll, IsScalar;
    if cs == [] {
      assert EncodeAll(e, cs) + rest == rest;
    } else {
      FetchStep(e, cs[0], EncodeAll(e, cs[1..]) + rest);
      FetchAllPrefix(e, cs[1..], rest);
      assert EncodeAll(e, cs) + rest == Encode(e, cs[0]) + (EncodeAll(e, cs[1..]) + rest);
      assert cs == [cs[0]] + cs[1..];
    }
  }

  lemma FetchAllEncodeAll(e: Encoding, cs: seq<word>)
    requires AllScalar(cs)
    ensures FetchAll(e, EncodeAll(e, cs)) == cs
  {
    FetchAllPrefix(e, cs, []);
    assert EncodeAll(e, cs) + [] == EncodeAll(e, cs);
  }

  lemma {:induction false} EncodeAllWellFormed(e: Encoding, cs: seq<word>)
    requires AllScalar(cs)
    ensures WellFormed(e, EncodeAll(e, cs))
    decreases |cs|
  {
    hide EncodeUtf8, EncodeJava, Utf8CharLength, JavaCharLength;
    if cs != [] {
      var head, tail := Encode(e, cs[0]), EncodeAll(e, cs[1..]);
      LengthAtHead(e, cs[0], tail);
      Prefix(head, tail);
      EncodeAllWellFormed(e, cs[1..]);
    }
  }

  lemma LengthAtHead(e: Encoding, c: word, rest: seq<byte>)
    requires IsScalar(c)
    ensures 0 < CharLength(e, Encode(e, c) + rest) == |Encode(e, c)|
  {
    FetchAtHead(e, c, rest);
    if e.Utf8? { Utf8LengthAtHead(c, rest); } else { JavaLengthAtHead(c, rest); }
  }

  lemma {:induction false} WellFormedIsEncoded(e: Encoding, s: seq<byte>)
    requires WellFormed(e, s)
    ensures AllScalar(FetchAll(e, s)) && EncodeAll(e, FetchAll(e, s)) == s
    decreases |s|
  {
    hide EncodeUtf8, EncodeJava, FetchUtf8, FetchJava, Utf8CharLength, JavaCharLength;
    if s != [] {
      FetchWellFormed(e, s);
      var f := Fetch(e, s);
      WellFormedIsEncoded(e, s[f.used..]);
      assert s == s[..f.used] + s[f.used..];
    }
  }

  /** The byte grammars of the two standards describe exactly the strings the encoders write. */
  lemma WellFormedIffEncoded(e: Encoding, s: seq<byte>)
    ensures WellFormed(e, s) <==> exists cs :: AllScalar(cs) && s == EncodeAll(e, cs)
  {
    if WellFormed(e, s) {
      WellFormedIsEncoded(e, s);
    }
    forall cs | AllScalar(cs) && s == EncodeAll(e, cs) ensures WellFormed(e, s) {
      EncodeAllWellFormed(e, cs);
    }
  }

  // ----- what the encoders write for code points that are not scalar values

  /** The scalar values that Java encoding stands for: the wrap-around of `c - 0x10000` moves a lone
      surrogate up by 0x100000, and anything above 0x10FFFF is dropped. */
  function Settle(cs: seq<word>): seq<word> {
    if cs == [] then []
    else if cs[0] >= 0x110000 then Settle(cs[1..])
    else [if IsScalar(cs[0]) then cs[0] else cs[0] + 0x100000] + Settle(cs[1..])
  }

  lemma {:induction false} EncodeJavaSettles(cs: seq<word>)
    ensures AllScalar(Settle(cs)) && EncodeAll(JavaUtf8, Settle(cs)) == EncodeAll(JavaUtf8, cs)
  {
    hide Tail0, Tail6, Lead2, Lead3, High1, High2, Low1, Above;
    if cs != [] {
      EncodeJavaSettles(cs[1..]);
      if 0xd800 <= cs[0] < 0xe000 {
        WrappedSurrogate(cs[0]);
        assert EncodeJava(cs[0]) == EncodeJava(cs[0] + 0x100000);
      }
    }
  }

  /** Whatever bytes come in, the Java side is handed well-formed modified UTF-8. */
  lemma ToJavaIsWellFormed(s: seq<byte>, source: Encoding)
    ensures WellFormed(JavaUtf8, Transcode(source, JavaUtf8, s))
  {
    EncodeJavaSettles(FetchAll(source, s));
    EncodeAllWellFormed(JavaUtf8, Settle(FetchAll(source, s)));
  }

  predicate InUnicode(c: word) { c < 0x110000 }

  /** UTF-8 encoding keeps surrogates and drops what lies above 0x10FFFF. */
  function DropAbove(cs: seq<word>): seq<word> {
    if cs == [] then []
    else if InUnicode(cs[0]) then [cs[0]] + DropAbove(cs[1..]) else DropAbove(cs[1..])
  }

  lemma {:induction false} FetchAllRaw(cs: seq<word>)
    ensures FetchAll(Utf8, EncodeAll(Utf8, cs)) == DropAbove(cs)
  {
    hide EncodeUtf8, Fetch, FetchAll, InUnicode;
    if cs == [] {
      FetchAllEncodeAll(Utf8, []);
    } else {
      FetchAllRaw(cs[1..]);
      FetchStepRaw(cs[0], EncodeAll(Utf8, cs[1..]));
    }
  }

  lemma FetchStepRaw(c: word, tail: seq<byte>)
    ensures FetchAll(Utf8, EncodeUtf8(c) + tail)
         == if InUnicode(c) then [c] + FetchAll(Utf8, tail) else FetchAll(Utf8, tail)
  {
    hide FetchUtf8;
    if InUnicode(c) {
      hide EncodeUtf8;
      FetchUtf8AtHead(c, tail);
      Prefix(EncodeUtf8(c), tail);
    } else {
      assert EncodeUtf8(c) + tail == tail;
    }
  }

  ghost predicate NoSurrogate(cs: seq<word>) {
    forall i :: 0 <= i < |cs| ==> IsScalar(cs[i]) || !InUnicode(cs[i])
  }

  lemma {:induction false} DropAboveKeeps(cs: seq<word>)
    ensures EncodeAll(Utf8, DropAbove(cs)) == EncodeAll(Utf8, cs)
    ensures AllScalar(DropAbove(cs)) <==> NoSurrogate(cs)
  {
    if cs != [] {
      DropAboveKeeps(cs[1..]);
      assert NoSurrogate(cs) <==> (IsScalar(cs[0]) || !InUnicode(cs[0])) && NoSurrogate(cs[1..]) by {
        assert forall i :: 0 <= i < |cs[1..]| ==> cs[1..][i] == cs[i + 1];
      }
      AllScalarCons(cs[0], DropAbove(cs[1..]));
      EncodeUtf8Above(cs[0]);
      hide EncodeUtf8, IsScalar;
    }
  }

  lemma AllScalarCons(c: word, cs: seq<word>)
    ensures AllScalar([c] + cs) <==> IsScalar(c) && AllScalar(cs)
  {
    hide IsScalar;
    assert ([c] + cs)[0] == c && forall i :: 0 <= i < |cs| ==> cs[i] == ([c] + cs)[i + 1];
  }

  lemma EncodeUtf8Above(c: word)
    ensures IsScalar(c) ==> InUnicode(c)
    ensures !InUnicode(c) ==> EncodeUtf8(c) == []
  {
  }

  // ----- main results

  /** Both round trips, on all inputs: transcribing to the other encoding and back gives the original
      bytes exactly for the well-formed strings, including NUL and the six-byte surrogate pairs. */
  lemma RoundTripIffWellFormed(source: Encoding, target: Encoding, s: seq<byte>)
    requires source != target
    ensures Transcode(target, source, Transcode(source, target, s)) == s <==> WellFormed(source, s)
  {
    var cs := FetchAll(source, s);
    if WellFormed(source, s) {
      WellFormedIsEncoded(source, s);
      FetchAllEncodeAll(target, cs);
    }
    if source.Utf8? {
      EncodeJavaSettles(cs);
      FetchAllEncodeAll(JavaUtf8, Settle(cs));
      EncodeAllWellFormed(Utf8, Settle(cs));
    } else {
      FetchAllRaw(cs);
      ToJavaIsWellFormed(EncodeAll(Utf8, cs), Utf8);
    }
  }

  /** The three bytes of a surrogate in Python's bytes come back as four, those of U+10D800. */
  lemma SurrogateComesBackMoved()
    ensures var s: seq<byte> := [0xed, 0xa0, 0x80];
            && !WellFormed(Utf8, s)
            && Transcode(JavaUtf8, Utf8, Transcode(Utf8, JavaUtf8, s)) == [0xf4, 0x8d, 0xa0, 0x80]
  {
    var s: seq<byte>, cs: seq<word> := [0xed, 0xa0, 0x80], [0xd800];
    assert EncodeUtf8(0xd800) == s && EncodeUtf8(0x10d800) == [0xf4, 0x8d, 0xa0, 0x80];
    hide EncodeUtf8, EncodeJava, FetchAll, FetchUtf8, FetchJava;
    EncodeOne(Utf8, 0xd800);
    EncodeOne(Utf8, 0x10d800);
    FetchAllRaw(cs);
    EncodeJavaSettles(cs);
    FetchAllEncodeAll(JavaUtf8, [0x10d800]);
    assert cs[1..] == [];
  }

  lemma EncodeOne(e: Encoding, c: word)
    ensures EncodeAll(e, [c]) == Encode(e, c)
  {
    assert [c][1..] == [];
  }

  /** The UTF-8 side is handed well-formed UTF-8 exactly if no lone surrogate was fetched. */
  lemma ToUtf8IsWellFormedIff(source: Encoding, s: seq<byte>)
    ensures WellFormed(Utf8, Transcode(source, Utf8, s)) <==> NoSurrogate(FetchAll(source, s))
  {
    var cs := FetchAll(source, s);
    DropAboveKeeps(cs);
    FetchAllRaw(cs);
    if WellFormed(Utf8, EncodeAll(Utf8, cs)) {
      WellFormedIsEncoded(Utf8, EncodeAll(Utf8, cs));
    }
    if NoSurrogate(cs) {
      EncodeAllWellFormed(Utf8, DropAbove(cs));
    }
  }

  /** Transcribing distributes over concatenation when the first part is well formed; nothing is
      asked of the second. */
  lemma TranscodeConcat(source: Encoding, target: Encoding, s: seq<byte>, t: seq<byte>)
    requires WellFormed(source, s)
    ensures Transcode(source, target, s + t)
         == Transcode(source, target, s) + Transcode(source, target, t)
  {
    WellFormedIsEncoded(source, s);
    FetchAllPrefix(source, FetchAll(source, s), t);
    EncodeAllAppend(target, FetchAll(source, s), FetchAll(source, t));
  }

  /** No input makes the Java form contain a zero byte, so it loses nothing as a C string. */
  lemma ToJavaHasNoZero(source: Encoding, s: seq<byte>)
    ensures 0 !in Transcode(source, JavaUtf8, s)
  {
    ToJavaIsWellFormed(s, source);
    WellFormedHasNoZero(Transcode(source, JavaUtf8, s));
  }

  lemma {:induction false} WellFormedHasNoZero(s: seq<byte>)
    requires WellFormed(JavaUtf8, s)
    ensures 0 !in s
    decreases |s|
  {
    if s != [] {
      var n := CharLength(JavaUtf8, s);
      WellFormedHasNoZero(s[n..]);
      assert s == s[..n] + s[n..];
    }
  }

  /** On what the ASCII shortcut accepts, the loop would copy its input, in every direction. */
  lemma {:induction false} BypassIsLoop(source: Encoding, target: Encoding, s: seq<byte>)
    requires Bypassed(s)
    ensures Transcode(source, target, s) == s
    decreases |s|
  {
    if s != [] {
      hide EncodeUtf8, EncodeJava, FetchUtf8, FetchJava;
      BypassOne(source, target, s);
      BypassIsLoop(source, target, s[1..]);
      assert s == [s[0]] + s[1..];
    }
  }

  lemma BypassOne(source: Encoding, target: Encoding, s: seq<byte>)
    requires s != [] && Bypassed(s)
    ensures Fetch(source, s) == Fetched(s[0], 1, false) && s[0] != BAD
    ensures Encode(target, s[0]) == [s[0]]
  {
    hide Char;
    assert IsAscii(s[0]) && s[0] < 0x80;
    Bits1(s[0]);
  }

  /** UTF-8 packs the number c itself, surrogates included. */
  lemma Utf8Meaning(c: word)
    requires c < 0x110000
    ensures 1 <= |EncodeUtf8(c)| <= 4 && Payload(EncodeUtf8(c)) == c
  {
    hide Char, Lead2, Lead3, Lead4, Tail0, Tail6, Tail12, Pack, LeadPayload, Payload;
    if c < 0x80 { Bits1(c); Meaning1(c); PayloadOf(Char(c & 0xff), []); assert EncodeUtf8(c) == [Char(c & 0xff)] + []; }
    else if c < 0x800 {
      Meaning2(c);
      PayloadOf(Lead2(c), [Tail0(c)]);
      assert EncodeUtf8(c) == [Lead2(c)] + [Tail0(c)];
    } else if c < 0x10000 {
      Meaning3(c);
      PayloadOf(Lead3(c), [Tail6(c), Tail0(c)]);
      assert EncodeUtf8(c) == [Lead3(c)] + [Tail6(c), Tail0(c)];
    } else {
      Meaning4(c);
      PayloadOf(Lead4(c), [Tail12(c), Tail6(c), Tail0(c)]);
      assert EncodeUtf8(c) == [Lead4(c)] + [Tail12(c), Tail6(c), Tail0(c)];
    }
  }

  lemma PayloadOf(lead: byte, tail: seq<byte>)
    requires |tail| <= 3
    ensures var high := LeadPayload(lead, 1 + |tail|);
            Payload([lead] + tail) ==
            if |tail| == 0 then high
            else if |tail| == 1 then Pack(high, tail[0])
            else if |tail| == 2 then Pack(Pack(high, tail[0]), tail[1])
            else Pack(Pack(Pack(high, tail[0]), tail[1]), tail[2])
  {
    hide LeadPayload, Pack;
    var high := LeadPayload(lead, 1 + |tail|);
    assert ([lead] + tail)[1..] == tail;
    if |tail| >= 1 {
      var one := Pack(high, tail[0]);
      GatherStep(high, tail[0], tail[1..]);
      assert tail == [tail[0]] + tail[1..];
      if |tail| >= 2 {
        var two := Pack(one, tail[1]);
        GatherStep(one, tail[1], tail[2..]);
        assert tail[1..] == [tail[1]] + tail[2..];
        if |tail| == 3 {
          GatherStep(two, tail[2], []);
          assert tail[2..] == [tail[2]] + [];
        }
      }
    }
  }

  lemma GatherStep(high: word, b: byte, s: seq<byte>)
    ensures Gather(high, [b] + s) == Gather(Pack(high, b), s)
  {
    hide Pack;
    assert ([b] + s)[1..] == s;
  }

  /** How many bytes a first byte announces, by its leading bits; zero for a byte that starts nothing. */
  function Announced(b: byte): nat {
    if b <= 0x7f then 1 else if 0xc0 <= b <= 0xdf then 2 else if 0xe0 <= b <= 0xef then 3
    else if 0xf0 <= b <= 0xf7 then 4 else 0
  }

  /** s starts with a first byte and as many continuation bytes as it announces. */
  ghost predicate StartsWhole(s: seq<byte>, most: nat) {
    && s != [] && 1 <= Announced(s[0]) <= most && Announced(s[0]) <= |s|
    && forall i :: 1 <= i < Announced(s[0]) ==> 0x80 <= s[i] <= 0xbf
  }

  /** On any bytes, well formed or not, a UTF-8 fetch yields the payload of the announced bytes, surrogates
      and overlong forms included, and fails exactly if they are not all there. */
  lemma FetchUtf8Reads(s: seq<byte>)
    ensures if StartsWhole(s, 4)
            then FetchUtf8(s) == Fetched(Payload(s[..Announced(s[0])]), Announced(s[0]), false)
            else FetchUtf8(s).code == BAD
  {
    hide Payload, Join2, Join3, Join4, IsAscii, IsTail, IsLead2, IsLead3, IsLead4, LeadPayload, Pack;
    if s != [] {
      AllPatterns(s);
      if StartsWhole(s, 4) { PayloadAtHead(s); }
    }
  }

  lemma AllPatterns(s: seq<byte>)
    ensures forall i :: 0 <= i < |s| ==> (IsAscii(s[i]) <==> s[i] <= 0x7f) && (IsTail(s[i]) <==> 0x80 <= s[i] <= 0xbf)
    ensures forall i :: 0 <= i < |s| ==> (IsLead2(s[i]) <==> 0xc0 <= s[i] <= 0xdf)
    ensures forall i :: 0 <= i < |s| ==> (IsLead3(s[i]) <==> 0xe0 <= s[i] <= 0xef)
    ensures forall i :: 0 <= i < |s| ==> (IsLead4(s[i]) <==> 0xf0 <= s[i] <= 0xf7)
  {
    hide IsAscii, IsTail, IsLead2, IsLead3, IsLead4;
    forall i | 0 <= i < |s|
      ensures (IsAscii(s[i]) <==> s[i] <= 0x7f) && (IsTail(s[i]) <==> 0x80 <= s[i] <= 0xbf)
      ensures (IsLead2(s[i]) <==> 0xc0 <= s[i] <= 0xdf) && (IsLead3(s[i]) <==> 0xe0 <= s[i] <= 0xef)
      ensures IsLead4(s[i]) <==> 0xf0 <= s[i] <= 0xf7
    {
      Patterns(s[i]);
    }
  }

  lemma PayloadAtHead(s: seq<byte>)
    requires StartsWhole(s, 4)
    ensures var n := Announced(s[0]);
            Payload(s[..n]) == if n == 1 then s[0] else if n == 2 then Join2(s[0], s[1])
                               else if n == 3 then Join3(s[0], s[1], s[2]) else Join4(s[0], s[1], s[2], s[3])
  {
    hide Join2, Join3, Join4, Pack, LeadPayload, Payload;
    var n := Announced(s[0]);
    var tail := s[1..n];
    PayloadOf(s[0], tail);
    assert s[..n] == [s[0]] + tail;
    if n == 1 {
      Meaning1(s[0]);
    } else if n == 2 {
      assert tail[0] == s[1];
      Joins(s[0], s[1], 0);
    } else if n == 3 {
      assert tail[0] == s[1] && tail[1] == s[2];
      Joins(s[0], s[1], s[2]);
    } else {
      assert tail[0] == s[1] && tail[1] == s[2] && tail[2] == s[3];
      Joins4(s[0], s[1], s[2], s[3]);
    }
  }

  /** On any bytes a fetch of modified UTF-8 yields the payload of one to three bytes; but a surrogate in
      front of a first byte of three is joined with what those three bytes, continuation or not, hold. */
  lemma FetchJavaReads(s: seq<byte>)
    ensures if !StartsWhole(s, 3) then FetchJava(s).code == BAD
            else
              var n := Announced(s[0]);
              var u := Payload(s[..n]);
              if n == 3 && 0xd800 <= u <= 0xdfff && |s| > 3 && 0xe0 <= s[3] <= 0xef then
                if |s| < 6 then FetchJava(s).code == BAD
                else FetchJava(s) == Fetched(JoinPair(u, Payload(s[3..6])), 6, false)
              else FetchJava(s).code == u && FetchJava(s).used == n
  {
    hide Payload, Join2, Join3, Join4, JoinPair, IsAscii, IsTail, IsLead2, IsLead3, IsLead4, IsSurrogate, LeadPayload;
    hide Pack;
    if s != [] {
      AllPatterns(s);
      if StartsWhole(s, 3) {
        PayloadAtHead(s);
        if Announced(s[0]) == 3 {
          Joins(s[0], s[1], s[2]);
          SurrogatePattern(Join3(s[0], s[1], s[2]));
          if |s| >= 6 && 0xe0 <= s[3] <= 0xef { AnyThree(s[3..6]); }
        }
      }
    }
  }

  lemma AnyThree(s: seq<byte>)
    requires |s| == 3
    ensures Payload(s) == Join3(s[0], s[1], s[2])
  {
    PayloadOf(s[0], s[1..]);
    assert s == [s[0]] + s[1..];
    hide Payload, Join3, Pack, LeadPayload;
    Joins(s[0], s[1], s[2]);
  }

  /** Modified UTF-8 is the UTF-16 code units of the string, each encoded on its own. */
  lemma {:induction false} JavaMeaning(cs: seq<word>)
    requires AllScalar(cs)
    ensures EncodeAll(JavaUtf8, cs) == EncodeUnits(Utf16(cs))
    decreases |cs|
  {
    hide EncodeUtf8, EncodeJava, HighUnit, LowUnit;
    if cs != [] {
      var c, rest := cs[0], Utf16(cs[1..]);
      JavaMeaning(cs[1..]);
      if c < 0x10000 {
        EncodeBasic(c);
        assert ([c] + rest)[1..] == rest;
      } else {
        EncodePair(c);
        var high, low := HighUnit(c), LowUnit(c);
        assert ([high, low] + rest)[1..] == [low] + rest && ([low] + rest)[1..] == rest;
      }
    }
  }

  lemma EncodeBasic(c: word)
    requires IsScalar(c) && c < 0x10000
    ensures EncodeJava(c) == if c == 0 then [0xc0, 0x80] else EncodeUtf8(c)
  {
    hide Char, Lead2, Lead3, Tail0, Tail6;
  }

  lemma EncodePair(c: word)
    requires 0x10000 <= c < 0x110000
    ensures HighUnit(c) != 0 && LowUnit(c) != 0
    ensures EncodeJava(c) == EncodeUtf8(HighUnit(c)) + EncodeUtf8(LowUnit(c))
  {
    hide HighUnit, LowUnit, Lead2, Lead3, Lead4, Tail0, Tail6, Tail12, High1, High2, Low1, Above;
    UnitRanges(c);
    HighUnitBytes(c);
    LowUnitBytes(c);
  }
}
