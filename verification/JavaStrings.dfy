/** What Python is handed for an arbitrary Java string: any sequence of 16-bit units, surrogates in any
    order included, given to `transcribe` in modified UTF-8 (native/common/jp_javaframe.cpp:1108-1116). */
module JavaStrings {
  import opened CodeBits
  import opened Encoding
  import opened Transcoding

  /** A Java char. */
  type unit = u: word | u < 0x10000 witness 0

  predicate High(u: unit) { 0xd800 <= u < 0xdc00 }
  predicate Low(u: unit) { 0xdc00 <= u < 0xe000 }
  predicate Surrogate(u: unit) { High(u) || Low(u) }

  /** The bytes for Python of the Java string us. */
  function ToPython(us: seq<unit>): seq<byte> { Transcode(JavaUtf8, Utf8, EncodeUnits(us)) }

  /** Well-formed UTF-16: every surrogate is a high one followed by a low one, or that low one. */
  predicate Paired(us: seq<unit>)
    decreases |us|
  {
    || us == []
    || (if Surrogate(us[0]) then High(us[0]) && |us| >= 2 && Low(us[1]) && Paired(us[2..]) else Paired(us[1..]))
  }

  /** The string starts with a surrogate and a unit that takes three bytes, of whatever kind. */
  predicate StartsJoined(us: seq<unit>) { |us| >= 2 && Surrogate(us[0]) && us[1] >= 0x800 }

  /** From left to right, every surrogate that was not joined to the one before is followed by a unit
      that takes three bytes. */
  predicate Followed(us: seq<unit>)
    decreases |us|
  {
    || us == []
    || (if Surrogate(us[0]) then StartsJoined(us) && Followed(us[2..]) else Followed(us[1..]))
  }

  /** From left to right, every unit of three bytes behind a surrogate makes a proper pair with it. */
  predicate NoneSwallowed(us: seq<unit>)
    decreases |us|
  {
    || us == []
    || (if StartsJoined(us) then High(us[0]) && Low(us[1]) && NoneSwallowed(us[2..]) else NoneSwallowed(us[1..]))
  }

  /** The code points of a Java string, as String.codePointAt delimits them: a lone surrogate counts as
      itself. */
  function CodePoints(us: seq<unit>): seq<word>
    decreases |us|
  {
    if us == [] then []
    else if |us| >= 2 && High(us[0]) && Low(us[1]) then [JoinPair(us[0], us[1])] + CodePoints(us[2..])
    else [us[0]] + CodePoints(us[1..])
  }

  // ----- what the transcriber reads

  /** The code points fetched from the Java string us. */
  function Read(us: seq<unit>): seq<word>
    decreases |us|
  {
    if us == [] then []
    else if StartsJoined(us) then [JoinPair(us[0], us[1])] + Read(us[2..])
    else [us[0]] + Read(us[1..])
  }

  lemma FetchPlain(u: unit, tail: seq<byte>)
    requires !Surrogate(u)
    ensures FetchJava(EncodeUnit(u) + tail) == Fetched(u, |EncodeUnit(u)|, false)
  {
    EncodeBasic(u);
    FetchJavaAtHead(u, tail);
  }

  /** A surrogate at the end of the string, or in front of one or two bytes, is fetched alone. */
  lemma FetchLone(us: seq<unit>)
    requires us != [] && Surrogate(us[0]) && !StartsJoined(us)
    ensures var f := FetchJava(EncodeUnit(us[0]) + EncodeUnits(us[1..])); f.code == us[0] && f.used == 3
    ensures |EncodeUnit(us[0])| == 3
  {
    hide Char, Lead2, Lead3, Tail0, Tail6, Join2, Join3, JoinPair;
    hide IsAscii, IsLead2, IsLead3, IsTail, IsSurrogate;
    Shape3(us[0]);
    Inverse3(us[0]);
    SurrogateRange(us[0]);
    Prefix(EncodeUnit(us[0]), EncodeUnits(us[1..]));
    if |us| >= 2 {
      UnitStart(us[1]);
    }
  }

  /** Only units of three bytes start with the byte that is looked for behind a surrogate. */
  lemma UnitStart(u: unit)
    ensures |EncodeUnit(u)| >= 1 && (IsLead3(EncodeUnit(u)[0]) <==> u >= 0x800)
  {
    hide Char, Lead2, Lead3, Tail0, Tail6, IsAscii, IsLead2, IsLead3, IsTail;
    if u == 0 { BitsNul(); OtherLeads(0xc0); }
    else if u < 0x80 { Bits1(u); OtherLeads(u); }
    else if u < 0x800 { Shape2(u); OtherLeads(Lead2(u)); }
    else { Shape3(u); }
  }

  lemma FetchJoined(us: seq<unit>)
    requires StartsJoined(us)
    ensures |EncodeUnit(us[0])| == |EncodeUnit(us[1])| == 3
    ensures FetchJava(EncodeUnit(us[0]) + (EncodeUnit(us[1]) + EncodeUnits(us[2..])))
         == Fetched(JoinPair(us[0], us[1]), 6, false)
  {
    hide Char, Lead2, Lead3, Tail0, Tail6, Join2, Join3, JoinPair;
    hide IsAscii, IsLead2, IsLead3, IsTail, IsSurrogate;
    var tail := EncodeUnit(us[1]) + EncodeUnits(us[2..]);
    Shape3(us[0]);
    Inverse3(us[0]);
    SurrogateRange(us[0]);
    Shape3(us[1]);
    Inverse3(us[1]);
    Prefix(EncodeUnit(us[1]), EncodeUnits(us[2..]));
    Prefix(EncodeUnit(us[0]), tail);
  }

  lemma {:induction false} FetchesRead(us: seq<unit>)
    ensures FetchAll(JavaUtf8, EncodeUnits(us)) == Read(us)
    decreases |us|
  {
    hide EncodeUtf8, FetchJava, Surrogate, JoinPair;
    if us != [] {
      var s, rest := EncodeUnits(us), EncodeUnits(us[1..]);
      assert s == EncodeUnit(us[0]) + rest;
      Prefix(EncodeUnit(us[0]), rest);
      if StartsJoined(us) {
        FetchJoined(us);
        JoinPairScalar(us[0], us[1]);
        assert us[1..][1..] == us[2..];
        Prefix(EncodeUnit(us[1]), EncodeUnits(us[2..]));
        assert s[6..] == rest[3..] == EncodeUnits(us[2..]);
        FetchesRead(us[2..]);
      } else {
        if Surrogate(us[0]) { FetchLone(us); } else { FetchPlain(us[0], rest); }
        FetchesRead(us[1..]);
      }
    }
  }

  lemma {:induction false} ReadInUnicode(us: seq<unit>)
    ensures forall i :: 0 <= i < |Read(us)| ==> InUnicode(Read(us)[i])
    ensures NoSurrogate(Read(us)) <==> Followed(us)
    decreases |us|
  {
    hide JoinPair;
    if us != [] {
      var k := if StartsJoined(us) then 2 else 1;
      if StartsJoined(us) { JoinPairScalar(us[0], us[1]); }
      ReadInUnicode(us[k..]);
      NoSurrogateCons(Read(us)[0], Read(us[k..]));
    }
  }

  lemma NoSurrogateCons(c: word, cs: seq<word>)
    ensures NoSurrogate([c] + cs) <==> (IsScalar(c) || !InUnicode(c)) && NoSurrogate(cs)
  {
    hide IsScalar, InUnicode;
    assert ([c] + cs)[0] == c && forall i :: 0 <= i < |cs| ==> cs[i] == ([c] + cs)[i + 1];
  }

  lemma {:induction false} Utf16IsPaired(cs: seq<word>)
    requires AllScalar(cs)
    ensures (forall i :: 0 <= i < |Utf16(cs)| ==> Utf16(cs)[i] < 0x10000) && Paired(Utf16(cs))
    decreases |cs|
  {
    hide HighUnit, LowUnit;
    if cs != [] {
      Utf16IsPaired(cs[1..]);
      var rest := Utf16(cs[1..]);
      if cs[0] < 0x10000 {
        assert ([cs[0]] + rest)[1..] == rest;
      } else {
        UnitRanges(cs[0]);
        assert ([HighUnit(cs[0]), LowUnit(cs[0])] + rest)[2..] == rest;
      }
    }
  }

  lemma {:induction false} PairedIsUtf16(us: seq<unit>)
    requires Paired(us)
    ensures AllScalar(Read(us)) && Utf16(Read(us)) == us
    decreases |us|
  {
    hide JoinPair, HighUnit, LowUnit;
    if us != [] {
      var k := if StartsJoined(us) then 2 else 1;
      PairedIsUtf16(us[k..]);
      AllScalarCons(Read(us)[0], Read(us[k..]));
      if k == 2 {
        JoinPairScalar(us[0], us[1]);
        JoinPairUnits(us[0], us[1]);
        assert us == [us[0], us[1]] + us[2..];
      } else {
        assert us == [us[0]] + us[1..];
      }
    }
  }

  /** Taken as UTF-8 the bytes of the Java form read back as the units, so no two strings share them. */
  lemma {:induction false} UnitsReadBack(us: seq<unit>)
    ensures FetchAll(Utf8, EncodeUnits(us)) == us
    decreases |us|
  {
    hide EncodeUtf8, FetchUtf8;
    if us != [] {
      var rest := EncodeUnits(us[1..]);
      assert EncodeUnits(us) == EncodeUnit(us[0]) + rest;
      Prefix(EncodeUnit(us[0]), rest);
      if us[0] == 0 { FetchNul(rest); } else { FetchUtf8AtHead(us[0], rest); }
      UnitsReadBack(us[1..]);
    }
  }

  lemma FetchNul(rest: seq<byte>)
    ensures FetchUtf8([0xc0, 0x80] + rest) == Fetched(0, 2, false)
  {
    hide IsAscii, IsLead2, IsLead3, IsTail, Join2;
    BitsNul();
  }

  lemma {:induction false} ReadIsCodePointsIff(us: seq<unit>)
    ensures Read(us) == CodePoints(us) <==> NoneSwallowed(us)
    decreases |us|
  {
    hide JoinPair;
    if us != [] {
      if StartsJoined(us) {
        JoinPairScalar(us[0], us[1]);
        ReadIsCodePointsIff(us[2..]);
        assert Read(us)[0] >= 0x10000 && Read(us)[1..] == Read(us[2..]);
        if High(us[0]) && Low(us[1]) {
          assert CodePoints(us)[1..] == CodePoints(us[2..]);
        } else {
          assert CodePoints(us)[0] == us[0];
        }
      } else {
        ReadIsCodePointsIff(us[1..]);
        assert Read(us)[1..] == Read(us[1..]) && CodePoints(us)[1..] == CodePoints(us[1..]);
      }
    }
  }

  lemma {:induction false} CodePointsInUnicode(us: seq<unit>)
    ensures forall i :: 0 <= i < |CodePoints(us)| ==> InUnicode(CodePoints(us)[i])
    decreases |us|
  {
    hide JoinPair;
    if us != [] {
      if |us| >= 2 && High(us[0]) && Low(us[1]) {
        JoinPairScalar(us[0], us[1]);
        CodePointsInUnicode(us[2..]);
      } else {
        CodePointsInUnicode(us[1..]);
      }
    }
  }

  lemma {:induction false} DropsNone(cs: seq<word>)
    requires forall i :: 0 <= i < |cs| ==> InUnicode(cs[i])
    ensures DropAbove(cs) == cs
  {
    if cs != [] { DropsNone(cs[1..]); }
  }

  // ----- main results, for every Java string

  /** Python gets well-formed UTF-8 exactly if, from left to right, every surrogate is followed by some
      unit of three bytes, whether or not it is its partner. */
  lemma ToPythonIsWellFormedIff(us: seq<unit>)
    ensures WellFormed(Utf8, ToPython(us)) <==> Followed(us)
  {
    FetchesRead(us);
    ReadInUnicode(us);
    ToUtf8IsWellFormedIff(JavaUtf8, EncodeUnits(us));
  }

  /** Python gets the string, that is the UTF-8 of scalar values whose UTF-16 it is, exactly if every
      surrogate is a high one followed by a low one. */
  lemma ToPythonIsStringIff(us: seq<unit>)
    ensures (exists cs :: AllScalar(cs) && Utf16(cs) == us && ToPython(us) == EncodeAll(Utf8, cs)) <==> Paired(us)
  {
    FetchesRead(us);
    if Paired(us) { PairedIsUtf16(us); }
    forall cs | AllScalar(cs) && Utf16(cs) == us ensures Paired(us) { Utf16IsPaired(cs); }
  }

  /** Python gets every code point of the string, lone surrogates in their three-byte form, exactly if
      none is joined with the character behind it. */
  lemma NothingSwallowedIff(us: seq<unit>)
    ensures ToPython(us) == EncodeAll(Utf8, CodePoints(us)) <==> NoneSwallowed(us)
  {
    FetchesRead(us);
    ReadIsCodePointsIff(us);
    ReadInUnicode(us);
    CodePointsInUnicode(us);
    DropsNone(Read(us));
    DropsNone(CodePoints(us));
    FetchAllRaw(Read(us));
    FetchAllRaw(CodePoints(us));
  }

  /** The two ways to go wrong: a string arrives intact exactly if neither happens. */
  lemma {:induction false} PairedIff(us: seq<unit>)
    ensures Paired(us) <==> Followed(us) && NoneSwallowed(us)
    decreases |us|
  {
    if us != [] {
      PairedIff(us[1..]);
      if |us| >= 2 { PairedIff(us[2..]); }
    }
  }

  /** A Java string comes back from Python unchanged exactly if its surrogates are paired. */
  lemma JavaRoundTripIffPaired(us: seq<unit>)
    ensures Transcode(Utf8, JavaUtf8, ToPython(us)) == EncodeUnits(us) <==> Paired(us)
  {
    var s := EncodeUnits(us);
    RoundTripIffWellFormed(JavaUtf8, Utf8, s);
    WellFormedIffEncoded(JavaUtf8, s);
    if Paired(us) {
      PairedIsUtf16(us);
      JavaMeaning(Read(us));
    }
    forall cs | AllScalar(cs) && s == EncodeAll(JavaUtf8, cs) ensures Paired(us) {
      JavaMeaning(cs);
      Utf16IsPaired(cs);
      UnitsReadBack(us);
      UnitsReadBack(Utf16(cs));
    }
  }

  // ----- the two failures, at their smallest

  /** A surrogate alone: Python gets bytes that are not UTF-8. */
  lemma LoneSurrogate()
    ensures !WellFormed(Utf8, ToPython([0xd800]))
  {
    ToPythonIsWellFormedIff([0xd800]);
  }

  /** A surrogate in front of U+4E00: Python gets U+10200, well formed, and the character is gone. */
  lemma SwallowedCharacter()
    ensures ToPython([0xd800, 0x4e00]) == EncodeUtf8(0x10200)
    ensures WellFormed(Utf8, ToPython([0xd800, 0x4e00])) && !Paired([0xd800, 0x4e00])
  {
    var us: seq<unit> := [0xd800, 0x4e00];
    FetchesRead(us);
    ToPythonIsWellFormedIff(us);
    assert us[2..] == [] && Read(us) == [JoinPair(0xd800, 0x4e00)];
    hide EncodeUtf8;
    assert JoinPair(0xd800, 0x4e00) == 0x10200;
    assert [0x10200 as word][1..] == [];
  }
}
