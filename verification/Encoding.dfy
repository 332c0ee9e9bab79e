/** Model of native/common/jp_encoding.cpp: transcribing between UTF-8 (RFC 3629) and the
    modified UTF-8 of section 4.4.7 of the Java Virtual Machine Specification. */
module Encoding {
  import opened CodeBits

  /** The value `(unsigned int) -1` that reports both end of stream and a bad coding. */
  const BAD: word := 0xffff_ffff

  datatype Encoding = Utf8 | JavaUtf8

  /** What one fetch does: the code point (or BAD), the bytes consumed, and the stream's eof flag. */
  datatype Fetched = Fetched(code: word, used: nat, eof: bool)

  ghost predicate AllScalar(cs: seq<word>) { forall i :: 0 <= i < |cs| ==> IsScalar(cs[i]) }

  // ----- one character

  function EncodeUtf8(c: word): seq<byte> {
    if c < 0x80 then [Char(c & 0xff)]
    else if c < 0x800 then [Lead2(c), Tail0(c)]
    else if c < 0x10000 then [Lead3(c), Tail6(c), Tail0(c)]
    else if c < 0x110000 then [Lead4(c), Tail12(c), Tail6(c), Tail0(c)]
    else []
  }

  function EncodeJava(c: word): seq<byte> {
    if c == 0 then [0xc0, 0x80]
    else if c < 0x80 then [Char(c & 0xff)]
    else if c < 0x800 then [Lead2(c), Tail0(c)]
    else if c < 0xd800 || 0xe000 <= c < 0x10000 then [Lead3(c), Tail6(c), Tail0(c)]
    else if c < 0x110000 then EncodeSix(Above(c))
    else []
  }

  function EncodeSix(d: word): seq<byte> {
    [0xed, High1(d), High2(d), 0xed, Low1(d), Tail0(d)]
  }

  function Encode(e: Encoding, c: word): seq<byte> {
    if e.Utf8? then EncodeUtf8(c) else EncodeJava(c)
  }

  function FetchUtf8(s: seq<byte>): Fetched {
    if |s| < 1 then Fetched(BAD, |s|, true)
    else if IsAscii(s[0]) then Fetched(s[0], 1, false)
    else if |s| < 2 then Fetched(BAD, |s|, true)
    else if IsLead2(s[0]) then Fetched(if IsTail(s[1]) then Join2(s[0], s[1]) else BAD, 2, false)
    else if |s| < 3 then Fetched(BAD, |s|, true)
    else if IsLead3(s[0]) then
      Fetched(if IsTail(s[1]) && IsTail(s[2]) then Join3(s[0], s[1], s[2]) else BAD, 3, false)
    else if |s| < 4 then Fetched(BAD, |s|, true)
    else if IsLead4(s[0]) && IsTail(s[1]) && IsTail(s[2]) && IsTail(s[3]) then
      Fetched(Join4(s[0], s[1], s[2], s[3]), 4, false)
    else Fetched(BAD, 4, false)
  }

  function FetchJava(s: seq<byte>): Fetched {
    if |s| < 1 then Fetched(BAD, |s|, true)
    else if IsAscii(s[0]) then Fetched(s[0], 1, false)
    else if |s| < 2 then Fetched(BAD, |s|, true)
    else if IsLead2(s[0]) then Fetched(if IsTail(s[1]) then Join2(s[0], s[1]) else BAD, 2, false)
    else if |s| < 3 then Fetched(BAD, |s|, true)
    else if IsLead3(s[0]) && IsTail(s[1]) && IsTail(s[2]) then
      FetchAfterGroup(Join3(s[0], s[1], s[2]), s[3..])
    else Fetched(BAD, 3, false)
  }

  /** A surrogate is paired with the next three-byte group, of which only the first byte is checked. */
  function FetchAfterGroup(out: word, s: seq<byte>): Fetched {
    if !IsSurrogate(out) then Fetched(out, 3, false)
    else if |s| < 1 then Fetched(out, 3, true)
    else if !IsLead3(s[0]) then Fetched(out, 3, false)
    else if |s| < 3 then Fetched(BAD, 3 + |s|, true)
    else Fetched(JoinPair(out, Join3(s[0], s[1], s[2])), 6, false)
  }

  function Fetch(e: Encoding, s: seq<byte>): (f: Fetched)
    ensures f.used <= |s|
    ensures f.code != BAD ==> 0 < f.used
    ensures f.eof ==> f.used == |s|
    ensures s == [] ==> f.code == BAD
  {
    if e.Utf8? then FetchUtf8(s) else FetchJava(s)
  }

  // ----- whole strings

  /** The code points fetched before the first failing fetch. */
  function FetchAll(e: Encoding, s: seq<byte>): seq<word>
    decreases |s|
  {
    var f := Fetch(e, s);
    if f.code == BAD then [] else [f.code] + FetchAll(e, s[f.used..])
  }

  function EncodeAll(e: Encoding, cs: seq<word>): seq<byte> {
    if cs == [] then [] else Encode(e, cs[0]) + EncodeAll(e, cs[1..])
  }

  function Transcode(source: Encoding, target: Encoding, s: seq<byte>): seq<byte> {
    EncodeAll(target, FetchAll(source, s))
  }

  /** The test of the ASCII shortcut. */
  predicate Bypassed(s: seq<byte>) {
    forall i :: 0 <= i < |s| ==> !(s[i] & 0x80 != 0 || s[i] == 0)
  }

  // ----- reference definitions: which byte strings are well formed, and what they mean

  /** Length of the well-formed UTF-8 character that s starts with, zero if none:
      the productions UTF8-1 to UTF8-4 of section 4 of RFC 3629. */
  function Utf8CharLength(s: seq<byte>): nat {
    if |s| >= 1 && s[0] <= 0x7f then 1
    else if |s| >= 2 && 0xc2 <= s[0] <= 0xdf && 0x80 <= s[1] <= 0xbf then 2
    else if |s| >= 3 && 0x80 <= s[2] <= 0xbf
      && (|| (s[0] == 0xe0 && 0xa0 <= s[1] <= 0xbf)
          || (0xe1 <= s[0] <= 0xec && 0x80 <= s[1] <= 0xbf)
          || (s[0] == 0xed && 0x80 <= s[1] <= 0x9f)
          || (0xee <= s[0] <= 0xef && 0x80 <= s[1] <= 0xbf)) then 3
    else if |s| >= 4 && 0x80 <= s[2] <= 0xbf && 0x80 <= s[3] <= 0xbf
      && (|| (s[0] == 0xf0 && 0x90 <= s[1] <= 0xbf)
          || (0xf1 <= s[0] <= 0xf3 && 0x80 <= s[1] <= 0xbf)
          || (s[0] == 0xf4 && 0x80 <= s[1] <= 0x8f)) then 4
    else 0
  }

  /** The same for modified UTF-8: NUL as C0 80, no four-byte form, and a character outside the
      basic plane as two three-byte groups, a high surrogate then a low one. */
  function JavaCharLength(s: seq<byte>): nat {
    if |s| >= 1 && 0x01 <= s[0] <= 0x7f then 1
    else if |s| >= 2 && s[0] == 0xc0 && s[1] == 0x80 then 2
    else if |s| >= 2 && 0xc2 <= s[0] <= 0xdf && 0x80 <= s[1] <= 0xbf then 2
    else if |s| >= 3 && 0x80 <= s[2] <= 0xbf
      && (|| (s[0] == 0xe0 && 0xa0 <= s[1] <= 0xbf)
          || (0xe1 <= s[0] <= 0xec && 0x80 <= s[1] <= 0xbf)
          || (s[0] == 0xed && 0x80 <= s[1] <= 0x9f)
          || (0xee <= s[0] <= 0xef && 0x80 <= s[1] <= 0xbf)) then 3
    else if |s| >= 6 && s[0] == 0xed && 0xa0 <= s[1] <= 0xaf && 0x80 <= s[2] <= 0xbf
      && s[3] == 0xed && 0xb0 <= s[4] <= 0xbf && 0x80 <= s[5] <= 0xbf then 6
    else 0
  }

  function CharLength(e: Encoding, s: seq<byte>): (n: nat)
    ensures n <= |s|
  {
    if e.Utf8? then Utf8CharLength(s) else JavaCharLength(s)
  }

  predicate WellFormed(e: Encoding, s: seq<byte>)
    decreases |s|
  {
    s == [] || (CharLength(e, s) > 0 && WellFormed(e, s[CharLength(e, s)..]))
  }

  /** The number a UTF-8 character stands for: the payload bits of its bytes, most significant
      first, as section 3 of RFC 3629 lays them out. */
  function Payload(s: seq<byte>): word
    requires 1 <= |s| <= 4
  {
    Gather(LeadPayload(s[0], |s|), s[1..])
  }

  function Gather(high: word, s: seq<byte>): word
    decreases |s|
  {
    if s == [] then high else Gather(Pack(high, s[0]), s[1..])
  }

  /** The UTF-16 code units of a string, by section 2.1 of RFC 2781. */
  function Utf16(cs: seq<word>): seq<word> {
    if cs == [] then []
    else if cs[0] < 0x10000 then [cs[0]] + Utf16(cs[1..])
    else [HighUnit(cs[0]), LowUnit(cs[0])] + Utf16(cs[1..])
  }

  /** Modified UTF-8 as the Java Virtual Machine Specification defines it: each UTF-16 code unit on
      its own in one to three bytes, NUL in two. */
  function EncodeUnits(us: seq<word>): seq<byte> {
    if us == [] then []
    else EncodeUnit(us[0]) + EncodeUnits(us[1..])
  }

  function EncodeUnit(u: word): seq<byte> { if u == 0 then [0xc0, 0x80] else EncodeUtf8(u) }

  // ----- one character: encoding and fetching are inverse

  lemma Prefix<T>(head: seq<T>, rest: seq<T>)
    ensures |head + rest| == |head| + |rest| && (head + rest)[|head|..] == rest
    ensures forall i {:trigger (head + rest)[i]} :: 0 <= i < |head| ==> (head + rest)[i] == head[i]
  {
  }

  lemma FetchUtf8AtHead(c: word, rest: seq<byte>)
    requires c < 0x110000
    ensures FetchUtf8(EncodeUtf8(c) + rest) == Fetched(c, |EncodeUtf8(c)|, false)
  {
    hide Char, Lead2, Lead3, Lead4, Tail0, Tail6, Tail12, Join2, Join3, Join4;
    hide IsAscii, IsLead2, IsLead3, IsLead4, IsTail;
    Prefix(EncodeUtf8(c), rest);
    if c < 0x80 { Bits1(c); }
    else if c < 0x800 { Shape2(c); Inverse2(c); }
    else if c < 0x10000 { Shape3(c); Inverse3(c); }
    else { Shape4(c); Inverse4(c); }
  }

  lemma FetchJavaAtHead(c: word, rest: seq<byte>)
    requires IsScalar(c)
    ensures FetchJava(EncodeJava(c) + rest) == Fetched(c, |EncodeJava(c)|, false)
  {
    hide Char, Lead2, Lead3, Tail0, Tail6, High1, High2, Low1, Above, Join2, Join3, JoinPair;
    hide IsAscii, IsLead2, IsLead3, IsTail, IsSurrogate;
    var s := EncodeJava(c) + rest;
    Prefix(EncodeJava(c), rest);
    if c == 0 { BitsNul(); }
    else if c < 0x80 { Bits1(c); }
    else if c < 0x800 { Shape2(c); Inverse2(c); }
    else if c < 0x10000 { Shape3(c); Inverse3(c); SurrogateRange(c); }
    else {
      Shape6(c); Inverse6(c);
      assert s[3..][0] == s[3] && s[3..][1] == s[4] && s[3..][2] == s[5];
    }
  }

  /** Fetching what was encoded gives back the code point and consumes exactly its bytes. */
  lemma FetchAtHead(e: Encoding, c: word, rest: seq<byte>)
    requires IsScalar(c)
    ensures Fetch(e, Encode(e, c) + rest) == Fetched(c, |Encode(e, c)|, false)
    ensures |Encode(e, c)| > 0
  {
    if e.Utf8? { FetchUtf8AtHead(c, rest); } else { FetchJavaAtHead(c, rest); }
  }

  lemma Utf8LengthAtHead(c: word, rest: seq<byte>)
    requires IsScalar(c)
    ensures Utf8CharLength(EncodeUtf8(c) + rest) == |EncodeUtf8(c)|
  {
    hide Char, Lead2, Lead3, Lead4, Tail0, Tail6, Tail12;
    hide IsAscii, IsLead2, IsLead3, IsLead4, IsTail;
    Prefix(EncodeUtf8(c), rest);
    if c < 0x80 { Bits1(c); }
    else if c < 0x800 { Shape2(c); }
    else if c < 0x10000 { Shape3(c); }
    else { Range4(c); }
  }

  lemma JavaLengthAtHead(c: word, rest: seq<byte>)
    requires IsScalar(c)
    ensures JavaCharLength(EncodeJava(c) + rest) == |EncodeJava(c)|
  {
    hide Char, Lead2, Lead3, Tail0, Tail6, High1, High2, Low1, Above;
    hide IsAscii, IsLead2, IsLead3, IsTail, IsSurrogate;
    Prefix(EncodeJava(c), rest);
    if c == 0 {}
    else if c < 0x80 { Bits1(c); }
    else if c < 0x800 { Shape2(c); }
    else if c < 0x10000 { Shape3(c); }
    else { Shape6(c); }
  }

  lemma FetchUtf8WellFormed(s: seq<byte>)
    requires Utf8CharLength(s) > 0
    ensures var f := FetchUtf8(s);
            && IsScalar(f.code) && f.used == Utf8CharLength(s) && EncodeUtf8(f.code) == s[..f.used]
  {
    var n := Utf8CharLength(s);
    if n == 1 { FetchOne(s); }
    else if n == 2 { FetchTwo(s); }
    else if n == 3 { FetchThree(s); }
    else { FetchFour(s); }
  }

  lemma FetchOne(s: seq<byte>)
    requires |s| >= 1 && s[0] <= 0x7f
    ensures FetchUtf8(s) == Fetched(s[0], 1, false) && EncodeUtf8(s[0]) == s[..1]
  {
    hide Char, IsAscii;
    Bits1(s[0]);
  }

  lemma FetchTwo(s: seq<byte>)
    requires |s| >= 2 && 0xc2 <= s[0] <= 0xdf && 0x80 <= s[1] <= 0xbf
    ensures var c := Join2(s[0], s[1]);
            IsScalar(c) && FetchUtf8(s) == Fetched(c, 2, false) && EncodeUtf8(c) == s[..2]
  {
    hide Lead2, Tail0, Join2, IsAscii, IsLead2, IsTail;
    BackShape2(s[0], s[1]);
    BackInverse2(s[0], s[1]);
  }

  lemma FetchThree(s: seq<byte>)
    requires |s| >= 3 && Utf8CharLength(s) == 3
    ensures var c := Join3(s[0], s[1], s[2]);
            && IsScalar(c) && 0x800 <= c < 0x10000
            && FetchUtf8(s) == Fetched(c, 3, false) && EncodeUtf8(c) == s[..3]
  {
    hide Lead3, Tail6, Tail0, Join3, IsAscii, IsLead2, IsLead3, IsTail;
    BackShape3(s[0], s[1], s[2]);
    BackRange3(s[0], s[1], s[2]);
    BackInverse3(s[0], s[1], s[2]);
  }

  lemma FetchFour(s: seq<byte>)
    requires |s| >= 4 && Utf8CharLength(s) == 4
    ensures var c := Join4(s[0], s[1], s[2], s[3]);
            IsScalar(c) && FetchUtf8(s) == Fetched(c, 4, false) && EncodeUtf8(c) == s[..4]
  {
    hide Lead4, Tail12, Tail6, Tail0, Join4, IsAscii, IsLead2, IsLead3, IsLead4, IsTail;
    BackShape4(s[0], s[1], s[2], s[3]);
    BackRange4(s[0], s[1], s[2], s[3]);
    BackInverse4(s[0], s[1], s[2], s[3]);
  }

  lemma FetchJavaWellFormed(s: seq<byte>)
    requires JavaCharLength(s) > 0
    ensures var f := FetchJava(s);
            && IsScalar(f.code) && f.used == JavaCharLength(s) && EncodeJava(f.code) == s[..f.used]
  {
    hide Char, Lead2, Lead3, Tail0, Tail6, High1, High2, Low1, Above, Join2, Join3, JoinPair;
    hide IsAscii, IsLead2, IsLead3, IsTail, IsSurrogate;
    var n := JavaCharLength(s);
    if n == 1 { Bits1(s[0]); }
    else if n == 2 {
      if s[0] == 0xc0 { BitsNul(); } else { BackShape2(s[0], s[1]); BackInverse2(s[0], s[1]); }
    } else if n == 3 {
      BackShape3(s[0], s[1], s[2]); BackRange3(s[0], s[1], s[2]); BackInverse3(s[0], s[1], s[2]);
      SurrogateRange(Join3(s[0], s[1], s[2]));
    } else {
      BackShape3(0xed, 0x80, 0x80);
      Back6(s[1], s[2], s[4], s[5]);
      assert s[3..][0] == s[3] && s[3..][1] == s[4] && s[3..][2] == s[5];
    }
  }

  /** A well-formed character is fetched whole, as the scalar value it encodes. */
  lemma FetchWellFormed(e: Encoding, s: seq<byte>)
    requires CharLength(e, s) > 0
    ensures var f := Fetch(e, s);
            && IsScalar(f.code) && f.used == CharLength(e, s) && Encode(e, f.code) == s[..f.used]
  {
    if e.Utf8? { FetchUtf8WellFormed(s); } else { FetchJavaWellFormed(s); }
  }
}
