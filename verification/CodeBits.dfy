/** The bit layout of single characters in native/common/jp_encoding.cpp.

    Bytes and code points are both 32-bit words, as `unsigned int` is in the source, so every
    shift, mask and wrap-around below is the machine operation of the source. */
module CodeBits {
  type word = bv32
  type byte = b: bv32 | b < 0x100 witness 0

  /** A Unicode scalar value: a code point that is not a surrogate. */
  predicate IsScalar(c: word) { c < 0xd800 || 0xe000 <= c < 0x110000 }

  // ----- taking a code point apart

  /** The narrowing `char(x)`. */
  function Char(x: word): byte { x & 0xff }

  function Lead2(c: word): byte { Char(0xc0 + ((c >> 6) & 0x1f)) }
  function Lead3(c: word): byte { Char(0xe0 + ((c >> 12) & 0x0f)) }
  function Lead4(c: word): byte { Char(0xf0 + ((c >> 18) & 0x07)) }
  function Tail0(c: word): byte { Char(0x80 + ((c >> 0) & 0x3f)) }
  function Tail6(c: word): byte { Char(0x80 + ((c >> 6) & 0x3f)) }
  function Tail12(c: word): byte { Char(0x80 + ((c >> 12) & 0x3f)) }

  /** The `c - 0x10000` before a surrogate pair; it wraps for smaller c. */
  function Above(c: word): word { c - 0x10000 }

  function High1(d: word): byte { Char(0xa0 + ((d >> 16) & 0xf)) }
  function High2(d: word): byte { Char(0x80 + ((d >> 10) & 0x3f)) }
  function Low1(d: word): byte { Char(0xb0 + ((d >> 6) & 0xf)) }

  // ----- putting it together again

  predicate IsAscii(b: word) { b & 0x80 == 0 }
  predicate IsLead2(b: word) { b & 0xe0 == 0xc0 }
  predicate IsLead3(b: word) { b & 0xf0 == 0xe0 }
  predicate IsLead4(b: word) { b & 0xf8 == 0xf0 }
  predicate IsTail(b: word) { b & 0xc0 == 0x80 }
  predicate IsSurrogate(c: word) { c & 0xf800 == 0xd800 }

  function Join2(b0: word, b1: word): word { ((b0 & 0x1f) << 6) + (b1 & 0x3f) }

  function Join3(b0: word, b1: word, b2: word): word {
    ((b0 & 0xf) << 12) + ((b1 & 0x3f) << 6) + (b2 & 0x3f)
  }

  function Join4(b0: word, b1: word, b2: word, b3: word): word {
    ((b0 & 0xf) << 18) + ((b1 & 0x3f) << 12) + ((b2 & 0x3f) << 6) + (b3 & 0x3f)
  }

  function JoinPair(high: word, low: word): word {
    0x10000 + ((high & 0x3ff) << 10) + (low & 0x3ff)
  }

  // ----- taking apart and joining are inverse, one character length at a time

  lemma Bits1(c: word)
    requires c < 0x80
    ensures Char(c & 0xff) == c && IsAscii(c)
  {
  }

  /** The two-byte form of NUL. */
  lemma BitsNul()
    ensures !IsAscii(0xc0) && IsLead2(0xc0) && IsTail(0x80) && Join2(0xc0, 0x80) == 0
  {
  }

  lemma Shape2(c: word)
    requires 0x80 <= c < 0x800
    ensures var b0, b1 := Lead2(c), Tail0(c);
            && !IsAscii(b0) && IsLead2(b0) && IsTail(b1)
            && 0xc2 <= b0 <= 0xdf && 0x80 <= b1 <= 0xbf
  {
  }

  lemma Inverse2(c: word)
    requires 0x80 <= c < 0x800
    ensures Join2(Lead2(c), Tail0(c)) == c
  {
  }

  lemma Shape3(c: word)
    requires 0x800 <= c < 0x10000
    ensures var b0, b1, b2 := Lead3(c), Tail6(c), Tail0(c);
            && !IsAscii(b0) && !IsLead2(b0) && IsLead3(b0) && IsTail(b1) && IsTail(b2)
            && 0xe0 <= b0 <= 0xef && 0x80 <= b1 <= 0xbf && 0x80 <= b2 <= 0xbf
            && (b0 == 0xe0 ==> 0xa0 <= b1)
            && (b0 == 0xed ==> (b1 <= 0x9f <==> c < 0xd800 || 0xe000 <= c))
  {
  }

  lemma Inverse3(c: word)
    requires 0x800 <= c < 0x10000
    ensures Join3(Lead3(c), Tail6(c), Tail0(c)) == c
  {
  }

  lemma SurrogateRange(c: word)
    requires c < 0x10000
    ensures IsSurrogate(c) <==> !IsScalar(c)
  {
  }

  lemma Shape4(c: word)
    requires 0x10000 <= c < 0x110000
    ensures var b0, b1, b2, b3 := Lead4(c), Tail12(c), Tail6(c), Tail0(c);
            && !IsAscii(b0) && !IsLead2(b0) && !IsLead3(b0) && IsLead4(b0)
            && IsTail(b1) && IsTail(b2) && IsTail(b3)
  {
  }

  lemma Range4(c: word)
    requires 0x10000 <= c < 0x110000
    ensures var b0, b1, b2, b3 := Lead4(c), Tail12(c), Tail6(c), Tail0(c);
            && 0xf0 <= b0 <= 0xf4 && 0x80 <= b1 <= 0xbf && 0x80 <= b2 <= 0xbf && 0x80 <= b3 <= 0xbf
            && (b0 == 0xf0 ==> 0x90 <= b1) && (b0 == 0xf4 ==> b1 <= 0x8f)
  {
  }

  lemma Inverse4(c: word)
    requires 0x10000 <= c < 0x110000
    ensures Join4(Lead4(c), Tail12(c), Tail6(c), Tail0(c)) == c
  {
  }

  lemma Shape6(c: word)
    requires 0x10000 <= c < 0x110000
    ensures var d := Above(c);
            var b1, b2, b4, b5 := High1(d), High2(d), Low1(d), Tail0(d);
            && !IsAscii(0xed) && !IsLead2(0xed) && IsLead3(0xed)
            && IsTail(b1) && IsTail(b2) && IsSurrogate(Join3(0xed, b1, b2))
            && 0xa0 <= b1 <= 0xaf && 0x80 <= b2 <= 0xbf && 0xb0 <= b4 <= 0xbf && 0x80 <= b5 <= 0xbf
  {
  }

  lemma Inverse6(c: word)
    requires 0x10000 <= c < 0x110000
    ensures var d := Above(c);
            JoinPair(Join3(0xed, High1(d), High2(d)), Join3(0xed, Low1(d), Tail0(d))) == c
  {
  }

  lemma BackShape2(b0: byte, b1: byte)
    requires 0xc2 <= b0 <= 0xdf && 0x80 <= b1 <= 0xbf
    ensures !IsAscii(b0) && IsLead2(b0) && IsTail(b1) && 0x80 <= Join2(b0, b1) < 0x800
  {
  }

  lemma BackInverse2(b0: byte, b1: byte)
    requires 0xc2 <= b0 <= 0xdf && 0x80 <= b1 <= 0xbf
    ensures var c := Join2(b0, b1); Lead2(c) == b0 && Tail0(c) == b1
  {
  }

  lemma BackShape3(b0: byte, b1: byte, b2: byte)
    requires 0xe0 <= b0 <= 0xef && 0x80 <= b1 <= 0xbf && 0x80 <= b2 <= 0xbf
    ensures !IsAscii(b0) && !IsLead2(b0) && IsLead3(b0) && IsTail(b1) && IsTail(b2)
  {
  }

  lemma BackRange3(b0: byte, b1: byte, b2: byte)
    requires 0xe0 <= b0 <= 0xef && 0x80 <= b1 <= 0xbf && 0x80 <= b2 <= 0xbf
    requires b0 == 0xe0 ==> 0xa0 <= b1
    requires b0 == 0xed ==> b1 <= 0x9f
    ensures var c := Join3(b0, b1, b2); 0x800 <= c < 0x10000 && IsScalar(c)
  {
  }

  lemma BackInverse3(b0: byte, b1: byte, b2: byte)
    requires 0xe0 <= b0 <= 0xef && 0x80 <= b1 <= 0xbf && 0x80 <= b2 <= 0xbf
    ensures var c := Join3(b0, b1, b2); Lead3(c) == b0 && Tail6(c) == b1 && Tail0(c) == b2
  {
  }

  lemma BackShape4(b0: byte, b1: byte, b2: byte, b3: byte)
    requires 0xf0 <= b0 <= 0xf4 && 0x80 <= b1 <= 0xbf && 0x80 <= b2 <= 0xbf && 0x80 <= b3 <= 0xbf
    ensures !IsAscii(b0) && !IsLead2(b0) && !IsLead3(b0) && IsLead4(b0)
    ensures IsTail(b1) && IsTail(b2) && IsTail(b3)
  {
  }

  lemma BackRange4(b0: byte, b1: byte, b2: byte, b3: byte)
    requires 0xf0 <= b0 <= 0xf4 && 0x80 <= b1 <= 0xbf && 0x80 <= b2 <= 0xbf && 0x80 <= b3 <= 0xbf
    requires b0 == 0xf0 ==> 0x90 <= b1
    requires b0 == 0xf4 ==> b1 <= 0x8f
    ensures 0x10000 <= Join4(b0, b1, b2, b3) < 0x110000
  {
  }

  lemma BackInverse4(b0: byte, b1: byte, b2: byte, b3: byte)
    requires 0xf0 <= b0 <= 0xf4 && 0x80 <= b1 <= 0xbf && 0x80 <= b2 <= 0xbf && 0x80 <= b3 <= 0xbf
    ensures var c := Join4(b0, b1, b2, b3);
            Lead4(c) == b0 && Tail12(c) == b1 && Tail6(c) == b2 && Tail0(c) == b3
  {
  }

  lemma Back6(b1: byte, b2: byte, b4: byte, b5: byte)
    requires 0xa0 <= b1 <= 0xaf && 0x80 <= b2 <= 0xbf && 0xb0 <= b4 <= 0xbf && 0x80 <= b5 <= 0xbf
    ensures var high, low := Join3(0xed, b1, b2), Join3(0xed, b4, b5);
            var c := JoinPair(high, low);
            var d := Above(c);
            && IsTail(b1) && IsTail(b2) && IsSurrogate(high) && 0x10000 <= c < 0x110000
            && High1(d) == b1 && High2(d) == b2 && Low1(d) == b4 && Tail0(d) == b5
  {
  }

  // ----- code points outside the scalar values

  /** Where the wrap-around of `c - 0x10000` sends a lone surrogate. */
  lemma WrappedSurrogate(c: word)
    requires 0xd800 <= c < 0xe000
    ensures var d, e := Above(c), Above(c + 0x100000);
            && 0x10000 <= c + 0x100000 < 0x110000
            && High1(d) == High1(e) && High2(d) == High2(e) && Low1(d) == Low1(e) && Tail0(d) == Tail0(e)
  {
  }

  // ----- what the bytes mean

  /** The payload bits of the first byte of an n-byte UTF-8 character. */
  function LeadPayload(b: word, n: nat): word {
    if n == 1 then b & 0x7f else if n == 2 then b & 0x1f else if n == 3 then b & 0x0f else b & 0x07
  }

  /** Appends the six payload bits of a continuation byte. */
  function Pack(high: word, b: word): word { (high << 6) | (b & 0x3f) }

  /** The surrogate pair of a code point above 0xFFFF, by section 2.1 of RFC 2781. */
  function HighUnit(c: word): word { 0xd800 + ((c - 0x10000) >> 10) }
  function LowUnit(c: word): word { 0xdc00 + ((c - 0x10000) & 0x3ff) }

  lemma Meaning1(c: word)
    requires c < 0x80
    ensures LeadPayload(c, 1) == c
  {
  }

  lemma Meaning2(c: word)
    requires 0x80 <= c < 0x800
    ensures Pack(LeadPayload(Lead2(c), 2), Tail0(c)) == c
  {
  }

  lemma Meaning3(c: word)
    requires 0x800 <= c < 0x10000
    ensures Pack(Pack(LeadPayload(Lead3(c), 3), Tail6(c)), Tail0(c)) == c
  {
  }

  lemma Meaning4(c: word)
    requires 0x10000 <= c < 0x110000
    ensures Pack(Pack(Pack(LeadPayload(Lead4(c), 4), Tail12(c)), Tail6(c)), Tail0(c)) == c
  {
  }

  lemma UnitRanges(c: word)
    requires 0x10000 <= c < 0x110000
    ensures 0xd800 <= HighUnit(c) < 0xdc00 && 0xdc00 <= LowUnit(c) < 0xe000
  {
  }

  /** The six-byte form is the three-byte form of the high unit followed by that of the low one. */
  lemma HighUnitBytes(c: word)
    requires 0x10000 <= c < 0x110000
    ensures var u, d := HighUnit(c), Above(c);
            Lead3(u) == 0xed && Tail6(u) == High1(d) && Tail0(u) == High2(d)
  {
  }

  lemma LowUnitBytes(c: word)
    requires 0x10000 <= c < 0x110000
    ensures var u, d := LowUnit(c), Above(c);
            Lead3(u) == 0xed && Tail6(u) == Low1(d) && Tail0(u) == Tail0(d)
  {
  }

  // ----- pairs that are not a high and a low surrogate

  /** Whatever is joined, the result is a scalar value outside the basic plane. */
  lemma JoinPairScalar(high: word, low: word)
    ensures 0x10000 <= JoinPair(high, low) < 0x110000
  {
  }

  lemma JoinPairUnits(high: word, low: word)
    requires 0xd800 <= high < 0xdc00 && 0xdc00 <= low < 0xe000
    ensures var c := JoinPair(high, low); HighUnit(c) == high && LowUnit(c) == low
  {
  }

  lemma OtherLeads(b: word)
    requires IsAscii(b) || IsLead2(b)
    ensures !IsLead3(b)
  {
  }

  // ----- the tests and joins on arbitrary bytes

  lemma Patterns(b: byte)
    ensures (IsAscii(b) <==> b <= 0x7f) && (IsTail(b) <==> 0x80 <= b <= 0xbf)
    ensures (IsLead2(b) <==> 0xc0 <= b <= 0xdf) && (IsLead3(b) <==> 0xe0 <= b <= 0xef)
    ensures IsLead4(b) <==> 0xf0 <= b <= 0xf7
  {
  }

  lemma SurrogatePattern(c: word)
    requires c < 0x10000
    ensures IsSurrogate(c) <==> 0xd800 <= c <= 0xdfff
  {
  }

  lemma Joins(b0: byte, b1: byte, b2: byte)
    ensures Join2(b0, b1) == Pack(LeadPayload(b0, 2), b1)
    ensures Join3(b0, b1, b2) == Pack(Pack(LeadPayload(b0, 3), b1), b2) && Join3(b0, b1, b2) < 0x10000
  {
  }

  lemma PackAdds(high: word, b: word)
    ensures Pack(high, b) == (high << 6) + (b & 0x3f)
  {
  }

  lemma ShiftAdds(x: word, y: word)
    ensures (x + y) << 6 == (x << 6) + (y << 6)
  {
  }

  lemma Shifts(x: word)
    ensures (x << 6) << 6 == x << 12 && (x << 12) << 6 == x << 18
  {
  }

  lemma LeadOf4(b: byte)
    requires 0xf0 <= b <= 0xf7
    ensures LeadPayload(b, 4) == b & 0xf
  {
  }

  lemma Joins4(b0: byte, b1: byte, b2: byte, b3: byte)
    requires 0xf0 <= b0 <= 0xf7
    ensures Join4(b0, b1, b2, b3) == Pack(Pack(Pack(LeadPayload(b0, 4), b1), b2), b3)
  {
    hide Pack, LeadPayload;
    var h, t1, t2 := b0 & 0xf, b1 & 0x3f, b2 & 0x3f;
    LeadOf4(b0);
    PackAdds(h, b1);
    PackAdds(Pack(h, b1), b2);
    PackAdds(Pack(Pack(h, b1), b2), b3);
    ShiftAdds(h << 6, t1);
    ShiftAdds((h << 12) + (t1 << 6), t2);
    ShiftAdds(h << 12, t1 << 6);
    Shifts(h);
    Shifts(t1);
  }
}
