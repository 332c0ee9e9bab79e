/** The stream-driven code of native/common/jp_encoding.cpp: the fetch and encode methods of the
    two encodings and the transcribe loop with its ASCII shortcut. */
module Transcriber {
  import opened CodeBits
  import opened Encoding
  import opened Transcoding

  /** std::istream over a byte buffer: reading past the end sets the eof flag. */
  class InStream {
    const data: seq<byte>
    var pos: nat
    var eof: bool

    ghost predicate Valid()
      reads this
    {
      pos <= |data| && (eof ==> pos == |data|)
    }

    ghost function Rest(): seq<byte>
      requires Valid()
      reads this
    {
      data[pos..]
    }

    constructor (data: seq<byte>)
      ensures Valid() && this.data == data && Rest() == data && !eof
    {
      this.data, pos, eof := data, 0, false;
    }

    method Get() returns (c: word)
      requires Valid()
      modifies this
      ensures Valid()
      ensures if old(Rest()) == [] then c == BAD && eof && pos == old(pos)
              else c == old(Rest()[0]) && pos == old(pos) + 1 && eof == old(eof)
    {
      if pos == |data| {
        eof := true;
        return BAD;
      }
      c := data[pos];
      pos := pos + 1;
    }

    method Peek() returns (c: word)
      requires Valid()
      modifies this
      ensures Valid() && pos == old(pos)
      ensures if Rest() == [] then c == BAD && eof else c == Rest()[0] && eof == old(eof)
    {
      if pos == |data| {
        eof := true;
        return BAD;
      }
      c := data[pos];
    }
  }

  class OutStream {
    var data: seq<byte>

    constructor ()
      ensures data == []
    {
      data := [];
    }

    method Put(b: byte)
      modifies this
      ensures data == old(data) + [b]
    {
      data := data + [b];
    }
  }

  /** What a fetch method promises: it behaves on the stream as the function does on the bytes. */
  twostate predicate Fetches(e: Encoding, stream: InStream, code: word)
    reads stream
  {
    && old(stream.Valid()) && stream.Valid()
    && var f := Fetch(e, old(stream.Rest()));
       code == f.code && stream.pos == old(stream.pos) + f.used && stream.eof == f.eof
  }

  method FetchFromUtf8(stream: InStream) returns (code: word)
    requires stream.Valid()
    modifies stream
    ensures Fetches(Utf8, stream, code)
  {
    hide IsAscii, IsLead2, IsLead3, IsLead4, IsTail, Join2, Join3, Join4;
    ghost var s := stream.Rest();
    var c0 := stream.Get();
    if stream.eof { return BAD; }
    if IsAscii(c0) { return c0; }
    var c1 := stream.Get();
    if stream.eof { return BAD; }
    if IsLead2(c0) {
      if IsTail(c1) { return Join2(c0, c1); }
      return BAD;
    }
    var c2 := stream.Get();
    if stream.eof { return BAD; }
    if IsLead3(c0) {
      if IsTail(c1) && IsTail(c2) { return Join3(c0, c1, c2); }
      return BAD;
    }
    var c3 := stream.Get();
    if stream.eof { return BAD; }
    if IsLead4(c0) {
      if IsTail(c1) && IsTail(c2) && IsTail(c3) { return Join4(c0, c1, c2, c3); }
      return BAD;
    }
    return BAD;
  }

  method FetchFromJava(stream: InStream) returns (code: word)
    requires stream.Valid()
    modifies stream
    ensures Fetches(JavaUtf8, stream, code)
  {
    hide IsAscii, IsLead2, IsLead3, IsTail, IsSurrogate, Join2, Join3, JoinPair;
    ghost var s := stream.Rest();
    var c0 := stream.Get();
    if stream.eof { return BAD; }
    if IsAscii(c0) { return c0; }
    var c1 := stream.Get();
    if stream.eof { return BAD; }
    if IsLead2(c0) {
      if IsTail(c1) { return Join2(c0, c1); }
      return BAD;
    }
    var c2 := stream.Get();
    if stream.eof { return BAD; }
    if !(IsLead3(c0) && IsTail(c1) && IsTail(c2)) { return BAD; }
    var out := Join3(c0, c1, c2);
    if !IsSurrogate(out) { return out; }
    ghost var t := s[3..];
    var next := stream.Peek();
    if next == BAD || !IsLead3(next) { return out; }
    c0 := stream.Get();
    c1 := stream.Get();
    c2 := stream.Get();
    next := Join3(c0, c1, c2);
    if stream.eof { return BAD; }
    return JoinPair(out, next);
  }

  method EncodeToUtf8(out: OutStream, c: word)
    modifies out
    ensures out.data == old(out.data) + Encode(Utf8, c)
  {
    hide Char, Lead2, Lead3, Lead4, Tail0, Tail6, Tail12;
    if c < 0x80 {
      out.Put(Char(c & 0xff));
    } else if c < 0x800 {
      out.Put(Lead2(c));
      out.Put(Tail0(c));
    } else if c < 0x10000 {
      out.Put(Lead3(c));
      out.Put(Tail6(c));
      out.Put(Tail0(c));
    } else if c < 0x110000 {
      out.Put(Lead4(c));
      out.Put(Tail12(c));
      out.Put(Tail6(c));
      out.Put(Tail0(c));
    }
  }

  method EncodeToJava(out: OutStream, c: word)
    modifies out
    ensures out.data == old(out.data) + Encode(JavaUtf8, c)
  {
    hide Char, Lead2, Lead3, Tail0, Tail6, High1, High2, Low1, Above;
    if c == 0 {
      out.Put(0xc0);
      out.Put(0x80);
    } else if c < 0x80 {
      out.Put(Char(c & 0xff));
    } else if c < 0x800 {
      out.Put(Lead2(c));
      out.Put(Tail0(c));
    } else if c < 0xd800 || 0xe000 <= c < 0x10000 {
      out.Put(Lead3(c));
      out.Put(Tail6(c));
      out.Put(Tail0(c));
    } else if c < 0x110000 {
      EncodeSixTo(out, Above(c));
    }
  }

  method EncodeSixTo(out: OutStream, d: word)
    modifies out
    ensures out.data == old(out.data) + EncodeSix(d)
  {
    hide Char, Tail0, High1, High2, Low1;
    out.Put(0xed);
    out.Put(High1(d));
    out.Put(High2(d));
    out.Put(0xed);
    out.Put(Low1(d));
    out.Put(Tail0(d));
  }

  method EncodeTo(e: Encoding, out: OutStream, c: word)
    modifies out
    ensures out.data == old(out.data) + Encode(e, c)
  {
    if e.Utf8? { EncodeToUtf8(out, c); } else { EncodeToJava(out, c); }
  }

  method FetchFrom(e: Encoding, stream: InStream) returns (code: word)
    requires stream.Valid()
    modifies stream
    ensures Fetches(e, stream, code)
    ensures stream.Rest() == old(stream.Rest())[Fetch(e, old(stream.Rest())).used..]
  {
    if e.Utf8? { code := FetchFromUtf8(stream); } else { code := FetchFromJava(stream); }
  }

  method AcceptsBypass(bytes: seq<byte>) returns (ascii: bool)
    ensures ascii <==> Bypassed(bytes)
  {
    for i := 0 to |bytes|
      invariant Bypassed(bytes[..i])
    {
      if bytes[i] & 0x80 != 0 || bytes[i] == 0 { return false; }
    }
    assert bytes[..|bytes|] == bytes;
    return true;
  }

  /** Always terminates, shortcut or not, with the encodings of the code points fetched before the
      first failing fetch. */
  method Transcribe(bytes: seq<byte>, source: Encoding, target: Encoding) returns (result: seq<byte>)
    ensures result == Transcode(source, target, bytes)
  {
    var ascii := AcceptsBypass(bytes);
    if ascii {
      BypassIsLoop(source, target, bytes);
      return bytes;
    }
    result := TranscribeStream(bytes, source, target);
  }

  method TranscribeStream(bytes: seq<byte>, source: Encoding, target: Encoding) returns (result: seq<byte>)
    ensures result == Transcode(source, target, bytes)
  {
    hide Fetch, Encode, Transcode;
    var input := new InStream(bytes);
    var out := new OutStream();
    ghost var rest := bytes;
    while !input.eof
      invariant input.Valid() && input.Rest() == rest
      invariant out.data + Transcode(source, target, rest) == Transcode(source, target, bytes)
      decreases |rest|, !input.eof
    {
      TranscodeStep(source, target, rest);
      var coding := FetchFrom(source, input);
      if coding == BAD {
        if input.eof { break; }
        return out.data;
      }
      ghost var next := rest[Fetch(source, rest).used..];
      Associative(out.data, Encode(target, coding), Transcode(source, target, next));
      EncodeTo(target, out, coding);
      rest := next;
    }
    TranscodeStep(source, target, rest);
    return out.data;
  }

  lemma Associative<T>(a: seq<T>, b: seq<T>, c: seq<T>)
    ensures a + b + c == a + (b + c)
  {
  }

  lemma TranscodeStep(source: Encoding, target: Encoding, s: seq<byte>)
    ensures var f := Fetch(source, s);
            Transcode(source, target, s) ==
            if f.code == BAD then [] else Encode(target, f.code) + Transcode(source, target, s[f.used..])
  {
    hide Fetch, Encode;
    var f := Fetch(source, s);
    if f.code != BAD {
      assert ([f.code] + FetchAll(source, s[f.used..]))[1..] == FetchAll(source, s[f.used..]);
    }
  }
}
