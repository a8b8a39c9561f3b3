/** Bytes and the UTF-8 encoding `str.encode()` applies (RFC 3629,
    section 3), with the decoder that undoes it. */
module Utf8 {
  import opened Wrappers

  newtype byte = x: int | 0 <= x < 256

  type bytes = seq<byte>

  predicate IsContinuation(b: byte) {
    0x80 <= b < 0xC0
  }

  /** The one to four bytes of one code point. */
  function EncodeChar(c: char): (r: bytes)
    ensures 1 <= |r| <= 4
    ensures (c as int < 0x80) <==> |r| == 1
    ensures |r| == 1 ==> r[0] as int == c as int
    ensures forall i :: 1 <= i < |r| ==> IsContinuation(r[i])
  {
    var k := c as int;
    var q1 := k / 64;
    var q2 := q1 / 64;
    if k < 0x80 then [k as byte]
    else if k < 0x800 then [(0xC0 + q1) as byte, (0x80 + k % 64) as byte]
    else if k < 0x10000 then [(0xE0 + q2) as byte, (0x80 + q1 % 64) as byte, (0x80 + k % 64) as byte]
    else [(0xF0 + q2 / 64) as byte, (0x80 + q2 % 64) as byte, (0x80 + q1 % 64) as byte, (0x80 + k % 64) as byte]
  }

  /** The encoding of a string: its characters' encodings in order. */
  function Encode(s: string): (r: bytes)
    ensures |r| >= |s|
    decreases |s|
  {
    if s == [] then [] else Encode(s[..|s| - 1]) + EncodeChar(s[|s| - 1])
  }

  /** Encoding distributes over concatenation, so a text built piece by
      piece and encoded piece by piece gives the same bytes. */
  lemma {:induction false} EncodeAppend(a: string, b: string)
    ensures Encode(a + b) == Encode(a) + Encode(b)
    decreases |b|
  {
    if b == [] {
      assert a + b == a;
    } else {
      var b' := b[..|b| - 1];
      assert (a + b)[..|a + b| - 1] == a + b';
      assert (a + b)[|a + b| - 1] == b[|b| - 1];
      EncodeAppend(a, b');
    }
  }

  /** ASCII text is encoded one byte per character, each byte the
      character's code. */
  lemma {:induction false} EncodeAscii(s: string)
    requires forall i :: 0 <= i < |s| ==> s[i] as int < 0x80
    ensures |Encode(s)| == |s|
    ensures forall i :: 0 <= i < |s| ==> Encode(s)[i] as int == s[i] as int
    decreases |s|
  {
    if s != [] {
      EncodeAscii(s[..|s| - 1]);
    }
  }

  predicate IsScalar(k: int) {
    (0 <= k < 0xD800) || (0xE000 <= k < 0x110000)
  }

  /** Reads one code point from the front of `bs`: the character and the
      number of bytes it takes, or None when the bytes are not UTF-8. */
  function DecodeFirst(bs: bytes): (r: Option<(char, nat)>)
    requires |bs| > 0
    ensures r.Some? ==> 1 <= r.value.1 <= |bs| && r.value.1 <= 4
  {
    var b0 := bs[0] as int;
    if b0 < 0x80 then Some((b0 as char, 1))
    else if 0xC0 <= b0 < 0xE0 && |bs| >= 2 && IsContinuation(bs[1]) then
      var k := (b0 - 0xC0) * 64 + (bs[1] as int - 0x80);
      if 0x80 <= k then Some((k as char, 2)) else None
    else if 0xE0 <= b0 < 0xF0 && |bs| >= 3 && IsContinuation(bs[1]) && IsContinuation(bs[2]) then
      var k := (b0 - 0xE0) * 4096 + (bs[1] as int - 0x80) * 64 + (bs[2] as int - 0x80);
      if 0x800 <= k && IsScalar(k) then Some((k as char, 3)) else None
    else if 0xF0 <= b0 < 0xF8 && |bs| >= 4 && IsContinuation(bs[1]) && IsContinuation(bs[2])
            && IsContinuation(bs[3]) then
      var k := (b0 - 0xF0) * 262144 + (bs[1] as int - 0x80) * 4096 + (bs[2] as int - 0x80) * 64
               + (bs[3] as int - 0x80);
      if 0x10000 <= k && IsScalar(k) then Some((k as char, 4)) else None
    else None
  }

  /** Decodes a whole byte string, or None when it is not UTF-8. */
  function Decode(bs: bytes): Option<string>
    decreases |bs|
  {
    if bs == [] then Some([])
    else match DecodeFirst(bs)
      case None => None
      case Some((c, n)) =>
        match Decode(bs[n..])
        case None => None
        case Some(rest) => Some([c] + rest)
  }

  lemma DecodeFirstOfTwo(c: char, rest: bytes)
    requires 0x80 <= c as int < 0x800
    ensures DecodeFirst(EncodeChar(c) + rest) == Some((c, 2))
  {
    var k := c as int;
    var q1, r1 := k / 64, k % 64;
    assert q1 * 64 + r1 == k;
    var bs := EncodeChar(c) + rest;
    assert bs[0] as int - 0xC0 == q1 && bs[1] as int - 0x80 == r1;
  }

  lemma DecodeFirstOfThree(c: char, rest: bytes)
    requires 0x800 <= c as int < 0x10000
    ensures DecodeFirst(EncodeChar(c) + rest) == Some((c, 3))
  {
    var k := c as int;
    var q1, r1 := k / 64, k % 64;
    var q2, r2 := q1 / 64, q1 % 64;
    assert q1 * 64 + r1 == k;
    assert q2 * 64 + r2 == q1;
    var bs := EncodeChar(c) + rest;
    assert bs[0] as int - 0xE0 == q2 && bs[1] as int - 0x80 == r2 && bs[2] as int - 0x80 == r1;
  }

  lemma DecodeFirstOfFour(c: char, rest: bytes)
    requires 0x10000 <= c as int
    ensures DecodeFirst(EncodeChar(c) + rest) == Some((c, 4))
  {
    var k := c as int;
    var q1, r1 := k / 64, k % 64;
    var q2, r2 := q1 / 64, q1 % 64;
    var q3, r3 := q2 / 64, q2 % 64;
    assert q1 * 64 + r1 == k;
    assert q2 * 64 + r2 == q1;
    assert q3 * 64 + r3 == q2;
    var bs := EncodeChar(c) + rest;
    assert bs[0] as int - 0xF0 == q3 && bs[1] as int - 0x80 == r3 && bs[2] as int - 0x80 == r2
      && bs[3] as int - 0x80 == r1;
  }

  /** The first code point read back from an encoded character is that
      character, and it used exactly the encoded bytes. */
  lemma DecodeFirstOfEncodeChar(c: char, rest: bytes)
    ensures DecodeFirst(EncodeChar(c) + rest) == Some((c, |EncodeChar(c)|))
  {
    var k := c as int;
    if k < 0x80 {
      assert (EncodeChar(c) + rest)[0] as int == k;
    } else if k < 0x800 {
      DecodeFirstOfTwo(c, rest);
    } else if k < 0x10000 {
      DecodeFirstOfThree(c, rest);
    } else {
      DecodeFirstOfFour(c, rest);
    }
  }

  /** Decoding an encoded string gives the string back. */
  lemma DecodeEncode(s: string)
    ensures Decode(Encode(s)) == Some(s)
  {
    DecodeEncodeFrom(s, []);
    assert Encode(s) + [] == Encode(s);
    assert s + [] == s;
  }

  lemma EncodeCons(c: char, s: string)
    ensures Encode([c] + s) == EncodeChar(c) + Encode(s)
  {
    EncodeAppend([c], s);
    assert [c][..0] == [];
  }

  /** `s` in front of a decoded text, or None when decoding failed. */
  function Before(s: string, o: Option<string>): Option<string> {
    if o.Some? then Some(s + o.value) else None
  }

  /** One step of the decoder over an encoded character. */
  lemma DecodeCons(c: char, tail: bytes)
    ensures Decode(EncodeChar(c) + tail) == Before([c], Decode(tail))
  {
    var e := EncodeChar(c);
    DecodeFirstOfEncodeChar(c, tail);
    assert (e + tail)[|e|..] == tail;
  }

  /** The encoding of a non-empty text followed by more bytes, split
      after its first character. */
  lemma EncodeSplitFirst(s: string, rest: bytes)
    requires s != []
    ensures s == [s[0]] + s[1..]
    ensures Encode(s) + rest == EncodeChar(s[0]) + (Encode(s[1..]) + rest)
  {
    assert s == [s[0]] + s[1..];
    EncodeCons(s[0], s[1..]);
    Assoc(EncodeChar(s[0]), Encode(s[1..]), rest);
  }

  lemma Assoc<T>(a: seq<T>, b: seq<T>, c: seq<T>)
    ensures (a + b) + c == a + (b + c)
  {
  }

  lemma BeforeBefore(a: string, b: string, o: Option<string>)
    ensures Before(a, Before(b, o)) == Before(a + b, o)
  {
    if o.Some? {
      assert a + (b + o.value) == (a + b) + o.value;
    }
  }

  /** Decoding the encoding of `s` followed by more bytes reads `s` first. */
  lemma {:induction false} DecodeEncodeFrom(s: string, rest: bytes)
    ensures Decode(Encode(s) + rest) == Before(s, Decode(rest))
    decreases |s|
  {
    if s == [] {
      assert Encode(s) + rest == rest;
      if Decode(rest).Some? {
        assert s + Decode(rest).value == Decode(rest).value;
      }
    } else {
      EncodeSplitFirst(s, rest);
      DecodeCons(s[0], Encode(s[1..]) + rest);
      DecodeEncodeFrom(s[1..], rest);
      BeforeBefore([s[0]], s[1..], Decode(rest));
    }
  }
}
