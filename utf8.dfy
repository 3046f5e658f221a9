/** UTF-8 as defined by RFC 3629: every Unicode scalar value (the code points
    other than the surrogates, up to U+10FFFF) is one to four octets. The
    decoder is strict, as Python's `bytes.decode('utf-8')` is: overlong forms,
    surrogates, values above U+10FFFF, stray continuation octets and truncated
    sequences are all rejected. */
module Utf8 {
  import opened Wrappers
  import opened Bytes

  /** A continuation octet `10xxxxxx`. */
  predicate IsTail(b: Byte)
  {
    0x80 <= b <= 0xBF
  }

  /** Decodes the scalar value that starts `b`, with the number of octets it
      takes; None when `b` does not start with a well-formed sequence (the
      table in section 4 of RFC 3629). */
  function DecodeScalar(b: seq<Byte>): (r: Option<(char, nat)>)
    requires |b| > 0
    ensures r.Some? ==> 1 <= r.value.1 <= |b| && r.value.1 <= 4
  {
    var b0: int := b[0];
    if b0 <= 0x7F then Some((b0 as char, 1))
    else if 0xC2 <= b0 <= 0xDF then
      if |b| >= 2 && IsTail(b[1])
      then Some((Scalar2(b0, b[1]) as char, 2))
      else None
    else if 0xE0 <= b0 <= 0xEF then
      var lo := if b0 == 0xE0 then 0xA0 else 0x80;
      var hi := if b0 == 0xED then 0x9F else 0xBF;
      if |b| >= 3 && lo <= b[1] <= hi && IsTail(b[2])
      then Some((Scalar3(b0, b[1], b[2]) as char, 3))
      else None
    else if 0xF0 <= b0 <= 0xF4 then
      var lo := if b0 == 0xF0 then 0x90 else 0x80;
      var hi := if b0 == 0xF4 then 0x8F else 0xBF;
      if |b| >= 4 && lo <= b[1] <= hi && IsTail(b[2]) && IsTail(b[3])
      then Some((Scalar4(b0, b[1], b[2], b[3]) as char, 4))
      else None
    else None
  }

  /** The code point carried by a two-, three- or four-octet sequence: the
      low bits of the lead octet followed by six bits per continuation. */
  function Scalar2(b0: int, b1: int): int
  {
    (b0 - 0xC0) * 64 + (b1 - 0x80)
  }

  function Scalar3(b0: int, b1: int, b2: int): int
  {
    (b0 - 0xE0) * 4096 + (b1 - 0x80) * 64 + (b2 - 0x80)
  }

  function Scalar4(b0: int, b1: int, b2: int, b3: int): int
  {
    (b0 - 0xF0) * 262144 + (b1 - 0x80) * 4096 + (b2 - 0x80) * 64 + (b3 - 0x80)
  }

  /** The octets of one scalar value, in the shortest form. */
  function EncodeScalar(c: char): (r: seq<Byte>)
    ensures 1 <= |r| <= 4
  {
    var n := c as int;
    if n < 0x80 then [n]
    else if n < 0x800 then [0xC0 + n / 64, 0x80 + n % 64]
    else if n < 0x10000 then [0xE0 + n / 4096, 0x80 + (n / 64) % 64, 0x80 + n % 64]
    else [0xF0 + n / 262144, 0x80 + (n / 4096) % 64, 0x80 + (n / 64) % 64, 0x80 + n % 64]
  }

  /** `bytes.decode('utf-8')`: the text, or None when decoding fails. */
  function Decode(b: seq<Byte>): Option<string>
    decreases |b|
  {
    if b == [] then Some([])
    else match DecodeScalar(b)
      case None => None
      case Some((c, n)) =>
        match Decode(b[n..])
        case None => None
        case Some(s) => Some([c] + s)
  }

  /** `str.encode('utf-8')`. */
  function Encode(s: string): seq<Byte>
  {
    if s == [] then [] else EncodeScalar(s[0]) + Encode(s[1..])
  }

  /** ASCII text encodes to its character codes, one octet each. */
  lemma {:induction false} EncodeAscii(s: string)
    requires forall i :: 0 <= i < |s| ==> s[i] as int < 0x80
    ensures |Encode(s)| == |s|
    ensures forall i :: 0 <= i < |s| ==> Encode(s)[i] == s[i] as int
  {
    if s != [] {
      EncodeAscii(s[1..]);
      assert Encode(s) == [s[0] as int] + Encode(s[1..]);
    }
  }

  /** Decoding the encoding of a scalar value gives it back, whatever follows. */
  lemma DecodeEncodeScalar(c: char, rest: seq<Byte>)
    ensures DecodeScalar(EncodeScalar(c) + rest) == Some((c, |EncodeScalar(c)|))
  {
    var n := c as int;
    if n < 0x80 {
    } else if n < 0x800 {
      DecodeEncodeTwo(c, rest);
    } else if n < 0x10000 {
      DecodeEncodeThree(c, rest);
    } else {
      DecodeEncodeFour(c, rest);
    }
  }

  lemma DecodeEncodeTwo(c: char, rest: seq<Byte>)
    requires 0x80 <= c as int < 0x800
    ensures DecodeScalar(EncodeScalar(c) + rest) == Some((c, 2))
  {
    var n := c as int;
    var b := EncodeScalar(c) + rest;
    assert b[0] == 0xC0 + n / 64 && b[1] == 0x80 + n % 64;
    assert Scalar2(b[0], b[1]) == n;
  }

  lemma DecodeEncodeThree(c: char, rest: seq<Byte>)
    requires 0x800 <= c as int < 0x10000
    ensures DecodeScalar(EncodeScalar(c) + rest) == Some((c, 3))
  {
    var n := c as int;
    var b := EncodeScalar(c) + rest;
    assert b[0] == 0xE0 + n / 4096 && b[1] == 0x80 + (n / 64) % 64 && b[2] == 0x80 + n % 64;
    SplitThree(n);
    assert Scalar3(b[0], b[1], b[2]) == n;
  }

  lemma DecodeEncodeFour(c: char, rest: seq<Byte>)
    requires 0x10000 <= c as int
    ensures DecodeScalar(EncodeScalar(c) + rest) == Some((c, 4))
  {
    var n := c as int;
    var b := EncodeScalar(c) + rest;
    assert b[0] == 0xF0 + n / 262144 && b[1] == 0x80 + (n / 4096) % 64;
    assert b[2] == 0x80 + (n / 64) % 64 && b[3] == 0x80 + n % 64;
    SplitFour(n);
    assert Scalar4(b[0], b[1], b[2], b[3]) == n;
  }

  lemma SplitThree(n: int)
    requires 0x800 <= n < 0x10000
    requires n < 0xD800 || 0xE000 <= n
    ensures (n / 4096) * 4096 + ((n / 64) % 64) * 64 + n % 64 == n
    ensures n / 4096 == 0 ==> (n / 64) % 64 >= 0x20
    ensures n / 4096 == 0xD ==> (n / 64) % 64 < 0x20
  {
  }

  lemma SplitFour(n: int)
    requires 0x10000 <= n < 0x110000
    ensures (n / 262144) * 262144 + ((n / 4096) % 64) * 4096 + ((n / 64) % 64) * 64 + n % 64 == n
    ensures n / 262144 <= 4
    ensures n / 262144 == 0 ==> (n / 4096) % 64 >= 0x10
    ensures n / 262144 == 4 ==> (n / 4096) % 64 < 0x10
  {
  }

  /** A decoded scalar value re-encodes to exactly the octets it came from:
      every accepted sequence is the shortest form. */
  lemma EncodeDecodeScalar(b: seq<Byte>)
    requires |b| > 0 && DecodeScalar(b).Some?
    ensures EncodeScalar(DecodeScalar(b).value.0) == b[..DecodeScalar(b).value.1]
  {
    var (c, k) := DecodeScalar(b).value;
    if k == 2 {
      Reencode2(b[0], b[1]);
    } else if k == 3 {
      Reencode3(b[0], b[1], b[2]);
    } else if k == 4 {
      Reencode4(b[0], b[1], b[2], b[3]);
    }
  }

  lemma Reencode2(b0: Byte, b1: Byte)
    requires 0xC2 <= b0 <= 0xDF && IsTail(b1)
    ensures var n := Scalar2(b0, b1);
      0x80 <= n < 0x800 && 0xC0 + n / 64 == b0 && 0x80 + n % 64 == b1
  {
    var n := Scalar2(b0, b1);
    DivMod64(n, b0 - 0xC0, b1 - 0x80);
  }

  lemma Reencode3(b0: Byte, b1: Byte, b2: Byte)
    requires 0xE0 <= b0 <= 0xEF && IsTail(b1) && IsTail(b2)
    requires b0 == 0xE0 ==> b1 >= 0xA0
    ensures var n := Scalar3(b0, b1, b2);
      0x800 <= n < 0x10000 && 0xE0 + n / 4096 == b0 && 0x80 + (n / 64) % 64 == b1 && 0x80 + n % 64 == b2
  {
    var n := Scalar3(b0, b1, b2);
    DivMod64(n, (b0 - 0xE0) * 64 + (b1 - 0x80), b2 - 0x80);
    DivMod64(n / 64, b0 - 0xE0, b1 - 0x80);
  }

  lemma Reencode4(b0: Byte, b1: Byte, b2: Byte, b3: Byte)
    requires 0xF0 <= b0 <= 0xF4 && IsTail(b1) && IsTail(b2) && IsTail(b3)
    requires b0 == 0xF0 ==> b1 >= 0x90
    requires b0 == 0xF4 ==> b1 <= 0x8F
    ensures var n := Scalar4(b0, b1, b2, b3);
      0x10000 <= n < 0x110000 && 0xF0 + n / 262144 == b0 && 0x80 + (n / 4096) % 64 == b1
      && 0x80 + (n / 64) % 64 == b2 && 0x80 + n % 64 == b3
  {
    var n := Scalar4(b0, b1, b2, b3);
    DivMod64(n, ((b0 - 0xF0) * 64 + (b1 - 0x80)) * 64 + (b2 - 0x80), b3 - 0x80);
    DivMod64(n / 64, (b0 - 0xF0) * 64 + (b1 - 0x80), b2 - 0x80);
    DivMod64(n / 64 / 64, b0 - 0xF0, b1 - 0x80);
    assert n / 4096 == n / 64 / 64;
    assert n / 262144 == n / 64 / 64 / 64;
  }

  /** Division by 64 of a number spelt as `q * 64 + r`. */
  lemma DivMod64(n: int, q: int, r: int)
    requires 0 <= r < 64 && n == q * 64 + r
    ensures n / 64 == q && n % 64 == r
  {
  }

  /** Decoding undoes encoding. */
  lemma {:induction false} DecodeEncode(s: string)
    ensures Decode(Encode(s)) == Some(s)
  {
    if s != [] {
      var e := EncodeScalar(s[0]);
      DecodeEncodeScalar(s[0], Encode(s[1..]));
      assert (e + Encode(s[1..]))[|e|..] == Encode(s[1..]);
      DecodeEncode(s[1..]);
      assert [s[0]] + s[1..] == s;
    }
  }

  /** Encoding undoes decoding: a decoded text re-encodes to the very octets,
      so `Decode` is exactly the inverse of `Encode`. */
  lemma {:induction false} EncodeDecode(b: seq<Byte>)
    requires Decode(b).Some?
    ensures Encode(Decode(b).value) == b
    decreases |b|
  {
    if b != [] {
      var (c, n) := DecodeScalar(b).value;
      var s := Decode(b[n..]).value;
      assert Decode(b).value == [c] + s;
      EncodeDecodeScalar(b);
      EncodeDecode(b[n..]);
      assert ([c] + s)[0] == c && ([c] + s)[1..] == s;
      assert Encode([c] + s) == EncodeScalar(c) + Encode(s);
      assert b[..n] + b[n..] == b;
    }
  }
}
