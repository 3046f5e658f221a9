/** Base 64 encoding with the standard alphabet and `=` padding, as in
    section 4 of RFC 4648. The decoder is strict: the text must be a whole
    number of four-character groups of alphabet characters, with padding
    only in the last group. Like Python's decoder it does not check that the
    unused bits of a padded group are zero. */
module Base64 {
  import opened Wrappers
  import opened Bytes

  type Sextet = x: int | 0 <= x < 64

  /** The character of a 6-bit value: `A`-`Z`, `a`-`z`, `0`-`9`, `+`, `/`. */
  function CharOf(n: Sextet): char
  {
    if n < 26 then ('A' as int + n) as char
    else if n < 52 then ('a' as int + (n - 26)) as char
    else if n < 62 then ('0' as int + (n - 52)) as char
    else if n == 62 then '+'
    else '/'
  }

  /** The 6-bit value of an alphabet character; None for any other character
      (the pad character `=` included). */
  function SextetOf(c: char): (r: Option<Sextet>)
    ensures r.Some? ==> CharOf(r.value) == c
  {
    if 'A' <= c <= 'Z' then Some(c as int - 'A' as int)
    else if 'a' <= c <= 'z' then Some(c as int - 'a' as int + 26)
    else if '0' <= c <= '9' then Some(c as int - '0' as int + 52)
    else if c == '+' then Some(62)
    else if c == '/' then Some(63)
    else None
  }

  lemma SextetOfCharOf(n: Sextet)
    ensures SextetOf(CharOf(n)) == Some(n)
  {
  }

  /** Four sextets as the 24-bit number they spell. */
  function Quad(a: Sextet, b: Sextet, c: Sextet, d: Sextet): nat
  {
    a * 262144 + b * 4096 + c * 64 + d
  }

  /** Three octets as the 24-bit number they spell, high octet first. */
  function Triple(x: Byte, y: Byte, z: Byte): (n: nat)
    ensures n < 16777216
  {
    x * 65536 + y * 256 + z
  }

  /** The three octets of a 24-bit number, high octet first. */
  function Octets(n: nat): seq<Byte>
    requires n < 16777216
  {
    [n / 65536, (n / 256) % 256, n % 256]
  }

  /** Decodes one group of four characters; `=` is accepted only as the
      last one or two characters, and only when `last` says the group ends
      the text. */
  function DecodeGroup(q: string, last: bool): (r: Option<seq<Byte>>)
    requires |q| == 4
    ensures r.Some? ==> 1 <= |r.value| <= 3
    ensures r.Some? && |r.value| < 3 ==> last && q[3] == '='
  {
    match (SextetOf(q[0]), SextetOf(q[1]), SextetOf(q[2]), SextetOf(q[3]))
    case (Some(a), Some(b), Some(c), Some(d)) => Some(Octets(Quad(a, b, c, d)))
    case (Some(a), Some(b), Some(c), None) =>
      if last && q[3] == '=' then Some(Octets(Quad(a, b, c, 0))[..2]) else None
    case (Some(a), Some(b), None, None) =>
      if last && q[2] == '=' && q[3] == '=' then Some(Octets(Quad(a, b, 0, 0))[..1]) else None
    case _ => None
  }

  /** `base64.b64decode` on canonical input: None for any text that is not
      well-formed base 64. */
  function Decode(s: string): (r: Option<seq<Byte>>)
    ensures r.Some? ==> |s| == 4 * ((|r.value| + 2) / 3)
    decreases |s|
  {
    if |s| == 0 then Some([])
    else if |s| < 4 then None
    else
      match DecodeGroup(s[..4], |s| == 4)
      case None => None
      case Some(head) =>
        match Decode(s[4..])
        case None => None
        case Some(tail) =>
          assert |s| == 4 + |s[4..]|;
          GroupLength(|head|, |tail|, |s| == 4);
          Some(head + tail)
  }

  lemma GroupLength(h: nat, t: nat, last: bool)
    requires 1 <= h <= 3 && (h < 3 ==> last) && (last ==> t == 0)
    ensures 4 + 4 * ((t + 2) / 3) == 4 * ((h + t + 2) / 3)
  {
    if h == 3 {
      DivModUnique(t + 2, 3, (t + 2) / 3, (t + 2) % 3);
      DivModUnique(t + 5, 3, (t + 2) / 3 + 1, (t + 2) % 3);
    } else {
      DivModUnique(h + 2, 3, 1, h - 1);
    }
  }

  /** The encoder: three octets to four characters, the last group padded. */
  function Encode(b: seq<Byte>): (s: string)
    ensures |s| == 4 * ((|b| + 2) / 3)
    decreases |b|
  {
    if |b| == 0 then []
    else if |b| == 1 then
      var n := Triple(b[0], 0, 0);
      DivModUnique(3, 3, 1, 0);
      [CharOf(n / 262144), CharOf((n / 4096) % 64), '=', '=']
    else if |b| == 2 then
      var n := Triple(b[0], b[1], 0);
      DivModUnique(4, 3, 1, 1);
      [CharOf(n / 262144), CharOf((n / 4096) % 64), CharOf((n / 64) % 64), '=']
    else
      GroupLength(3, |b| - 3, false);
      EncodeGroup(b[0], b[1], b[2]) + Encode(b[3..])
  }

  /** Three octets as four characters. */
  function EncodeGroup(x: Byte, y: Byte, z: Byte): (s: string)
    ensures |s| == 4
  {
    var n := Triple(x, y, z);
    [CharOf(n / 262144), CharOf((n / 4096) % 64), CharOf((n / 64) % 64), CharOf(n % 64)]
  }

  /** Encoding works group by group: the first three octets become the
      first four characters. */
  lemma EncodeGroups(b: seq<Byte>)
    requires |b| >= 3
    ensures Encode(b) == Encode(b[..3]) + Encode(b[3..])
  {
    assert Encode(b[..3]) == EncodeGroup(b[0], b[1], b[2]) by {
      var h := b[..3];
      assert h[0] == b[0] && h[1] == b[1] && h[2] == b[2];
      assert h[3..] == [];
      assert Encode(h) == EncodeGroup(b[0], b[1], b[2]) + [];
    }
    assert Encode(b) == EncodeGroup(b[0], b[1], b[2]) + Encode(b[3..]);
  }

  /** Three octets encode to the characters of the four sextets that spell
      their 24-bit number. */
  lemma EncodeTriple(x: Byte, y: Byte, z: Byte, a: Sextet, b: Sextet, c: Sextet, d: Sextet)
    requires Triple(x, y, z) == Quad(a, b, c, d)
    ensures Encode([x, y, z]) == [CharOf(a), CharOf(b), CharOf(c), CharOf(d)]
  {
    var n := Triple(x, y, z);
    DivModUnique(n, 64, a * 4096 + b * 64 + c, d);
    DivModUnique(n / 64, 64, a * 64 + b, c);
    DivModUnique(n / 64 / 64, 64, a, b);
    DivModUnique(n, 4096, a * 64 + b, c * 64 + d);
    DivModUnique(n, 262144, a, b * 4096 + c * 64 + d);
    assert (n / 4096) % 64 == b;
    assert (n / 64) % 64 == c;
    assert [x, y, z][3..] == [];
  }

  /** The sextets of a 24-bit number spell it back. */
  lemma QuadOfSplit(n: nat)
    requires n < 16777216
    ensures Quad(n / 262144, (n / 4096) % 64, (n / 64) % 64, n % 64) == n
  {
    var a := n / 64;
    var b := a / 64;
    var c := b / 64;
    DivModUnique(n, 4096, b, 64 * (a % 64) + n % 64);
    DivModUnique(n, 262144, c, 4096 * (b % 64) + 64 * (a % 64) + n % 64);
  }

  lemma OctetsOfTriple(x: Byte, y: Byte, z: Byte)
    ensures Octets(Triple(x, y, z)) == [x, y, z]
  {
    var n := Triple(x, y, z);
    DivModUnique(n, 65536, x, y * 256 + z);
    DivModUnique(n, 256, x * 256 + y, z);
    DivModUnique(n / 256, 256, x, y);
  }

  /** Division by a positive constant: the quotient and remainder are the
      unique pair that spells the dividend. */
  lemma DivModUnique(n: int, d: int, q: int, r: int)
    requires d > 0 && 0 <= r < d && n == q * d + r
    ensures n / d == q && n % d == r
  {
    var q', r' := n / d, n % d;
    assert q' * d + r' == n;
    if q' > q {
      assert (q' - q) * d == q' * d - q * d;
      MulAtLeast(q' - q, d);
    } else if q' < q {
      assert (q - q') * d == q * d - q' * d;
      MulAtLeast(q - q', d);
    }
  }

  lemma {:induction false} MulAtLeast(a: nat, d: nat)
    requires a >= 1
    ensures a * d >= d
  {
    if a > 1 {
      MulAtLeast(a - 1, d);
      assert a * d == (a - 1) * d + d;
    }
  }

  lemma DecodeGroupOfEncoding(b: seq<Byte>, last: bool)
    requires 1 <= |b| <= 3
    requires |b| < 3 ==> last
    ensures |Encode(b)| == 4
    ensures DecodeGroup(Encode(b), last) == Some(b)
  {
    if |b| == 1 {
      DecodeOneOctet(b[0]);
      assert [b[0]] == b;
    } else if |b| == 2 {
      DecodeTwoOctets(b[0], b[1]);
      assert [b[0], b[1]] == b;
    } else {
      DecodeThreeOctets(b[0], b[1], b[2], last);
      assert [b[0], b[1], b[2]] == b;
    }
  }

  lemma DecodeOneOctet(x: Byte)
    ensures |Encode([x])| == 4
    ensures DecodeGroup(Encode([x]), true) == Some([x])
  {
    var n := Triple(x, 0, 0);
    QuadOfSplit(n);
    SextetOfCharOf(n / 262144);
    SextetOfCharOf((n / 4096) % 64);
    OctetsOfTriple(x, 0, 0);
    DivModUnique(n, 4096, x as int * 16, 0);
    DivModUnique(n / 64, 64, x as int * 16, 0);
    DivModUnique(n, 64, x as int * 1024, 0);
    assert Quad(n / 262144, (n / 4096) % 64, 0, 0) == n;
    var q := Encode([x]);
    assert q == [CharOf(n / 262144), CharOf((n / 4096) % 64), '=', '='];
    assert SextetOf(q[2]).None? && SextetOf(q[3]).None?;
    assert Octets(n)[..1] == [x];
  }

  lemma DecodeTwoOctets(x: Byte, y: Byte)
    ensures |Encode([x, y])| == 4
    ensures DecodeGroup(Encode([x, y]), true) == Some([x, y])
  {
    var n := Triple(x, y, 0);
    QuadOfSplit(n);
    SextetOfCharOf(n / 262144);
    SextetOfCharOf((n / 4096) % 64);
    SextetOfCharOf((n / 64) % 64);
    OctetsOfTriple(x, y, 0);
    DivModUnique(n, 64, x as int * 1024 + y as int * 4, 0);
    assert Quad(n / 262144, (n / 4096) % 64, (n / 64) % 64, 0) == n;
    var q := Encode([x, y]);
    assert q == [CharOf(n / 262144), CharOf((n / 4096) % 64), CharOf((n / 64) % 64), '='];
    assert SextetOf(q[3]).None?;
    assert Octets(n)[..2] == [x, y];
  }

  lemma DecodeThreeOctets(x: Byte, y: Byte, z: Byte, last: bool)
    ensures |Encode([x, y, z])| == 4
    ensures DecodeGroup(Encode([x, y, z]), last) == Some([x, y, z])
  {
    var n := Triple(x, y, z);
    var a, b, c, d := n / 262144, (n / 4096) % 64, (n / 64) % 64, n % 64;
    QuadOfSplit(n);
    EncodeTriple(x, y, z, a, b, c, d);
    var q := Encode([x, y, z]);
    SextetOfCharOf(a);
    SextetOfCharOf(b);
    SextetOfCharOf(c);
    SextetOfCharOf(d);
    assert SextetOf(q[0]) == Some(a) && SextetOf(q[1]) == Some(b);
    assert SextetOf(q[2]) == Some(c) && SextetOf(q[3]) == Some(d);
    OctetsOfTriple(x, y, z);
    assert DecodeGroup(q, last) == Some(Octets(Quad(a, b, c, d)));
  }

  /** Decoding undoes encoding. */
  lemma {:induction false} DecodeEncode(b: seq<Byte>)
    ensures Decode(Encode(b)) == Some(b)
    decreases |b|
  {
    if |b| > 0 {
      var s := Encode(b);
      if |b| <= 3 {
        DecodeGroupOfEncoding(b, true);
        assert s[..4] == s && s[4..] == [];
        assert b + [] == b;
      } else {
        var head := b[..3];
        assert head[3..] == [];
        assert Encode(head) == s[..4];
        DecodeGroupOfEncoding(head, false);
        assert b[3..] == b[3..];
        assert s[4..] == Encode(b[3..]);
        DecodeEncode(b[3..]);
        assert head + b[3..] == b;
      }
    }
  }

  /** Text whose length is not a multiple of four never decodes. */
  lemma {:induction false} DecodeRejectsLength(s: string)
    requires |s| % 4 != 0
    ensures Decode(s) == None
    decreases |s|
  {
    if |s| >= 4 {
      DecodeRejectsLength(s[4..]);
    }
  }
}
