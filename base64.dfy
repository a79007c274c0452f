/**
 `Base64.strict_encode64`: the encoding of section 4 of RFC 4648 (alphabet
 A-Z a-z 0-9 + /, '=' padding, no line breaks). `StrictDecode64` is
 `Base64.strict_decode64`, which rejects anything `strict_encode64` cannot
 produce (a wrong length, a foreign character, misplaced padding, non-zero
 padding bits); the two lemmas at the end show each undoes the other.
 */
module Base64 {
  import opened Objects

  predicate IsBase64Char(c: char) {
    'A' <= c <= 'Z' || 'a' <= c <= 'z' || '0' <= c <= '9' || c == '+' || c == '/'
  }

  /** The alphabet character for a 6-bit value. */
  function SextetChar(v: int): (c: char)
    requires 0 <= v < 64
    ensures IsBase64Char(c)
  {
    if v < 26 then ('A' as int + v) as char
    else if v < 52 then ('a' as int + v - 26) as char
    else if v < 62 then ('0' as int + v - 52) as char
    else if v == 62 then '+'
    else '/'
  }

  /** The 6-bit value of an alphabet character. */
  function SextetValue(c: char): (v: int)
    requires IsBase64Char(c)
    ensures 0 <= v < 64 && SextetChar(v) == c
  {
    if 'A' <= c <= 'Z' then c as int - 'A' as int
    else if 'a' <= c <= 'z' then c as int - 'a' as int + 26
    else if '0' <= c <= '9' then c as int - '0' as int + 52
    else if c == '+' then 62
    else 63
  }

  lemma SextetRoundTrip(v: int)
    requires 0 <= v < 64
    ensures SextetValue(SextetChar(v)) == v
  {
  }

  /** Three bytes as four characters. */
  function Quad(b0: byte, b1: byte, b2: byte): string {
    [SextetChar(b0 / 4), SextetChar(b0 % 4 * 16 + b1 / 16), SextetChar(b1 % 16 * 4 + b2 / 64), SextetChar(b2 % 64)]
  }

  /** `Base64.strict_encode64(b)` */
  function StrictEncode64(b: seq<byte>): (r: string)
    ensures |r| == 4 * ((|b| + 2) / 3)
    ensures forall i :: 0 <= i < |r| ==> IsBase64Char(r[i]) || r[i] == '='
    decreases |b|
  {
    if |b| == 0 then []
    else if |b| == 1 then [SextetChar(b[0] / 4), SextetChar(b[0] % 4 * 16), '=', '=']
    else if |b| == 2 then [SextetChar(b[0] / 4), SextetChar(b[0] % 4 * 16 + b[1] / 16), SextetChar(b[1] % 16 * 4), '=']
    else
      GroupCount(|b|);
      Quad(b[0], b[1], b[2]) + StrictEncode64(b[3..])
  }

  lemma GroupCount(n: int)
    requires n >= 3
    ensures (n - 3 + 2) / 3 + 1 == (n + 2) / 3
  {
  }

  /** A group of four alphabet characters, which carries three bytes. */
  function DecodeQuad(c0: char, c1: char, c2: char, c3: char): Option<seq<byte>> {
    if IsBase64Char(c0) && IsBase64Char(c1) && IsBase64Char(c2) && IsBase64Char(c3) then
      var v0, v1, v2, v3 := SextetValue(c0), SextetValue(c1), SextetValue(c2), SextetValue(c3);
      Some([v0 * 4 + v1 / 16, v1 % 16 * 16 + v2 / 4, v2 % 4 * 64 + v3])
    else None
  }

  /** The last group, which may end in "==" (one byte) or "=" (two bytes);
      the bits the padding leaves unused must be zero. */
  function DecodeLast(c0: char, c1: char, c2: char, c3: char): Option<seq<byte>> {
    if !IsBase64Char(c0) || !IsBase64Char(c1) then None
    else
      var v0, v1 := SextetValue(c0), SextetValue(c1);
      if c2 == '=' then
        if c3 == '=' && v1 % 16 == 0 then Some([v0 * 4 + v1 / 16]) else None
      else if !IsBase64Char(c2) then None
      else if c3 == '=' then
        var v2 := SextetValue(c2);
        if v2 % 4 == 0 then Some([v0 * 4 + v1 / 16, v1 % 16 * 16 + v2 / 4]) else None
      else DecodeQuad(c0, c1, c2, c3)
  }

  /** `Base64.strict_decode64(s)`, None where Ruby raises ArgumentError. */
  function StrictDecode64(s: string): Option<seq<byte>>
    decreases |s|
  {
    if |s| == 0 then Some([])
    else if |s| < 4 then None
    else if |s| == 4 then DecodeLast(s[0], s[1], s[2], s[3])
    else
      match DecodeQuad(s[0], s[1], s[2], s[3])
      case None => None
      case Some(g) =>
        match StrictDecode64(s[4..])
        case None => None
        case Some(rest) => Some(g + rest)
  }

  lemma DivMod4(q: int, r: int)
    requires 0 <= r < 4
    ensures (4 * q + r) / 4 == q && (4 * q + r) % 4 == r
  {
  }

  lemma DivMod16(q: int, r: int)
    requires 0 <= r < 16
    ensures (16 * q + r) / 16 == q && (16 * q + r) % 16 == r
  {
  }

  lemma DivMod64(q: int, r: int)
    requires 0 <= r < 64
    ensures (64 * q + r) / 64 == q && (64 * q + r) % 64 == r
  {
  }

  /** The bytes rebuilt from the four sextets of a group are the group's bytes. */
  lemma BytesOfSextets(b0: byte, b1: byte, b2: byte)
    ensures var v1 := b0 % 4 * 16 + b1 / 16;
            var v2 := b1 % 16 * 4 + b2 / 64;
            && b0 / 4 * 4 + v1 / 16 == b0
            && v1 % 16 * 16 + v2 / 4 == b1
            && v2 % 4 * 64 + b2 % 64 == b2
  {
    DivMod16(b0 % 4, b1 / 16);
    DivMod4(b1 % 16, b2 / 64);
  }

  /** The sextets recomputed from rebuilt bytes are the sextets. */
  lemma SextetsOfBytes(v0: int, v1: int, v2: int, v3: int, b0: int, b1: int, b2: int)
    requires 0 <= v0 < 64 && 0 <= v1 < 64 && 0 <= v2 < 64 && 0 <= v3 < 64
    requires b0 == v0 * 4 + v1 / 16 && b1 == v1 % 16 * 16 + v2 / 4 && b2 == v2 % 4 * 64 + v3
    ensures b0 / 4 == v0 && b0 % 4 * 16 + b1 / 16 == v1 && b1 % 16 * 4 + b2 / 64 == v2 && b2 % 64 == v3
  {
    DivMod4(v0, v1 / 16);
    DivMod16(v1 % 16, v2 / 4);
    DivMod64(v2 % 4, v3);
  }

  lemma QuadRoundTrip(b0: byte, b1: byte, b2: byte)
    ensures var q := Quad(b0, b1, b2); DecodeQuad(q[0], q[1], q[2], q[3]) == Some([b0, b1, b2])
  {
    SextetRoundTrip(b0 / 4);
    SextetRoundTrip(b0 % 4 * 16 + b1 / 16);
    SextetRoundTrip(b1 % 16 * 4 + b2 / 64);
    SextetRoundTrip(b2 % 64);
    BytesOfSextets(b0, b1, b2);
  }

  lemma DecodeEncodeOne(b0: byte)
    ensures StrictDecode64(StrictEncode64([b0])) == Some([b0])
  {
    var s := StrictEncode64([b0]);
    var v0, v1 := b0 / 4, b0 % 4 * 16;
    assert s == [SextetChar(v0), SextetChar(v1), '=', '='];
    SextetRoundTrip(v0);
    SextetRoundTrip(v1);
    DivMod16(b0 % 4, 0);
    assert v1 % 16 == 0 && v0 * 4 + v1 / 16 == b0;
    assert DecodeLast(s[0], s[1], s[2], s[3]) == Some([b0]);
  }

  lemma DecodeEncodeTwo(b0: byte, b1: byte)
    ensures StrictDecode64(StrictEncode64([b0, b1])) == Some([b0, b1])
  {
    var s := StrictEncode64([b0, b1]);
    var v0, v1, v2 := b0 / 4, b0 % 4 * 16 + b1 / 16, b1 % 16 * 4;
    assert s == [SextetChar(v0), SextetChar(v1), SextetChar(v2), '='];
    SextetRoundTrip(v0);
    SextetRoundTrip(v1);
    SextetRoundTrip(v2);
    DivMod16(b0 % 4, b1 / 16);
    DivMod4(b1 % 16, 0);
    assert v2 % 4 == 0 && v0 * 4 + v1 / 16 == b0 && v1 % 16 * 16 + v2 / 4 == b1;
    assert DecodeLast(s[0], s[1], s[2], s[3]) == Some([b0, b1]);
  }

  lemma EncodeCons(b: seq<byte>)
    requires |b| >= 3
    ensures StrictEncode64(b) == Quad(b[0], b[1], b[2]) + StrictEncode64(b[3..])
  {
  }

  lemma EncodeThree(b: seq<byte>)
    requires |b| == 3
    ensures StrictEncode64(b) == Quad(b[0], b[1], b[2])
  {
    EncodeCons(b);
    assert b[3..] == [];
  }

  lemma DecodeCons(q: string, t: string, g: seq<byte>, rest: seq<byte>)
    requires |q| == 4 && |t| > 0
    requires DecodeQuad(q[0], q[1], q[2], q[3]) == Some(g)
    requires StrictDecode64(t) == Some(rest)
    ensures StrictDecode64(q + t) == Some(g + rest)
  {
    var s := q + t;
    assert s[..4] == q && s[4..] == t;
  }

  lemma DecodeSingleQuad(q: string, g: seq<byte>)
    requires |q| == 4
    requires DecodeQuad(q[0], q[1], q[2], q[3]) == Some(g)
    ensures StrictDecode64(q) == Some(g)
  {
  }

  lemma DecodeEncodeThree(b: seq<byte>)
    requires |b| == 3
    ensures StrictDecode64(StrictEncode64(b)) == Some(b)
  {
    var q := Quad(b[0], b[1], b[2]);
    EncodeThree(b);
    QuadRoundTrip(b[0], b[1], b[2]);
    DecodeSingleQuad(q, [b[0], b[1], b[2]]);
    assert b == [b[0], b[1], b[2]];
  }

  lemma DecodeEncodeStep(b: seq<byte>)
    requires |b| > 3
    requires StrictDecode64(StrictEncode64(b[3..])) == Some(b[3..])
    ensures StrictDecode64(StrictEncode64(b)) == Some(b)
  {
    var q := Quad(b[0], b[1], b[2]);
    var t := StrictEncode64(b[3..]);
    EncodeCons(b);
    QuadRoundTrip(b[0], b[1], b[2]);
    DecodeCons(q, t, [b[0], b[1], b[2]], b[3..]);
    SplitThree(b);
  }

  lemma SplitThree(b: seq<byte>)
    requires |b| >= 3
    ensures b == [b[0], b[1], b[2]] + b[3..]
  {
  }

  /** Decoding the encoding gives back the bytes. */
  lemma {:induction false} DecodeEncode(b: seq<byte>)
    ensures StrictDecode64(StrictEncode64(b)) == Some(b)
    decreases |b|
  {
    if |b| == 1 {
      DecodeEncodeOne(b[0]);
      assert b == [b[0]];
    } else if |b| == 2 {
      DecodeEncodeTwo(b[0], b[1]);
      assert b == [b[0], b[1]];
    } else if |b| == 3 {
      DecodeEncodeThree(b);
    } else if |b| > 3 {
      DecodeEncode(b[3..]);
      DecodeEncodeStep(b);
    }
  }

  lemma QuadOfDecoded(c0: char, c1: char, c2: char, c3: char, g: seq<byte>)
    requires DecodeQuad(c0, c1, c2, c3) == Some(g)
    ensures |g| == 3 && Quad(g[0], g[1], g[2]) == [c0, c1, c2, c3]
  {
    var v0, v1, v2, v3 := SextetValue(c0), SextetValue(c1), SextetValue(c2), SextetValue(c3);
    var b0, b1, b2 := g[0], g[1], g[2];
    SextetsOfBytes(v0, v1, v2, v3, b0, b1, b2);
    assert SextetChar(v0) == c0 && SextetChar(v1) == c1 && SextetChar(v2) == c2 && SextetChar(v3) == c3;
  }

  lemma OneByteSextets(v0: int, v1: int, b0: int)
    requires 0 <= v0 < 64 && 0 <= v1 < 64 && v1 % 16 == 0
    requires b0 == v0 * 4 + v1 / 16
    ensures b0 / 4 == v0 && b0 % 4 * 16 == v1
  {
    DivMod4(v0, v1 / 16);
  }

  lemma TwoBytesSextets(v0: int, v1: int, v2: int, b0: int, b1: int)
    requires 0 <= v0 < 64 && 0 <= v1 < 64 && 0 <= v2 < 64 && v2 % 4 == 0
    requires b0 == v0 * 4 + v1 / 16 && b1 == v1 % 16 * 16 + v2 / 4
    ensures b0 / 4 == v0 && b0 % 4 * 16 + b1 / 16 == v1 && b1 % 16 * 4 == v2
  {
    DivMod4(v0, v1 / 16);
    DivMod16(v1 % 16, v2 / 4);
  }

  lemma EncodeOne(g: seq<byte>)
    requires |g| == 1
    ensures StrictEncode64(g) == [SextetChar(g[0] / 4), SextetChar(g[0] % 4 * 16), '=', '=']
  {
  }

  lemma EncodeTwo(g: seq<byte>)
    requires |g| == 2
    ensures StrictEncode64(g) == [SextetChar(g[0] / 4), SextetChar(g[0] % 4 * 16 + g[1] / 16), SextetChar(g[1] % 16 * 4), '=']
  {
  }

  /** A final group "xy==" encodes the one byte it decodes to. */
  lemma LastOfDecodedOne(c0: char, c1: char, g: seq<byte>)
    requires IsBase64Char(c0) && IsBase64Char(c1) && SextetValue(c1) % 16 == 0
    requires |g| == 1 && g[0] == SextetValue(c0) * 4 + SextetValue(c1) / 16
    ensures StrictEncode64(g) == [c0, c1, '=', '=']
  {
    var v0, v1 := SextetValue(c0), SextetValue(c1);
    OneByteSextets(v0, v1, g[0]);
    EncodeOne(g);
    assert SextetChar(v0) == c0 && SextetChar(v1) == c1;
  }

  /** A final group "xyz=" encodes the two bytes it decodes to. */
  lemma LastOfDecodedTwo(c0: char, c1: char, c2: char, g: seq<byte>)
    requires IsBase64Char(c0) && IsBase64Char(c1) && IsBase64Char(c2) && SextetValue(c2) % 4 == 0
    requires |g| == 2 && g[0] == SextetValue(c0) * 4 + SextetValue(c1) / 16
    requires g[1] == SextetValue(c1) % 16 * 16 + SextetValue(c2) / 4
    ensures StrictEncode64(g) == [c0, c1, c2, '=']
  {
    var v0, v1, v2 := SextetValue(c0), SextetValue(c1), SextetValue(c2);
    TwoBytesSextets(v0, v1, v2, g[0], g[1]);
    EncodeTwo(g);
    assert SextetChar(v0) == c0 && SextetChar(v1) == c1 && SextetChar(v2) == c2;
  }

  lemma LastOfDecoded(c0: char, c1: char, c2: char, c3: char, g: seq<byte>)
    requires DecodeLast(c0, c1, c2, c3) == Some(g)
    ensures 1 <= |g| <= 3 && StrictEncode64(g) == [c0, c1, c2, c3]
  {
    if c2 == '=' {
      LastOfDecodedOne(c0, c1, g);
    } else if c3 == '=' {
      LastOfDecodedTwo(c0, c1, c2, g);
    } else {
      QuadOfDecoded(c0, c1, c2, c3, g);
      EncodeThree(g);
    }
  }

  lemma EncodeDecodeStep(s: string, b: seq<byte>, g: seq<byte>, rest: seq<byte>)
    requires |s| > 4
    requires DecodeQuad(s[0], s[1], s[2], s[3]) == Some(g)
    requires StrictDecode64(s[4..]) == Some(rest) && StrictEncode64(rest) == s[4..]
    requires b == g + rest
    ensures StrictEncode64(b) == s
  {
    QuadOfDecoded(s[0], s[1], s[2], s[3], g);
    assert |rest| > 0;
    assert b[..3] == g && b[3..] == rest;
    EncodeCons(b);
    SplitFour(s);
  }

  /** Whatever the decoder accepts is exactly the encoding of what it returns,
      so the encoding is injective and has one spelling per byte string. */
  lemma {:induction false} EncodeDecode(s: string, b: seq<byte>)
    requires StrictDecode64(s) == Some(b)
    ensures StrictEncode64(b) == s
    decreases |s|
  {
    if |s| == 4 {
      LastOfDecoded(s[0], s[1], s[2], s[3], b);
    } else if |s| > 4 {
      var g := DecodeQuad(s[0], s[1], s[2], s[3]).value;
      var rest := StrictDecode64(s[4..]).value;
      EncodeDecode(s[4..], rest);
      EncodeDecodeStep(s, b, g, rest);
    }
  }

  lemma SplitFour(s: string)
    requires |s| >= 4
    ensures s == [s[0], s[1], s[2], s[3]] + s[4..]
  {
  }

  /** Distinct byte strings have distinct encodings. */
  lemma StrictEncode64Injective(b: seq<byte>, c: seq<byte>)
    requires StrictEncode64(b) == StrictEncode64(c)
    ensures b == c
  {
    DecodeEncode(b);
    DecodeEncode(c);
  }
}
