/**
 `bin_to_hex`: `s.unpack('H*').first`, which renders every byte as two
 lower-case hexadecimal digits, high nibble first. `HexDecode` reads such
 text back; the round trip makes the rendering injective.
 */
module Hex {
  import opened Objects

  predicate IsLowerHexDigit(c: char) {
    '0' <= c <= '9' || 'a' <= c <= 'f'
  }

  /** The lower-case digit for a nibble. */
  function HexDigit(n: int): (c: char)
    requires 0 <= n < 16
    ensures IsLowerHexDigit(c)
  {
    if n < 10 then ('0' as int + n) as char else ('a' as int + n - 10) as char
  }

  function HexValue(c: char): (n: int)
    requires IsLowerHexDigit(c)
    ensures 0 <= n < 16 && HexDigit(n) == c
  {
    if c <= '9' then c as int - '0' as int else c as int - 'a' as int + 10
  }

  /** `bin_to_hex(s)` */
  function BinToHex(s: seq<byte>): (h: string)
    ensures |h| == 2 * |s|
    ensures forall j :: 0 <= j < |h| ==> IsLowerHexDigit(h[j])
  {
    if |s| == 0 then [] else [HexDigit(s[0] / 16), HexDigit(s[0] % 16)] + BinToHex(s[1..])
  }

  /** Character 2i of the rendering is the high nibble of byte i, character
      2i+1 its low nibble. */
  lemma {:induction false} BinToHexAt(s: seq<byte>, i: int)
    requires 0 <= i < |s|
    ensures BinToHex(s)[2 * i] == HexDigit(s[i] / 16)
    ensures BinToHex(s)[2 * i + 1] == HexDigit(s[i] % 16)
  {
    if i > 0 {
      BinToHexAt(s[1..], i - 1);
      assert BinToHex(s)[2..] == BinToHex(s[1..]);
    }
  }

  /** The bytes of an even-length text of lower-case hex digits; None otherwise. */
  function HexDecode(h: string): (r: Option<seq<byte>>)
    decreases |h|
  {
    if |h| == 0 then Some([])
    else if |h| == 1 || !IsLowerHexDigit(h[0]) || !IsLowerHexDigit(h[1]) then None
    else
      match HexDecode(h[2..])
      case None => None
      case Some(rest) => Some([16 * HexValue(h[0]) + HexValue(h[1])] + rest)
  }

  /** Reading the hex text back yields the original bytes. */
  lemma {:induction false} HexRoundTrip(s: seq<byte>)
    ensures HexDecode(BinToHex(s)) == Some(s)
  {
    if |s| > 0 {
      var h := BinToHex(s);
      assert h[2..] == BinToHex(s[1..]);
      HexRoundTrip(s[1..]);
      assert 16 * HexValue(h[0]) + HexValue(h[1]) == s[0];
      assert [s[0]] + s[1..] == s;
    }
  }

  /** Reading any text back and rendering it again gives that text: the
      decoder accepts exactly the renderings. */
  lemma {:induction false} HexDecodeExact(h: string, s: seq<byte>)
    requires HexDecode(h) == Some(s)
    ensures BinToHex(s) == h
    decreases |h|
  {
    if |h| > 0 {
      var rest := HexDecode(h[2..]).value;
      HexDecodeExact(h[2..], rest);
      var hi, lo := HexValue(h[0]), HexValue(h[1]);
      Nibbles(hi, lo);
      assert s == [16 * hi + lo] + rest;
      assert s[1..] == rest;
      assert BinToHex(s) == [h[0], h[1]] + h[2..];
    }
  }

  lemma Nibbles(hi: int, lo: int)
    requires 0 <= hi < 16 && 0 <= lo < 16
    ensures (16 * hi + lo) / 16 == hi && (16 * hi + lo) % 16 == lo
  {
  }

  /** Distinct byte strings have distinct hex renderings. */
  lemma BinToHexInjective(s: seq<byte>, t: seq<byte>)
    requires BinToHex(s) == BinToHex(t)
    ensures s == t
  {
    HexRoundTrip(s);
    HexRoundTrip(t);
  }
}
