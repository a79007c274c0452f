/**
 `inspect`, as the client uses it: `response.inspect` when a failed response
 has no 'Error' entry, and `raw_response.inspect` inside the synthesized error
 message. `InspectString` is `String#inspect` for a UTF-8 string; `Uninspect`
 reads such a literal back, and the round trip shows that the literal keeps
 the whole raw text.
 */
module Inspection {
  import opened Objects
  import Numerals

  function UpperHexDigit(n: int): (c: char)
    requires 0 <= n < 16
    ensures IsUpperHexDigit(c)
  {
    if n < 10 then ('0' as int + n) as char else ('A' as int + n - 10) as char
  }

  predicate IsUpperHexDigit(c: char) {
    '0' <= c <= '9' || 'A' <= c <= 'F'
  }

  function UpperHexValue(c: char): (n: int)
    requires IsUpperHexDigit(c)
    ensures 0 <= n < 16
  {
    if c <= '9' then c as int - '0' as int else c as int - 'A' as int + 10
  }

  /** The letter of the short escape Ruby writes for a control character
      (\n \r \t \f \v \b \a \e), if it has one. */
  function EscapeLetter(c: char): Option<char> {
    if c == '\n' then Some('n')
    else if c == '\r' then Some('r')
    else if c == '\t' then Some('t')
    else if c as int == 12 then Some('f')
    else if c as int == 11 then Some('v')
    else if c as int == 8 then Some('b')
    else if c as int == 7 then Some('a')
    else if c as int == 27 then Some('e')
    else None
  }

  /** The control character a short escape letter stands for. */
  function EscapedControl(letter: char): Option<char> {
    if letter == 'n' then Some('\n')
    else if letter == 'r' then Some('\r')
    else if letter == 't' then Some('\t')
    else if letter == 'f' then Some(12 as char)
    else if letter == 'v' then Some(11 as char)
    else if letter == 'b' then Some(8 as char)
    else if letter == 'a' then Some(7 as char)
    else if letter == 'e' then Some(27 as char)
    else None
  }

  /** A '#' is escaped when it would start an interpolation: `#{`, `#$`, `#@`. */
  predicate StartsInterpolation(rest: string) {
    |rest| > 0 && (rest[0] == '{' || rest[0] == '$' || rest[0] == '@')
  }

  /** How `String#inspect` writes the character `c` that is followed by `rest`. */
  function EscapeChar(c: char, rest: string): (r: string)
    ensures |r| >= 1
  {
    if c == '"' || c == '\\' || (c == '#' && StartsInterpolation(rest)) then ['\\', c]
    else if EscapeLetter(c).Some? then ['\\', EscapeLetter(c).value]
    else if c as int < 32 || c as int == 127 then
      ['\\', 'u', '0', '0', UpperHexDigit(c as int / 16), UpperHexDigit(c as int % 16)]
    else [c]
  }

  function EscapeBody(s: string): string {
    if |s| == 0 then "" else EscapeChar(s[0], s[1..]) + EscapeBody(s[1..])
  }

  /** `String#inspect` */
  function InspectString(s: string): (r: string)
    ensures |r| >= 2 && r[0] == '"' && r[|r| - 1] == '"'
  {
    "\"" + EscapeBody(s) + "\""
  }

  /** Reads the body of a string literal written by `inspect`. */
  function Unescape(t: string): string
    decreases |t|
  {
    if |t| == 0 then ""
    else if t[0] != '\\' || |t| == 1 then [t[0]] + Unescape(t[1..])
    else if t[1] == 'u' && |t| >= 6 && IsUpperHexDigit(t[2]) && IsUpperHexDigit(t[3])
         && IsUpperHexDigit(t[4]) && IsUpperHexDigit(t[5]) then
      var code := ((UpperHexValue(t[2]) * 16 + UpperHexValue(t[3])) * 16 + UpperHexValue(t[4])) * 16 + UpperHexValue(t[5]);
      if code < 0xD800 || code >= 0xE000 then [code as char] + Unescape(t[6..])
      else [t[1]] + Unescape(t[2..])
    else if EscapedControl(t[1]).Some? then [EscapedControl(t[1]).value] + Unescape(t[2..])
    else [t[1]] + Unescape(t[2..])
  }

  /** Reads a string literal written by `inspect`; None if it is not quoted. */
  function Uninspect(q: string): Option<string> {
    if |q| >= 2 && q[0] == '"' && q[|q| - 1] == '"' then Some(Unescape(q[1..|q| - 1])) else None
  }

  lemma UnescapeEscapeChar(c: char, rest: string, u: string)
    ensures Unescape(EscapeChar(c, rest) + u) == [c] + Unescape(u)
  {
    var e := EscapeChar(c, rest);
    var t := e + u;
    if c == '"' || c == '\\' || (c == '#' && StartsInterpolation(rest)) {
      assert t[2..] == u;
    } else if EscapeLetter(c).Some? {
      assert t[2..] == u;
    } else if c as int < 32 || c as int == 127 {
      var hi, lo := c as int / 16, c as int % 16;
      assert UpperHexValue(UpperHexDigit(hi)) == hi;
      assert UpperHexValue(UpperHexDigit(lo)) == lo;
      assert t[..6] == ['\\', 'u', '0', '0', UpperHexDigit(hi), UpperHexDigit(lo)];
      assert t[6..] == u;
    } else {
      assert t[1..] == u;
    }
  }

  lemma {:induction false} UnescapeBody(s: string)
    ensures Unescape(EscapeBody(s)) == s
  {
    if |s| > 0 {
      UnescapeEscapeChar(s[0], s[1..], EscapeBody(s[1..]));
      UnescapeBody(s[1..]);
      assert s == [s[0]] + s[1..];
    }
  }

  /** Reading back what `String#inspect` wrote gives the original string. */
  lemma UninspectInspect(s: string)
    ensures Uninspect(InspectString(s)) == Some(s)
  {
    var q := InspectString(s);
    assert q[1..|q| - 1] == EscapeBody(s);
    UnescapeBody(s);
  }

  /** A Symbol that `inspect` writes bare (`:name`); others are quoted. */
  predicate IsPlainIdentifier(name: string) {
    && |name| > 0
    && !Numerals.IsDigit(name[0])
    && forall i :: 0 <= i < |name| ==>
         'a' <= name[i] <= 'z' || 'A' <= name[i] <= 'Z' || Numerals.IsDigit(name[i]) || name[i] == '_'
  }

  /** `inspect` of any value, in the `{key=>value}` Hash format. Strings and
      Integers can be read back from what it writes. */
  function Inspect(v: Value): (r: string)
    ensures v.Nil? ==> r == "nil"
    ensures v.Bool? ==> r == if v.b then "true" else "false"
    ensures v.Int? ==> r == Numerals.IntToS(v.i) && Numerals.ParseInt(r) == Some(v.i)
    ensures v.Str? ==> r == InspectString(v.s) && Uninspect(r) == Some(v.s)
    ensures v.Sym? ==> |r| >= 2 && r[0] == ':'
    ensures v.Array? ==> |r| >= 2 && r[0] == '[' && r[|r| - 1] == ']'
    ensures v.Hash? ==> |r| >= 2 && r[0] == '{' && r[|r| - 1] == '}'
    decreases v, 1
  {
    match v
    case Nil => "nil"
    case Bool(b) => if b then "true" else "false"
    case Int(i) => Numerals.ParseIntToS(i); Numerals.IntToS(i)
    case Float(text) => text
    case Str(s) => UninspectInspect(s); InspectString(s)
    case Sym(name) => ":" + (if IsPlainIdentifier(name) then name else InspectString(name))
    case Array(items) => "[" + InspectItems(v, 0) + "]"
    case Hash(pairs) => "{" + InspectPairs(v, 0) + "}"
  }

  function InspectItems(v: Value, i: nat): string
    requires v.Array? && i <= |v.items|
    decreases v, 0, |v.items| - i
  {
    if i == |v.items| then ""
    else (if i > 0 then ", " else "") + Inspect(v.items[i]) + InspectItems(v, i + 1)
  }

  function InspectPairs(v: Value, i: nat): string
    requires v.Hash? && i <= |v.pairs|
    decreases v, 0, |v.pairs| - i
  {
    if i == |v.pairs| then ""
    else
      var p := v.pairs[i];
      assert p in v.pairs;
      (if i > 0 then ", " else "") + Inspect(p.0) + "=>" + Inspect(p.1) + InspectPairs(v, i + 1)
  }
}
