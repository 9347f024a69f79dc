/** Generated session identifiers (app.ts:56): two tokens of four random
    bytes, each written as eight lower-case hexadecimal digits, joined by
    a single space. */
module Ids {
  import opened Wrappers

  newtype byte = x: int | 0 <= x < 256

  /** The four bytes of one `randomBytes(4)` call. */
  type Token = s: seq<byte> | |s| == 4 witness [0, 0, 0, 0]

  /** One candidate id as drawn from the random source. */
  datatype Draw = Draw(first: Token, second: Token)

  predicate IsHexDigit(c: char) {
    '0' <= c <= '9' || 'a' <= c <= 'f'
  }

  predicate IsHex(s: string) {
    forall i | 0 <= i < |s| :: IsHexDigit(s[i])
  }

  function DigitValue(c: char): (n: int)
    requires IsHexDigit(c)
    ensures 0 <= n < 16
  {
    if c <= '9' then c as int - '0' as int else c as int - 'a' as int + 10
  }

  /** The lower-case digit for a nibble; `DigitValue` reads it back. */
  function HexDigit(n: int): (c: char)
    requires 0 <= n < 16
    ensures IsHexDigit(c) && DigitValue(c) == n
  {
    if n < 10 then ('0' as int + n) as char else ('a' as int + n - 10) as char
  }

  /** A byte as two digits, high nibble first. */
  function HexByte(b: byte): (s: string)
    ensures |s| == 2 && IsHexDigit(s[0]) && IsHexDigit(s[1])
    ensures DigitValue(s[0]) * 16 + DigitValue(s[1]) == b as int
  {
    [HexDigit(b as int / 16), HexDigit(b as int % 16)]
  }

  /** `Buffer.toString('hex')`: every byte in order, two digits each. */
  function Hex(bs: seq<byte>): (s: string)
    ensures |s| == 2 * |bs| && IsHex(s)
  {
    if bs == [] then [] else HexByte(bs[0]) + Hex(bs[1..])
  }

  /** Reads an even-length digit string back into bytes. */
  function UnHex(s: string): (bs: seq<byte>)
    requires IsHex(s) && |s| % 2 == 0
    ensures 2 * |bs| == |s|
  {
    if s == [] then []
    else
      assert IsHex(s[2..]) by { assert forall i | 0 <= i < |s| - 2 :: s[2..][i] == s[i + 2]; }
      [(DigitValue(s[0]) * 16 + DigitValue(s[1])) as byte] + UnHex(s[2..])
  }

  lemma {:induction false} UnHexHex(bs: seq<byte>)
    ensures UnHex(Hex(bs)) == bs
  {
    if bs != [] {
      var s := Hex(bs);
      assert s[..2] == HexByte(bs[0]) && s[2..] == Hex(bs[1..]);
      UnHexHex(bs[1..]);
    }
  }

  /** The id built from one draw (app.ts:56). */
  function FormatId(d: Draw): (id: string)
    ensures |id| == 17 && id[8] == ' '
    ensures IsHex(id[..8]) && IsHex(id[9..])
  {
    var id := Hex(d.first) + " " + Hex(d.second);
    assert id[..8] == Hex(d.first) && id[9..] == Hex(d.second);
    id
  }

  /** Recovers the draw from an id of the generated shape. */
  function ParseId(id: string): (d: Option<Draw>)
    ensures d.Some? <==> |id| == 17 && id[8] == ' ' && IsHex(id[..8]) && IsHex(id[9..])
  {
    if |id| == 17 && id[8] == ' ' && IsHex(id[..8]) && IsHex(id[9..])
    then Some(Draw(UnHex(id[..8]), UnHex(id[9..])))
    else None
  }

  /** Every generated id parses back to the draw it came from. */
  lemma ParseFormatId(d: Draw)
    ensures ParseId(FormatId(d)) == Some(d)
  {
    var id := FormatId(d);
    assert id[..8] == Hex(d.first) && id[9..] == Hex(d.second);
    UnHexHex(d.first);
    UnHexHex(d.second);
  }

  /** Hence two different draws never give the same id. */
  lemma FormatIdInjective(d: Draw, e: Draw)
    ensures FormatId(d) == FormatId(e) ==> d == e
  {
    ParseFormatId(d);
    ParseFormatId(e);
  }
}
