/** A `System.Guid` as its 32 hexadecimal digits in the order its text shows
    them, with `Guid.ToString()` (the "D" format, lower case) and the part
    of `Guid.TryParse` that the transaction text can reach. */
module Guids {
  import opened Basics

  type Nibble = x: int | 0 <= x < 16

  const Zeros: seq<Nibble> := [0,0,0,0,0,0,0,0, 0,0,0,0, 0,0,0,0, 0,0,0,0, 0,0,0,0,0,0,0,0,0,0,0,0]

  type Guid = s: seq<Nibble> | |s| == 32 witness Zeros

  /** `Guid.Empty`, which is also `default(Guid)`. */
  const Empty: Guid := Zeros

  function HexDigit(n: Nibble): char
  {
    if n < 10 then ('0' as int + n) as char else ('a' as int + n - 10) as char
  }

  predicate IsHex(c: char) { '0' <= c <= '9' || 'a' <= c <= 'f' || 'A' <= c <= 'F' }

  function HexValue(c: char): Nibble
    requires IsHex(c)
  {
    if c <= '9' then c as int - '0' as int
    else if c <= 'F' then c as int - 'A' as int + 10
    else c as int - 'a' as int + 10
  }

  function Hex(ns: seq<Nibble>): (s: string)
    ensures |s| == |ns|
    ensures forall i :: 0 <= i < |ns| ==> s[i] == HexDigit(ns[i])
  {
    seq(|ns|, i requires 0 <= i < |ns| => HexDigit(ns[i]))
  }

  /** The digits of a string made only of hexadecimal digits (either case). */
  function ParseHex(s: string): (r: Option<seq<Nibble>>)
    ensures r.Some? ==> |r.value| == |s|
  {
    if forall i :: 0 <= i < |s| ==> IsHex(s[i]) then
      Some(seq(|s|, i requires 0 <= i < |s| => HexValue(s[i])))
    else None
  }

  /** `Guid.ToString()`: 8-4-4-4-12 lower-case digits separated by hyphens. */
  function Format(g: Guid): (s: string)
  {
    Hex(g[..8]) + "-" + Hex(g[8..12]) + "-" + Hex(g[12..16]) + "-" + Hex(g[16..20]) + "-" + Hex(g[20..])
  }

  /** The "D" layout: 36 characters, hyphens at 8, 13, 18 and 23, hex digits elsewhere. */
  function ParseD(t: string): Option<Guid>
  {
    if |t| == 36 && t[8] == '-' && t[13] == '-' && t[18] == '-' && t[23] == '-' then
      match ParseHex(t[..8] + t[9..13] + t[14..18] + t[19..23] + t[24..])
      case Some(ns) => Some(ns)
      case None => None
    else None
  }

  /** The "N" layout: 32 hex digits. */
  function ParseN(t: string): Option<Guid>
  {
    if |t| == 32 then
      match ParseHex(t)
      case Some(ns) => Some(ns)
      case None => None
    else None
  }

  /** `char.IsWhiteSpace`: U+0009 to U+000D, U+0020, U+0085, U+00A0, U+1680,
      U+2000 to U+200A, U+2028, U+2029, U+202F, U+205F and U+3000. */
  predicate IsWhiteSpace(c: char)
  {
    var n := c as int;
    || 0x09 <= n <= 0x0D || n == 0x20 || n == 0x85 || n == 0xA0 || n == 0x1680
    || 0x2000 <= n <= 0x200A || n == 0x2028 || n == 0x2029 || n == 0x202F
    || n == 0x205F || n == 0x3000
  }

  function TrimStart(s: string): (r: string)
    ensures |r| <= |s| && r == s[|s| - |r|..]
  {
    if s != [] && IsWhiteSpace(s[0]) then TrimStart(s[1..]) else s
  }

  function TrimEnd(s: string): (r: string)
    ensures |r| <= |s| && r == s[..|r|]
  {
    if s != [] && IsWhiteSpace(s[|s| - 1]) then TrimEnd(s[..|s| - 1]) else s
  }

  /** `Guid.TryParse`: trim white space, then choose the layout from the first
      character: `(` the "P" layout `(D)`, `{` with a hyphen the "B" layout
      `{D}`, `{` without one the "X" layout (never accepted here), otherwise
      "D" when there is a hyphen and "N" when there is none. */
  function TryParse(s: string): Option<Guid>
  {
    var t := TrimEnd(TrimStart(s));
    if t == [] then None
    else if t[0] == '(' then
      if |t| == 38 && t[37] == ')' then ParseD(t[1..37]) else None
    else if t[0] == '{' then
      if '-' in t && |t| == 38 && t[37] == '}' then ParseD(t[1..37]) else None
    else if '-' in t then ParseD(t)
    else ParseN(t)
  }

  lemma {:induction false} HexAppend(a: seq<Nibble>, b: seq<Nibble>)
    ensures Hex(a + b) == Hex(a) + Hex(b)
  {
    assert forall i :: 0 <= i < |a + b| ==> Hex(a + b)[i] == (Hex(a) + Hex(b))[i];
  }

  lemma {:induction false} ParseHexOfHex(ns: seq<Nibble>)
    ensures ParseHex(Hex(ns)) == Some(ns)
  {
    var s := Hex(ns);
    forall i | 0 <= i < |s| ensures IsHex(s[i]) && HexValue(s[i]) == ns[i] {
      assert s[i] == HexDigit(ns[i]);
    }
    assert seq(|s|, i requires 0 <= i < |s| => HexValue(s[i])) == ns;
  }

  /** The text of a Guid is 36 characters of lower-case digits and hyphens:
      it never holds a comma and never begins or ends with white space. */
  lemma {:induction false} FormatShape(g: Guid)
    ensures |Format(g)| == 36
    ensures forall i :: 0 <= i < 36 ==>
      Format(g)[i] == (if i in {8, 13, 18, 23} then '-' else HexDigit(g[i - (if i < 8 then 0 else if i < 13 then 1 else if i < 18 then 2 else if i < 23 then 3 else 4)]))
    ensures ',' !in Format(g)
    ensures !IsWhiteSpace(Format(g)[0]) && !IsWhiteSpace(Format(g)[35])
  {
    var s := Format(g);
    assert ',' !in s by {
      forall i | 0 <= i < |s| ensures s[i] != ',' {
      }
    }
  }

  /** Parsing the text of a Guid gives back that Guid. */
  lemma {:induction false} FormatRoundTrip(g: Guid)
    ensures TryParse(Format(g)) == Some(g)
  {
    var s := Format(g);
    FormatShape(g);
    assert TrimStart(s) == s;
    assert TrimEnd(s) == s;
    assert s[0] != '(' && s[0] != '{';
    assert s[8] == '-';
    assert s[..8] == Hex(g[..8]);
    assert s[9..13] == Hex(g[8..12]);
    assert s[14..18] == Hex(g[12..16]);
    assert s[19..23] == Hex(g[16..20]);
    assert s[24..] == Hex(g[20..]);
    HexAppend(g[..8], g[8..12]);
    HexAppend(g[..12], g[12..16]);
    HexAppend(g[..16], g[16..20]);
    HexAppend(g[..20], g[20..]);
    assert g[..8] + g[8..12] == g[..12];
    assert g[..12] + g[12..16] == g[..16];
    assert g[..16] + g[16..20] == g[..20];
    assert g[..20] + g[20..] == g;
    ParseHexOfHex(g);
  }
}
