/** Decimal formatting of unsigned integers (`ulong.ToString()`) and the
    .NET parse of an unsigned integer under `NumberStyles.Integer`
    (`ushort.TryParse`, `ulong.TryParse`), with the current culture's sign
    symbols taken to be `+` and `-`.

    Accepted form: white space, an optional `+` or `-`, one or more ASCII
    digits, white space, then any number of NUL characters. White space
    here is U+0009 to U+000D and U+0020. A `-` is accepted only when the
    value is zero; a value at or above the type's limit is rejected. */
module Numbers {
  import opened Basics

  predicate IsDigit(c: char) { '0' <= c <= '9' }

  predicate AllDigits(s: string) { forall i :: 0 <= i < |s| ==> IsDigit(s[i]) }

  function DigitChar(d: nat): (c: char)
    requires d < 10
    ensures IsDigit(c)
  {
    ('0' as int + d) as char
  }

  function DigitValue(c: char): (d: nat)
    requires IsDigit(c)
    ensures d < 10
  {
    c as int - '0' as int
  }

  /** The decimal text of `n`, most significant digit first, no leading zero. */
  function Decimal(n: nat): (s: string)
    decreases n
  {
    if n < 10 then [DigitChar(n)] else Decimal(n / 10) + [DigitChar(n % 10)]
  }

  /** The number written by a run of digits. */
  function DigitsValue(s: string): nat
    requires AllDigits(s)
  {
    if s == [] then 0 else DigitsValue(s[..|s| - 1]) * 10 + DigitValue(s[|s| - 1])
  }

  /** `Decimal` writes only digits, never begins with a superfluous zero, and
      reads back as the number it was given. */
  lemma {:induction false} DecimalSpec(n: nat)
    ensures |Decimal(n)| > 0 && AllDigits(Decimal(n))
    ensures |Decimal(n)| > 1 ==> Decimal(n)[0] != '0'
    ensures DigitsValue(Decimal(n)) == n
  {
    if n >= 10 {
      DecimalSpec(n / 10);
      var s := Decimal(n);
      assert s[..|s| - 1] == Decimal(n / 10);
    }
  }

  predicate IsNumberWhite(c: char) { c == ' ' || '\t' <= c <= '\r' }

  /** What is left after the leading white space. */
  function SkipWhite(s: string): (r: string)
    ensures |r| <= |s| && r == s[|s| - |r|..]
    ensures r != [] ==> !IsNumberWhite(r[0])
    ensures forall i :: 0 <= i < |s| - |r| ==> IsNumberWhite(s[i])
  {
    if s != [] && IsNumberWhite(s[0]) then SkipWhite(s[1..]) else s
  }

  /** The length of the run of digits at the start of `s`. */
  function DigitRun(s: string): (k: nat)
    ensures k <= |s| && AllDigits(s[..k])
    ensures k < |s| ==> !IsDigit(s[k])
  {
    if s != [] && IsDigit(s[0]) then
      var k := 1 + DigitRun(s[1..]);
      assert s[..k] == [s[0]] + s[1..][..k - 1];
      k
    else 0
  }

  /** White space followed by NUL characters only. */
  predicate TrailerOk(s: string)
  {
    var t := SkipWhite(s);
    forall i :: 0 <= i < |t| ==> t[i] == '\0'
  }

  /** The value of `s` if it is an integer in `[0, limit)` in the accepted form. */
  function ParseUnsigned(s: string, limit: nat): (r: Option<nat>)
    ensures r.Some? ==> r.value < limit
  {
    var a := SkipWhite(s);
    var signed := a != [] && (a[0] == '+' || a[0] == '-');
    var negative := a != [] && a[0] == '-';
    var b := if signed then a[1..] else a;
    var k := DigitRun(b);
    if k == 0 || !TrailerOk(b[k..]) then None
    else
      var v := DigitsValue(b[..k]);
      if v >= limit || (negative && v != 0) then None else Some(v)
  }

  /** Formatting then parsing gives back every number below the limit. */
  lemma {:induction false} DecimalRoundTrip(n: nat, limit: nat)
    requires n < limit
    ensures ParseUnsigned(Decimal(n), limit) == Some(n)
  {
    DecimalSpec(n);
    var s := Decimal(n);
    assert !IsNumberWhite(s[0]);
    assert SkipWhite(s) == s;
    assert !(s[0] == '+' || s[0] == '-');
    DigitRunAll(s);
    assert s[..|s|] == s;
    assert s[|s|..] == [];
    assert TrailerOk(s[|s|..]);
  }

  lemma {:induction false} DigitRunAll(s: string)
    requires AllDigits(s)
    ensures DigitRun(s) == |s|
  {
    if s != [] {
      DigitRunAll(s[1..]);
    }
  }

  /** The characters the parse accepts at all. */
  predicate AllowedInNumber(c: char)
  {
    IsNumberWhite(c) || IsDigit(c) || c == '+' || c == '-' || c == '\0'
  }

  predicate AllAllowed(s: string)
  {
    forall j :: 0 <= j < |s| ==> AllowedInNumber(s[j])
  }

  lemma AllowedSplit(s: string, w: nat)
    requires w <= |s| && AllAllowed(s[..w]) && AllAllowed(s[w..])
    ensures AllAllowed(s)
  {
    assert forall j :: 0 <= j < w ==> s[j] == s[..w][j];
    assert forall j :: w <= j < |s| ==> s[j] == s[w..][j - w];
  }

  /** White space followed by NULs is allowed throughout. */
  lemma TrailerAllowed(s: string)
    requires TrailerOk(s)
    ensures AllAllowed(s)
  {
    var t := SkipWhite(s);
    assert t == s[|s| - |t|..];
    assert AllAllowed(s[..|s| - |t|]);
    AllowedSplit(s, |s| - |t|);
  }

  /** Every character of an accepted string is white space, a digit, a sign
      or NUL: a string holding any other character (a letter, a point, a
      comma, ...) is rejected. */
  lemma {:induction false} AcceptedCharacters(s: string, limit: nat)
    ensures ParseUnsigned(s, limit).Some? ==> forall j :: 0 <= j < |s| ==> AllowedInNumber(s[j])
  {
    var a := SkipWhite(s);
    var signed := a != [] && (a[0] == '+' || a[0] == '-');
    var b := if signed then a[1..] else a;
    var k := DigitRun(b);
    if k > 0 && TrailerOk(b[k..]) {
      var w := |s| - |a|;
      var off := w + (if signed then 1 else 0);
      assert AllAllowed(s[..w]);
      assert b == s[off..];
      assert AllAllowed(b[..k]);
      TrailerAllowed(b[k..]);
      AllowedSplit(b, k);
      assert AllAllowed(s[w..][..off - w]);
      assert s[w..][off - w..] == s[off..];
      AllowedSplit(s[w..], off - w);
      AllowedSplit(s, w);
    }
  }
}
