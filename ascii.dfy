/** ASCII case mapping, the model of `string.ToUpper` and `string.ToLower`
    on the request line (letters outside A-Z and a-z are left unchanged). */
module Ascii {

  predicate IsUpperLetter(c: char) { 'A' <= c <= 'Z' }

  predicate IsLowerLetter(c: char) { 'a' <= c <= 'z' }

  function UpperChar(c: char): (u: char)
    ensures !IsLowerLetter(u)
    ensures !IsLowerLetter(c) ==> u == c
  {
    if IsLowerLetter(c) then (c as int - 32) as char else c
  }

  function LowerChar(c: char): (l: char)
    ensures !IsUpperLetter(l)
    ensures !IsUpperLetter(c) ==> l == c
  {
    if IsUpperLetter(c) then (c as int + 32) as char else c
  }

  /** No lower-case ASCII letter occurs in `s`. */
  predicate IsUpper(s: string) { forall i :: 0 <= i < |s| ==> !IsLowerLetter(s[i]) }

  /** No upper-case ASCII letter occurs in `s`. */
  predicate IsLower(s: string) { forall i :: 0 <= i < |s| ==> !IsUpperLetter(s[i]) }

  /** `string.ToUpper`, character by character. */
  function ToUpper(s: string): string
  {
    if s == [] then [] else [UpperChar(s[0])] + ToUpper(s[1..])
  }

  /** `string.ToLower`, character by character. */
  function ToLower(s: string): string
  {
    if s == [] then [] else [LowerChar(s[0])] + ToLower(s[1..])
  }

  /** Upper-casing maps each character in place and leaves no lower-case letter. */
  lemma {:induction false} ToUpperSpec(s: string)
    ensures |ToUpper(s)| == |s| && IsUpper(ToUpper(s))
    ensures forall i :: 0 <= i < |s| ==> ToUpper(s)[i] == UpperChar(s[i])
  {
    if s != [] {
      ToUpperSpec(s[1..]);
      assert forall i :: 1 <= i < |s| ==> ToUpper(s)[i] == ToUpper(s[1..])[i - 1];
    }
  }

  /** Lower-casing maps each character in place and leaves no upper-case letter. */
  lemma {:induction false} ToLowerSpec(s: string)
    ensures |ToLower(s)| == |s| && IsLower(ToLower(s))
    ensures forall i :: 0 <= i < |s| ==> ToLower(s)[i] == LowerChar(s[i])
  {
    if s != [] {
      ToLowerSpec(s[1..]);
      assert forall i :: 1 <= i < |s| ==> ToLower(s)[i] == ToLower(s[1..])[i - 1];
    }
  }

  /** Two characters are the same letter up to ASCII case. */
  predicate SameIgnoringCase(a: char, b: char) { UpperChar(a) == UpperChar(b) }

  /** Upper-casing leaves a string alone exactly when it has no lower-case letter. */
  lemma {:induction false} ToUpperFixedPoint(s: string)
    ensures ToUpper(s) == s <==> IsUpper(s)
  {
    ToUpperSpec(s);
    if IsUpper(s) {
      assert forall i :: 0 <= i < |s| ==> ToUpper(s)[i] == s[i];
    }
  }

  /** Lower-casing leaves a string alone exactly when it has no upper-case letter. */
  lemma {:induction false} ToLowerFixedPoint(s: string)
    ensures ToLower(s) == s <==> IsLower(s)
  {
    ToLowerSpec(s);
    if IsLower(s) {
      assert forall i :: 0 <= i < |s| ==> ToLower(s)[i] == s[i];
    }
  }

  /** Lower-casing is a case-insensitive key: two strings get the same key
      exactly when they agree letter by letter up to case. */
  lemma {:induction false} ToLowerIsCaseInsensitive(a: string, b: string)
    ensures ToLower(a) == ToLower(b) <==>
      |a| == |b| && forall i :: 0 <= i < |a| ==> SameIgnoringCase(a[i], b[i])
  {
    ToLowerSpec(a);
    ToLowerSpec(b);
    if |a| == |b| && forall i :: 0 <= i < |a| ==> SameIgnoringCase(a[i], b[i]) {
      forall i | 0 <= i < |a| ensures ToLower(a)[i] == ToLower(b)[i] {
        assert SameIgnoringCase(a[i], b[i]);
      }
    }
    if ToLower(a) == ToLower(b) {
      forall i | 0 <= i < |a| ensures SameIgnoringCase(a[i], b[i]) {
        assert LowerChar(a[i]) == LowerChar(b[i]);
      }
    }
  }
}
