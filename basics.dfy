/** Small value types shared by the whole model: the optional value, the
    integer widths of the C# source, and byte/character conversion. */
module Basics {

  datatype Option<+T> = None | Some(value: T)

  /** A C# `byte`. */
  type byte = x: int | 0 <= x < 0x100

  /** A C# `ushort`. */
  type uint16 = x: int | 0 <= x < 0x1_0000

  /** A C# `ulong`, and the range of a MySQL BIGINT UNSIGNED column. */
  type uint64 = x: int | 0 <= x < 0x1_0000_0000_0000_0000

  const UInt64Limit: nat := 0x1_0000_0000_0000_0000

  function Min(a: nat, b: nat): nat { if a <= b then a else b }

  /** The C# cast `(char)b`: the character whose code is the byte's value. */
  function AsChars(bs: seq<byte>): (s: string)
    ensures |s| == |bs|
    ensures forall i :: 0 <= i < |bs| ==> s[i] == bs[i] as char
  {
    seq(|bs|, i requires 0 <= i < |bs| => bs[i] as char)
  }

  lemma AsCharsAppend(a: seq<byte>, b: seq<byte>)
    ensures AsChars(a + b) == AsChars(a) + AsChars(b)
  {
    assert forall i :: 0 <= i < |a + b| ==> AsChars(a + b)[i] == (AsChars(a) + AsChars(b))[i];
  }

  /** The bytes of `s` that are not in `drop`, in order. */
  function Without(s: seq<byte>, drop: set<byte>): (r: seq<byte>)
    ensures |r| <= |s|
    ensures forall i :: 0 <= i < |r| ==> r[i] !in drop && r[i] in s
  {
    if s == [] then []
    else (if s[0] in drop then [] else [s[0]]) + Without(s[1..], drop)
  }

  /** The last character of `s` read as a byte, or `last` when `s` is empty. */
  function LastChar(last: char, s: seq<byte>): char
  {
    if s == [] then last else s[|s| - 1] as char
  }
}
