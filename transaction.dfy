/** The `Transaction` record and its `From,To,Amount` text form. */
module Transactions {
  import opened Basics
  import Numbers
  import Guids

  /** `new Transaction(from, to, amount)` stores its three arguments as they are. */
  datatype Transaction = Transaction(from: Guids.Guid, to: Guids.Guid, amount: uint64)

  /** `default(Transaction)`. */
  const Default := Transaction(Guids.Empty, Guids.Empty, 0)

  /** `String.Split(char)`: the pieces between separators, empty pieces kept. */
  function Split(s: string, sep: char): (parts: seq<string>)
    ensures |parts| >= 1
  {
    if s == [] then [""]
    else if s[0] == sep then [""] + Split(s[1..], sep)
    else
      var rest := Split(s[1..], sep);
      [[s[0]] + rest[0]] + rest[1..]
  }

  /** The pieces written back with the separator between them. */
  function Join(parts: seq<string>, sep: char): string
    requires |parts| >= 1
  {
    if |parts| == 1 then parts[0] else parts[0] + [sep] + Join(parts[1..], sep)
  }

  function Count(s: string, c: char): nat
  {
    if s == [] then 0 else (if s[0] == c then 1 else 0) + Count(s[1..], c)
  }

  lemma {:induction false} SplitJoin(s: string, sep: char)
    ensures Join(Split(s, sep), sep) == s
    ensures |Split(s, sep)| == Count(s, sep) + 1
    ensures forall i :: 0 <= i < |Split(s, sep)| ==> sep !in Split(s, sep)[i]
  {
    if s != [] {
      SplitJoin(s[1..], sep);
      var rest := Split(s[1..], sep);
      if s[0] == sep {
        assert Split(s, sep) == [""] + rest;
        assert Split(s, sep)[1..] == rest;
      } else {
        var parts := Split(s, sep);
        assert parts[1..] == rest[1..];
        if |rest| > 1 {
          assert rest == [rest[0]] + rest[1..];
          assert Join(rest, sep) == rest[0] + [sep] + Join(rest[1..], sep);
        }
      }
    }
  }

  lemma {:induction false} JoinSplit(parts: seq<string>, sep: char)
    requires |parts| >= 1
    requires forall i :: 0 <= i < |parts| ==> sep !in parts[i]
    ensures Split(Join(parts, sep), sep) == parts
  {
    if |parts| == 1 {
      SplitPiece(parts[0], [], sep);
    } else {
      JoinSplit(parts[1..], sep);
      SplitPiece(parts[0], Join(parts[1..], sep), sep);
      assert parts == [parts[0]] + parts[1..];
    }
  }

  /** Splitting a separator-free piece followed by the rest. */
  lemma {:induction false} SplitPiece(p: string, rest: string, sep: char)
    requires sep !in p
    ensures rest == [] ==> Split(p, sep) == [p]
    ensures Split(p + [sep] + rest, sep) == [p] + Split(rest, sep)
  {
    if p == [] {
      assert p + [sep] + rest == [sep] + rest;
    } else {
      SplitPiece(p[1..], rest, sep);
      assert (p + [sep] + rest)[1..] == p[1..] + [sep] + rest;
      assert [p[0]] + p[1..] == p;
    }
  }

  /** `Transaction.ToString()`: `From,To,Amount` with the amount in decimal. */
  function ToString(t: Transaction): string
  {
    Guids.Format(t.from) + "," + Guids.Format(t.to) + "," + Numbers.Decimal(t.amount)
  }

  /** `Transaction.TryParse`: the success flag and the result, which is
      `default` when the flag is false. */
  function TryParse(s: string): (r: (bool, Transaction))
  {
    var parts := Split(s, ',');
    if |parts| == 3 then
      var from, to, amount :=
        Guids.TryParse(parts[0]), Guids.TryParse(parts[1]), Numbers.ParseUnsigned(parts[2], UInt64Limit);
      if from.Some? && to.Some? && amount.Some? then
        (true, Transaction(from.value, to.value, amount.value))
      else (false, Default)
    else (false, Default)
  }

  /** Text without exactly two commas never parses: the result is false with
      `default`, whatever the pieces hold. */
  lemma RejectsWrongCommaCount(s: string)
    requires Count(s, ',') != 2
    ensures TryParse(s) == (false, Default)
  {
    SplitJoin(s, ',');
  }

  /** Writing a transaction as text and parsing the text gives it back. */
  lemma {:induction false} RoundTrip(t: Transaction)
    ensures TryParse(ToString(t)) == (true, t)
  {
    var a, b, c := Guids.Format(t.from), Guids.Format(t.to), Numbers.Decimal(t.amount);
    Guids.FormatShape(t.from);
    Guids.FormatShape(t.to);
    Numbers.DecimalSpec(t.amount);
    assert ',' !in c by {
      forall i | 0 <= i < |c| ensures c[i] != ',' {
        assert Numbers.IsDigit(c[i]);
      }
    }
    var parts := [a, b, c];
    assert Join(parts, ',') == ToString(t) by {
      assert parts[1..] == [b, c];
      assert parts[1..][1..] == [c];
      assert Join([b, c], ',') == b + [','] + c;
      assert Join(parts, ',') == a + [','] + (b + [','] + c);
    }
    JoinSplit(parts, ',');
    Guids.FormatRoundTrip(t.from);
    Guids.FormatRoundTrip(t.to);
    Numbers.DecimalRoundTrip(t.amount, UInt64Limit);
  }
}
