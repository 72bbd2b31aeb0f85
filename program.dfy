/** `Program.GetSpecifiedPort`: the listening port chosen from the
    command-line arguments. */
module Program {
  import opened Basics
  import Numbers

  const DefaultPort: uint16 := 8080

  /** `ushort.TryParse(arg, out value)`. */
  function ParsePort(arg: string): (r: Option<uint16>)
  {
    match Numbers.ParseUnsigned(arg, 0x1_0000)
    case Some(v) => Some(v)
    case None => None
  }

  /** The `foreach` of `GetSpecifiedPort` with the parse as a parameter: the
      value of the first argument that parses, else the default port. */
  function FirstParsed(args: seq<string>, parse: string -> Option<uint16>): (port: uint16)
  {
    if args == [] then DefaultPort
    else match parse(args[0])
      case Some(v) => v
      case None => FirstParsed(args[1..], parse)
  }

  /** The first argument that parses as a port, else the default port. */
  function GetSpecifiedPort(args: seq<string>): (port: uint16)
  {
    FirstParsed(args, ParsePort)
  }

  /** The result is the value of the first argument that parses; when none
      parses (in particular when there are none) it is the default port. */
  lemma {:induction false} FirstParsedIsFirst(args: seq<string>, parse: string -> Option<uint16>)
    ensures
      || (exists i :: 0 <= i < |args| && parse(args[i]) == Some(FirstParsed(args, parse)) &&
            forall j :: 0 <= j < i ==> parse(args[j]) == None)
      || (FirstParsed(args, parse) == DefaultPort && forall i :: 0 <= i < |args| ==> parse(args[i]) == None)
  {
    if args != [] {
      var tail := args[1..];
      assert forall k :: 0 <= k < |tail| ==> tail[k] == args[k + 1];
      if parse(args[0]).None? {
        FirstParsedIsFirst(tail, parse);
        var port := FirstParsed(args, parse);
        if exists i :: 0 <= i < |tail| && parse(tail[i]) == Some(port) &&
             forall j :: 0 <= j < i ==> parse(tail[j]) == None {
          var i :| 0 <= i < |tail| && parse(tail[i]) == Some(port) &&
             forall j :: 0 <= j < i ==> parse(tail[j]) == None;
          assert parse(args[i + 1]) == Some(port);
          assert forall j :: 0 <= j < i + 1 ==> parse(args[j]) == None by {
            forall j | 0 <= j < i + 1 ensures parse(args[j]) == None {
              if j > 0 { assert args[j] == tail[j - 1]; }
            }
          }
        } else {
          forall i | 0 <= i < |args| ensures parse(args[i]) == None {
            if i > 0 { assert args[i] == tail[i - 1]; }
          }
        }
      }
    }
  }

  /** Once an argument parses, nothing after it affects the result. */
  lemma {:induction false} FirstParsedIgnoresLater(args: seq<string>, more: seq<string>, i: nat,
                                                   parse: string -> Option<uint16>)
    requires i < |args| && i < |more| && forall j :: 0 <= j <= i ==> args[j] == more[j]
    requires parse(args[i]).Some?
    ensures FirstParsed(args, parse) == FirstParsed(more, parse)
  {
    assert args[0] == more[0];
    if parse(args[0]).None? {
      assert forall j :: 0 <= j <= i - 1 ==> args[1..][j] == args[j + 1] && more[1..][j] == more[j + 1];
      FirstParsedIgnoresLater(args[1..], more[1..], i - 1, parse);
    }
  }

  /** `GetSpecifiedPort` returns the value of the first parseable argument,
      or 8080 when no argument parses. */
  lemma PortIsFirstParseable(args: seq<string>)
    ensures
      || (exists i :: 0 <= i < |args| && ParsePort(args[i]) == Some(GetSpecifiedPort(args)) &&
            forall j :: 0 <= j < i ==> ParsePort(args[j]) == None)
      || (GetSpecifiedPort(args) == DefaultPort && forall i :: 0 <= i < |args| ==> ParsePort(args[i]) == None)
  {
    FirstParsedIsFirst(args, ParsePort);
  }

  /** Arguments after the first parseable one are never looked at. */
  lemma LaterArgumentsIgnored(args: seq<string>, more: seq<string>, i: nat)
    requires i < |args| && i < |more| && forall j :: 0 <= j <= i ==> args[j] == more[j]
    requires ParsePort(args[i]).Some?
    ensures GetSpecifiedPort(args) == GetSpecifiedPort(more)
  {
    FirstParsedIgnoresLater(args, more, i, ParsePort);
  }

  /** An argument that is not a number is skipped, not an error. */
  lemma SkipsUnparseable(arg: string, rest: seq<string>)
    requires ParsePort(arg) == None
    ensures GetSpecifiedPort([arg] + rest) == GetSpecifiedPort(rest)
  {
    assert ([arg] + rest)[1..] == rest;
  }

  /** A decimal port number is taken as written. */
  lemma DecimalPortAccepted(port: uint16, rest: seq<string>)
    ensures GetSpecifiedPort([Numbers.Decimal(port)] + rest) == port
  {
    Numbers.DecimalRoundTrip(port, 0x1_0000);
  }
}
