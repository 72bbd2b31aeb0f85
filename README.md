# SKoin backend core in Dafny

A Dafny model of the core of the SKoin backend server, with proofs about it:

- the hand-written HTTP/1.1 server (`Core/HttpServer.cs`);
- the ledger transfer (`Database.cs`);
- the `Transaction` record and its text form (`Transaction.cs`);
- the choice of the listening port (`Program.cs`).

The server does four things:

1. **Parse.** It reads the bytes of a request one at a time through a state machine: `Method`, `Path`, `Version`, `HeaderName`, `HeaderValue`, `Content` and `Invalid`.
   - The method token is upper-cased and must be `GET` or `POST`.
   - The path is lower-cased and the version upper-cased.
   - Header names and values go into a dictionary.
   - Everything after the blank line is the body.
2. **Answer errors.** A request left `Invalid` is answered with a fixed 400 response.
3. **Dispatch.** Any other request is dispatched on its path to a registered service, and the service's result is wrapped in a fixed 200, 400 or 500 response. An unknown path gets a fixed 404.
4. **Register.** Services are registered from annotated methods. The key is the lower-cased path, and a repeated path throws.

The ledger keeps one unsigned 64-bit balance per account id. `TryTransact` checks both accounts and the sender's balance, then runs a two-statement debit/credit command.

`Transaction` is `From,To,Amount` text with two Guids and a decimal `ulong`. `GetSpecifiedPort` picks the first command-line argument that parses as a `ushort`, else 8080.

Modules, one per file:

| module (file) | what it holds |
|---|---|
| `Basics` (basics.dfy) | `Option`, the C# integer types, byte-to-char casts |
| `Ascii` (ascii.dfy) | `string.ToUpper` / `ToLower` on ASCII letters |
| `Utf8` (utf8.dfy) | `Encoding.UTF8.GetBytes` and a decoder that inverts it |
| `Numbers` (numbers.dfy) | `ulong.ToString()` and `ulong`/`ushort.TryParse` |
| `Guids` (guids.dfy) | `Guid.ToString()` and `Guid.TryParse` |
| `Transactions` (transaction.dfy) | `Transaction`, `ToString`, `TryParse` and `String.Split` |
| `Database` (database.dfy) | the balance table as `class Ledger`, and `TryTransact` as written and as intended |
| `HttpParser` (http_parser.dfy) | the parser loop body as a pure `Step`, and the loop as `Feed` |
| `HttpServer` (http_server.dfy) | the response constants, `RunService`, `ProcessRequest`, registration, and `class HttpServer` |
| `Program` (program.dfy) | `GetSpecifiedPort` |

The code that changes state in place keeps that form:

- `HttpServer.HttpServer.AddService` is a loop over the methods that updates the `services` map field.
- `HttpServer.HttpServer.AcceptConnection` is the parser's `while` loop. It has the same local variables and the same `switch`, and a loop invariant ties it to `Feed`.
- `Database.Ledger.TryTransact` runs the SQL statements as updates of the `balances` map field.

Each of these methods is proved equal to a pure function:

- `AcceptConnection` to `Respond`;
- `AddService` to `Register`;
- `TryTransact` to `Transact`.

The properties are then lemmas about those functions.

Modelling choices:

- The wall-clock test that ends the parser loop (`HttpServer.cs:134`) becomes a `budget`. It is the number of loop turns that start before the deadline, so only `input[..min(budget, |input|)]` is parsed.
- The exception that `Headers.Add` throws on a repeated header name is `None` in the parser. The connection then ends as `Closed`, with nothing sent, as the catch block at lines 265-274 does.
- No schema is part of the sources; the `Balance` column is taken to be `BIGINT UNSIGNED`, inferred from `reader.GetUInt64(0)` at `Database.cs:100`. A MySQL `UPDATE` that would take such a balance below 0 or to 2^64 is rejected by the server. The command then throws, after its earlier statements have taken effect.
- Whether each transfer command reaches the server at all is an `Outages` parameter.

## Model

| member | source | states |
|---|---|---|
| Ascii.ToUpperSpec | Sheridan.SKoin.API/Core/HttpServer.cs:143 | upper-casing maps every character in place and leaves no lower-case letter |
| Ascii.ToLowerSpec | Sheridan.SKoin.API/Core/HttpServer.cs:165 | lower-casing maps every character in place and leaves no upper-case letter |
| Ascii.ToUpperFixedPoint | Sheridan.SKoin.API/Core/HttpServer.cs:179 | upper-casing leaves a string unchanged exactly when it has no lower-case letter |
| Ascii.ToLowerFixedPoint | Sheridan.SKoin.API/Core/HttpServer.cs:49 | lower-casing leaves a string unchanged exactly when it has no upper-case letter |
| Ascii.ToLowerIsCaseInsensitive | Sheridan.SKoin.API/Core/HttpServer.cs:49 | two strings get the same lower-cased key exactly when they have the same length and agree letter by letter up to case |
| Utf8.EncodeChar | Sheridan.SKoin.API/Core/HttpServer.cs:244 | a character takes one to four bytes, and exactly one when it is ASCII |
| Utf8.DecodeEncodeChar | Sheridan.SKoin.API/Core/HttpServer.cs:244 | the bytes of one character decode back to it, whatever follows them |
| Utf8.DecodeEncode | Sheridan.SKoin.API/Core/HttpServer.cs:244 | decoding the UTF-8 encoding of a string gives the string back |
| Utf8.EncodeAppend | Sheridan.SKoin.API/Core/HttpServer.cs:321 | the encoding of a concatenation is the concatenation of the encodings, so `Ok + text` is encoded as the encoding of `Ok` followed by that of `text` |
| Utf8.EncodeAscii | Sheridan.SKoin.API/Core/HttpServer.cs:23-26 | an ASCII string is encoded one byte per character, each byte the character's code |
| Numbers.DecimalSpec | Sheridan.SKoin.API/Transaction.cs:20 | the decimal text of a number is non-empty digits with no superfluous leading zero, and its value is the number |
| Numbers.ParseUnsigned | Sheridan.SKoin.API/Transaction.cs:27 | a successful parse is below the limit of the type |
| Numbers.DecimalRoundTrip | Sheridan.SKoin.API/Transaction.cs:27 | parsing the decimal text of any number below the limit gives that number |
| Numbers.AcceptedCharacters | Sheridan.SKoin.API/Transaction.cs:27 | every character of a string that parses is white space, a digit, a sign or NUL |
| Guids.FormatShape | Sheridan.SKoin.API/Transaction.cs:20 | a Guid's text is 36 characters: hyphens at positions 8, 13, 18 and 23 and lower-case hex digits elsewhere, with no comma and no white space at either end |
| Guids.FormatRoundTrip | Sheridan.SKoin.API/Transaction.cs:27 | parsing the text of a Guid gives that Guid back |
| Guids.ParseHexOfHex | Sheridan.SKoin.API/Transaction.cs:27 | the hex digits written for a sequence of nibbles read back as those nibbles |
| Transactions.SplitJoin | Sheridan.SKoin.API/Transaction.cs:25 | the pieces of `Split` joined with the separator give the text back; there is one more piece than there are separators, and no piece contains the separator |
| Transactions.JoinSplit | Sheridan.SKoin.API/Transaction.cs:25 | splitting separator-free pieces that were joined with the separator gives the pieces back |
| Transactions.RejectsWrongCommaCount | Sheridan.SKoin.API/Transaction.cs:25-35 | text that does not hold exactly two commas does not split into three parts, so the parse returns false with `default` |
| Transactions.RoundTrip | Sheridan.SKoin.API/Transaction.cs:11-37 | parsing the text of any transaction succeeds and gives back the same from, to and amount |
| Database.Ledger.TryGetBalance | Sheridan.SKoin.API/Database.cs:91-110 | found is true exactly when the account exists; the balance is then the stored one, else 0 |
| Database.Ledger.ExecuteTransfer | Sheridan.SKoin.API/Database.cs:120-122 | one run of the transfer command: new balances, rows found and whether it threw are those of the debit-then-credit statements; the log is unchanged |
| Database.Ledger.TryTransact | Sheridan.SKoin.API/Database.cs:112-144 | the result and the new balances are those of `Transact` on the old balances, including the second run of the command at line 128; the log is unchanged |
| Database.RejectsMissingAccount | Sheridan.SKoin.API/Database.cs:116 | a missing sender or recipient gives false and leaves every balance unchanged |
| Database.RejectsInsufficientBalance | Sheridan.SKoin.API/Database.cs:118 | a sender holding less than the amount gives false and leaves every balance unchanged |
| Database.SucceedsExactly | Sheridan.SKoin.API/Database.cs:116-138 | the result is true exactly when both accounts exist, the sender can pay, the command reaches the server and the credit stays in range |
| Database.FirstApplication | Sheridan.SKoin.API/Database.cs:120-122 | one run of the command finds two rows and moves exactly the amount: the sum of the two balances is kept, a transfer to oneself changes nothing, and no other account is touched |
| Database.SecondLostAppliesOnce | Sheridan.SKoin.API/Database.cs:122-133 | when the second run does not reach the server, the result is true and the amount is moved once |
| Database.SecondApplication | Sheridan.SKoin.API/Database.cs:128 | as written, a successful transfer is true in every case. A sender who can pay twice, to a recipient who stays in range, has the amount moved twice. A sender who can pay twice, to a recipient whose second credit would overflow, pays twice while the recipient is credited once. A sender who cannot pay twice has the second debit's failure swallowed, and one application stands |
| Database.SecondCreditOverflows | Sheridan.SKoin.API/Database.cs:120-128 | as written, when the sender can pay twice but the recipient's second credit would overflow, the second run throws after its debit: the sender has paid twice and the recipient is credited once |
| Database.CreditOverflowKeepsDebit | Sheridan.SKoin.API/Database.cs:120-143 | a credit that would overflow the recipient makes the command throw after its debit: the result is false, yet the sender has paid |
| Database.LoggedTransferSpec | Sheridan.SKoin.API/Database.cs:126 | with the log insert run in place of line 128, success moves the amount exactly once and appends exactly one log row; failure leaves the log alone |
| Database.Ledger.TryTransactLogged | Sheridan.SKoin.API/Database.cs:112-144 | the intended `TryTransact`: result, balances and log are those of `TransactLogged` on the old state |
| Database.SelfTransfer | Sheridan.SKoin.API/Database.cs:116-133 | as written, a transfer to oneself that the sender can pay runs the command twice, is true, and leaves every balance unchanged |
| Database.WorkedExample | Sheridan.SKoin.API/Database.cs:128 | from 100 and 100, moving 40 leaves 20 and 180 as written but 60 and 140 as intended; moving 1000 afterwards fails and changes nothing |
| HttpParser.FeedAppend | Sheridan.SKoin.API/Core/HttpServer.cs:134-238 | running the loop over two inputs one after the other is running it over their concatenation |
| HttpParser.StepNormal | Sheridan.SKoin.API/Core/HttpServer.cs:138-236 | one turn of the loop keeps the parser's invariant: lower-case path, upper-case version without CR, header names without `:` or CR, values without CR, data only in `Content`, and defaults for the fields not yet reached |
| HttpParser.FeedNormal | Sheridan.SKoin.API/Core/HttpServer.cs:134-238 | every state the loop reaches from one that keeps the invariant keeps it |
| HttpParser.ReceivedNormal | Sheridan.SKoin.API/Core/HttpServer.cs:125-238 | the parse of any received input keeps the invariant |
| HttpParser.VersionEnd | Sheridan.SKoin.API/Core/HttpServer.cs:176-184 | CR then LF in `Version` stores the upper-cased buffer as the version and moves to `HeaderName` |
| HttpParser.NameEnd | Sheridan.SKoin.API/Core/HttpServer.cs:191-199 | `": "` in `HeaderName` throws on a repeated name; otherwise it stores the name with an empty value and moves to `HeaderValue` |
| HttpParser.ValueEnd | Sheridan.SKoin.API/Core/HttpServer.cs:211-219 | CR then LF in `HeaderValue` overwrites the placeholder under the current name with the buffer and moves back to `HeaderName` |
| HttpParser.Accumulate | Sheridan.SKoin.API/Core/HttpServer.cs:156-224 | a run of bytes that ends no field is appended to the buffer without the bytes that state drops (CR, and `:` in header names) |
| HttpParser.ContentVerbatim | Sheridan.SKoin.API/Core/HttpServer.cs:226-228 | in `Content`, every remaining byte is appended to the data verbatim and in order |
| HttpParser.EndOfHeaders | Sheridan.SKoin.API/Core/HttpServer.cs:200-203 | CR then LF in `HeaderName` moves to `Content` whatever the buffer holds, and everything after becomes the data |
| HttpParser.GetToken | Sheridan.SKoin.API/Core/HttpServer.cs:143-145 | a token is taken as GET exactly when it is `get` in any mix of cases |
| HttpParser.PostToken | Sheridan.SKoin.API/Core/HttpServer.cs:143-145 | a token is taken as POST exactly when it is `post` in any mix of cases |
| HttpParser.MethodLine | Sheridan.SKoin.API/Core/HttpServer.cs:140-160 | the method token up to the first space is read into the buffer and then either sets the verb and moves to `Path`, or makes the state `Invalid` |
| HttpParser.PathPart | Sheridan.SKoin.API/Core/HttpServer.cs:162-174 | a path up to a space is stored lower-cased |
| HttpParser.VersionPart | Sheridan.SKoin.API/Core/HttpServer.cs:176-189 | a version up to CR LF is stored upper-cased |
| HttpParser.VersionLoneLineFeed | Sheridan.SKoin.API/Core/HttpServer.cs:177-188 | an LF in the version not preceded by CR does not end it and is kept: it ends up, after the rest of the version, in the stored version |
| HttpParser.NamePart | Sheridan.SKoin.API/Core/HttpServer.cs:191-209 | a header name up to `": "` is either a repeat, which throws, or stored with an empty value |
| HttpParser.ValuePart | Sheridan.SKoin.API/Core/HttpServer.cs:211-224 | a header value up to CR LF is stored under the current name |
| HttpParser.HeaderLine | Sheridan.SKoin.API/Core/HttpServer.cs:191-224 | one `name: value` CR LF line adds that header, or throws when the name is already present |
| HttpParser.HeaderLinesFeed | Sheridan.SKoin.API/Core/HttpServer.cs:191-224 | a sequence of header lines adds its headers one by one, or throws when a name repeats |
| HttpParser.AddHeadersSucceeds | Sheridan.SKoin.API/Core/HttpServer.cs:195 | adding the headers succeeds exactly when their names are distinct and none is already present |
| HttpParser.AddHeadersKeeps | Sheridan.SKoin.API/Core/HttpServer.cs:195 | after the headers are added, the names are the old names plus the new ones, and old entries are kept |
| HttpParser.AddHeadersContents | Sheridan.SKoin.API/Core/HttpServer.cs:195-215 | after the headers are added, each header name maps to its value |
| HttpParser.WireRequest | Sheridan.SKoin.API/Core/HttpServer.cs:125-239 | for a well-formed request line, header lines and body: an unknown method gives `Invalid`; otherwise the parse fails exactly when a header name repeats. When it succeeds, the parse ends in `Content` with the verb, lower-cased path, upper-cased version, exactly the given headers with their values, and the body as data |
| HttpParser.CutShort | Sheridan.SKoin.API/Core/HttpServer.cs:134 | empty input leaves the defaults; input cut off in `Method` or `Path` leaves the path `""` with no headers and no data |
| HttpServer.BadRequestLength | Sheridan.SKoin.API/Core/HttpServer.cs:24 | the `Content-Length` that `BadRequest` declares (`22`) is the byte length of the body `BadRequest` carries |
| HttpServer.NotFoundLength | Sheridan.SKoin.API/Core/HttpServer.cs:25 | the `Content-Length` that `NotFound` declares (`20`) is the byte length of the body `NotFound` carries |
| HttpServer.InternalErrorLength | Sheridan.SKoin.API/Core/HttpServer.cs:26 | the `Content-Length` that `InternalError` declares (`32`) is the byte length of the body `InternalError` carries |
| HttpServer.OkStatus | Sheridan.SKoin.API/Core/HttpServer.cs:23 | the Ok bytes, whatever follows them, carry status 200 |
| HttpServer.BadRequestStatus | Sheridan.SKoin.API/Core/HttpServer.cs:24 | the 400 bytes carry status 400 |
| HttpServer.NotFoundStatus | Sheridan.SKoin.API/Core/HttpServer.cs:25 | the 404 bytes carry status 404 |
| HttpServer.InternalErrorStatus | Sheridan.SKoin.API/Core/HttpServer.cs:26 | the 500 bytes carry status 500 |
| HttpServer.TextServiceOutcome | Sheridan.SKoin.API/Core/HttpServer.cs:313-322 | a text service answers null with the 400 bytes, a throw with the 500 bytes, and a text with the Ok bytes followed by the text's UTF-8 bytes |
| HttpServer.BinaryServiceOutcome | Sheridan.SKoin.API/Core/HttpServer.cs:324-333 | a binary service answers null with the 400 bytes, a throw with the 500 bytes, and a payload with the Ok bytes followed by the payload |
| HttpServer.RunServiceOutcome | Sheridan.SKoin.API/Core/HttpServer.cs:307-344 | every service answers its handler's outcome: result 200 with the payload after the Ok bytes, null 400, throw 500 |
| HttpServer.ProcessRequestStatus | Sheridan.SKoin.API/Core/HttpServer.cs:277-287 | the status is 404 exactly when the path is not registered; a registered path runs its service on the request data with the catalog of all services |
| HttpServer.AcceptedShape | Sheridan.SKoin.API/Core/HttpServer.cs:45-50 | every accepted method is keyed by its lower-cased path, and it has a text handler exactly when its attribute declares `Text` |
| HttpServer.RegisterOutcome | Sheridan.SKoin.API/Core/HttpServer.cs:41-56 | registration completes exactly when the accepted paths are new and distinct; otherwise `Dictionary.Add` throws |
| HttpServer.RegisterKeeps | Sheridan.SKoin.API/Core/HttpServer.cs:50 | registration, complete or not, keeps every service that was already registered |
| HttpServer.RegisterPaths | Sheridan.SKoin.API/Core/HttpServer.cs:51-56 | a completed registration returns the accepted paths in method order |
| HttpServer.RegisterKeys | Sheridan.SKoin.API/Core/HttpServer.cs:49-50 | after a completed registration, the paths are the old ones plus the accepted ones and no others |
| HttpServer.RegisterTable | Sheridan.SKoin.API/Core/HttpServer.cs:49-50 | after a completed registration, each accepted service is found under its path |
| HttpServer.RegisterDuplicate | Sheridan.SKoin.API/Core/HttpServer.cs:50 | a failed registration names an accepted path that is already in the table |
| HttpServer.EmptyInput | Sheridan.SKoin.API/Core/HttpServer.cs:239-286 | an empty request is answered 404 unless `""` is registered |
| HttpServer.CutShortResponse | Sheridan.SKoin.API/Core/HttpServer.cs:134-286 | input cut off before the path ends is dispatched with the default path `""` and answered 404 unless it is registered |
| HttpServer.UnknownMethod | Sheridan.SKoin.API/Core/HttpServer.cs:140-155 | a method token other than GET or POST, once its space is read, is answered with the 400 bytes whatever follows |
| HttpServer.WireResponse | Sheridan.SKoin.API/Core/HttpServer.cs:125-287 | a well-formed request read in full is closed without an answer exactly when a header name repeats; otherwise it is answered 404 exactly when its lower-cased path is unregistered, and else by that service on the body |
| HttpServer.RoutingIgnoresCase | Sheridan.SKoin.API/Core/HttpServer.cs:49-166 | after any `AddService` call that completes, on top of whatever table earlier calls built, a request path that matches one of its attribute paths up to ASCII case reaches that service |
| HttpServer.HttpServer.constructor | Sheridan.SKoin.API/Core/HttpServer.cs:28 | a new server has no services |
| HttpServer.HttpServer.AddService | Sheridan.SKoin.API/Core/HttpServer.cs:36-57 | the new service table and the outcome are those of `Register` on the old table |
| HttpServer.HttpServer.AcceptConnection | Sheridan.SKoin.API/Core/HttpServer.cs:125-249 | the byte loop with its switch ends with the connection `Respond` describes: closed on a repeated header, 400 for `Invalid`, else the dispatched response |
| Program.FirstParsedIsFirst | Sheridan.SKoin.API/Program.cs:138-143 | the search returns the value of the first argument that parses, or the default when none does |
| Program.FirstParsedIgnoresLater | Sheridan.SKoin.API/Program.cs:140 | arguments after one that parses are never looked at |
| Program.PortIsFirstParseable | Sheridan.SKoin.API/Program.cs:8-143 | the port is the first argument that parses as a `ushort`; when none parses, including when there are no arguments, it is 8080 |
| Program.LaterArgumentsIgnored | Sheridan.SKoin.API/Program.cs:140 | argument lists that agree up to the first parseable argument give the same port |
| Program.SkipsUnparseable | Sheridan.SKoin.API/Program.cs:138-141 | an argument that does not parse is skipped, not an error |
| Program.DecimalPortAccepted | Sheridan.SKoin.API/Program.cs:140 | the decimal text of any port in 0..65535 is taken as that port |

## Left out

- Sockets are not modelled: accepting, listening, stopping, the `client.Available` polling, `Thread.Sleep`, and writing requests and responses to the console (`HttpServer.cs:63-123, 251-263`). They are I/O. The request is the byte sequence received, and the response is the `Sent` value.
- The clock at `HttpServer.cs:134` becomes the `budget` parameter, the number of loop turns started before the deadline.
- A connection fault inside the outer `try` other than the repeated header (a socket error, for instance) is not modelled. Only `Headers.Add` throws in the modelled code.
- Concurrency between connections is not modelled. Each accepted connection runs on its own callback.
- Reflection is not modelled: `GetConstructor(...).Invoke`, `GetMethods`, `GetCustomAttribute`, `MethodInfo.Invoke` and `ServiceAttribute.GetServices`.
  - A service class is given as its sequence of `ServiceMethod`s, in `GetMethods` order.
  - Each handler is an opaque function.
  - The service instance (`Target`) is not modelled.
- A text handler's result is a Dafny `string`, a sequence of Unicode scalar values, so handler text is taken to be valid Unicode. A C# string holding a lone UTF-16 surrogate, which `Encoding.UTF8.GetBytes` at `HttpServer.cs:321` replaces with the bytes EF BF BD, is not modelled.
- A text handler receives the raw body bytes. The `Encoding.UTF8.GetString` of `HttpServer.cs:314`, with its replacement of malformed sequences, is taken to be part of the handler.
- A meta service is given a catalog: each path maps to its attribute. The `Service[]` it gets at `HttpServer.cs:281` is an array whose order comes from the dictionary, and that order is not modelled.
- `ServiceAttribute.MetaService` is read at `HttpServer.cs:50`, a five-argument attribute constructor that sets it is used at `Services/DocumentationService.cs:7` and `:27`, and a four-argument one at `Services/AccountService.cs:10`, `:37`, `:64` and `:91`; neither the property nor those constructors appear in `ServiceAttribute.cs`. The model gives the attribute a `meta` flag. The declaration of `ServiceType` is not part of the sources shown; the model declares `Text` and `Binary`.
- The `default` branch of `RunService`'s switch (`HttpServer.cs:335-336`) is not modelled. It cannot be reached with the two `ServiceType` values.
- A null attribute path, which would make `ToLower` throw at `HttpServer.cs:49`, is not modelled. Paths are strings.
- HttpParser.ParseMethod, HttpParser.GetToken, HttpParser.PostToken, HttpServer.UnknownMethod: `Enum.TryParse` also accepts numeric strings (`"0"`, `"1"`), comma lists (`"GET,POST"`) and surrounding white space: `"0"` is GET, `"1"` and `"GET,POST"` are POST, and other numbers give a `HttpMethod` value outside the declared ones (`HttpServer.cs:145, 368-372`). The model accepts exactly `GET` and `POST` after upper-casing, so the "exactly when" of GetToken and PostToken and the 400 of UnknownMethod hold for tokens without digits and commas as the model reads them, not for those forms.
- Ascii.ToUpperSpec, Ascii.ToLowerSpec: `string.ToUpper`/`ToLower` are culture-sensitive and map non-ASCII letters too. The model maps the ASCII letters only.
- The unused `requestHeaders` dictionary (`HttpServer.cs:126`) is not modelled.
- `Database.TryConnect`, `TryCreateUser`, `TryGetPassword` and `TrySetPassword` are not modelled. They are SQL over the MySQL client, and the ledger transfer does not use them. SQL text building and the MySQL client itself are foreign.
- MySQL failures are not modelled beyond three kinds:
  - the out-of-range unsigned arithmetic;
  - a row not found;
  - a command that does not reach the server (`Outages`).
- Guids.TryParse: it handles the `D`, `N`, `B` and `P` layouts after trimming white space. The `X` layout (`{0x...,{0x...}}`) and the legacy `0x`/`+` forms of the `D` layout are not modelled.
- Guid creation (`Guid.NewGuid`) is not modelled. It is randomness.
- Numbers.ParseUnsigned: the parameterless `TryParse` uses `NumberStyles.Integer` under the current culture. The model covers leading or trailing white space, one sign, digits and trailing NULs. The current culture's sign symbols are fixed to `+`/`-`; other cultures are not modelled.
- The transfer (`Database.cs:112-144`) keeps no per-account history of transactions.
- The transfer writes no compensating update when a later step fails: a credit that overflows leaves the debit applied, and the result is false (`Database.CreditOverflowKeepsDebit`).
- `TryGetBalance` does not tell a missing account apart from any other failure: its catch (`Database.cs:105-108`) turns every exception into false with a balance of 0. An existing account with balance 0 gives true with 0. The model has no failure other than a missing account.
- `Program.Main`'s console loop and `InitServices` (`Program.cs:12-131`) are not modelled. They are console I/O around `GetSpecifiedPort` and `AddService`.
- `Json.cs`, `Promotion.cs`, `Documentation.cs` and the service classes under `Services/` are not part of this model. They are JSON, clock, reflection and database glue, modelled only as opaque handlers.

## Findings

| source | as written | input that shows it | evidently intended | confidence | as-written member | corrected member |
|---|---|---|---|---|---|---|
| Sheridan.SKoin.API/Database.cs:128 | after a successful transfer, the code builds the log insert but executes the transfer command again, without re-checking the balance; any failure is swallowed | balances 100 and 100, transfer 40: the result is true and the balances are 20 and 180 | execute the log insert: one transfer of 40 (balances 60 and 140) and one row in `Transactions`. This also needs the insert to be given the connection, which `logCommand` at line 126 lacks, and the reserved words `From` and `To` in its column list to be back-quoted; without both, the insert would throw and be swallowed at line 132 | not executed | Database.SecondApplication, Database.WorkedExample | Database.LoggedTransferSpec, Database.Ledger.TryTransactLogged |
