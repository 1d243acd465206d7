# Leave-request tool of the MCP server, in Dafny

The MCP server (`MyMcpServer`) offers a static tool class, `LeaveRequestTool`, that a
client calls remotely. It has two deterministic operations, and this project models them:

- `GetLeaveRecordAmount(employeeName)` looks up how many leave days an employee has on
  record. It compares the lower-cased name with `"david"` (5 days) and `"eric"` (8 days).
  Every other name gets 3 days.
- `LeaveRequest(請假起始日期, 天數, 請假事由, 代理人, 請假者姓名)` takes a leave request:
  start date, day count, reason, deputy and requester. If any of the four text fields is
  null or empty, it returns a fixed failure message. Otherwise it returns a confirmation
  sentence built by string interpolation.

Files:

- `wrappers.dfy` (module `Wrappers`): `Option` (C# `null` is `None`) and `Result` (a
  returned value, or a thrown exception).
- `dotnet_text.dfy` (module `DotNetText`): the .NET string operations the tool relies on,
  on `seq<char>`:
  - `string.IsNullOrEmpty`;
  - `ToLower` on ASCII letters, with a reference relation `EqualsIgnoringCase`;
  - `int.ToString()` as `IntToDecimal`, with a reader `ParseDecimal` that inverts it;
  - `Contains`, which the tool does not call; it states what a caller can test in the answer;
  - interpolated strings as a list of literal and hole segments.
- `leave_request_tool.dfy` (module `LeaveRequestTool`): the two operations and their
  properties.

A C# `int` is the newtype `Int32` (range -2^31 .. 2^31-1). The tool does no arithmetic on it,
so no wrap-around arises.

## Model

| member | source | states |
|---|---|---|
| `LeaveRequestTool.GetLeaveRecordAmount` | MyMcpServer/LeaveRequestTool.cs:8-16 | A null name throws (`ToLower` on null) and nothing else fails. A non-null name gets a value in {3, 5, 8}: 5 exactly when it equals "david" ignoring case, 8 exactly when it equals "eric" ignoring case, 3 otherwise |
| `LeaveRequestTool.AmountIgnoresCase` | MyMcpServer/LeaveRequestTool.cs:10-13 | Two names that differ only in letter case get the same answer, because the comparison is made on lower-cased names |
| `LeaveRequestTool.AmountDefault` | MyMcpServer/LeaveRequestTool.cs:14-15 | Any name that is neither "david" nor "eric" in some casing gets 3, the empty name included |
| `LeaveRequestTool.AmountExamples` | MyMcpServer/LeaveRequestTool.cs:8-16 | "David" and "DAVID" give 5, "eRiC" gives 8, "" and "david " (no trimming) give 3, null throws |
| `LeaveRequestTool.LeaveRequest` | MyMcpServer/LeaveRequestTool.cs:19-35 | The answer is the failure message if and only if start date, reason, deputy or requester is null or empty. Otherwise it is requester, " 請假 ", the day count in decimal, " 天，從 ", start date, " 開始，事由為 ", reason, "，代理人 ", deputy, in that order |
| `LeaveRequestTool.MissingRequiredField` | MyMcpServer/LeaveRequestTool.cs:26-29 | Definition of the guard: one of start date, reason, deputy and requester is null or empty |
| `LeaveRequestTool.ConfirmationTemplate` | MyMcpServer/LeaveRequestTool.cs:33 | The interpolated confirmation has nine segments, holes and literal text alternating, starting and ending with a hole |
| `LeaveRequestTool.ConfirmationSpelledOut` | MyMcpServer/LeaveRequestTool.cs:33 | Bridge between the model of interpolation and a flat string: interpolating the nine segments gives their texts concatenated. It states no property of the program beyond the template |
| `LeaveRequestTool.FailureLacksSeparator` | MyMcpServer/LeaveRequestTool.cs:31 | The failure message does not contain " 開始，事由為 " |
| `LeaveRequestTool.ConfirmationHasSeparator` | MyMcpServer/LeaveRequestTool.cs:33 | Every confirmation contains " 開始，事由為 " |
| `LeaveRequestTool.ConfirmationNotFailure` | MyMcpServer/LeaveRequestTool.cs:31-33 | No confirmation, whatever its fields, equals the failure message |
| `LeaveRequestTool.OutcomeDistinguishable` | MyMcpServer/LeaveRequestTool.cs:26-34 | A caller can tell the outcomes apart by content: the answer contains " 開始，事由為 " if and only if every required field is present |
| `LeaveRequestTool.DaysNotValidated` | MyMcpServer/LeaveRequestTool.cs:21-34 | The day count is never checked: with the four text fields present, any count, zero or negative included, gives a confirmation with the count's decimal form right after the requester and " 請假 " |
| `LeaveRequestTool.DaysRecoverable` | MyMcpServer/LeaveRequestTool.cs:33 | The confirmation determines the day count: two requests that differ only in the count give different answers |
| `DotNetText.IsNullOrEmpty` | MyMcpServer/LeaveRequestTool.cs:26-29 | Definition of `string.IsNullOrEmpty`: null, or no characters |
| `DotNetText.Interpolate` | MyMcpServer/LeaveRequestTool.cs:33 | Definition of an interpolated string: the texts of its segments, concatenated in order |
| `DotNetText.InterpolateContains` | MyMcpServer/LeaveRequestTool.cs:33 | An interpolated string contains the text of every one of its segments, literal or hole |
| `DotNetText.InterpolateAppend` | MyMcpServer/LeaveRequestTool.cs:33 | Interpolation is compositional: interpolating two segment lists one after the other gives the two interpolations concatenated |
| `DotNetText.ToLower` | MyMcpServer/LeaveRequestTool.cs:10 | Lower-casing keeps the length, leaves no ASCII upper-case letter, and changes each character only to the same letter in the other case |
| `DotNetText.ToLowerEqualIff` | MyMcpServer/LeaveRequestTool.cs:10-12 | Two strings lower-case to the same string if and only if they are equal ignoring case (both directions) |
| `DotNetText.ToLowerIdempotent` | MyMcpServer/LeaveRequestTool.cs:10 | Lower-casing an already lower-cased string changes nothing |
| `DotNetText.NatToDecimal` | MyMcpServer/LeaveRequestTool.cs:33 | The decimal form of a natural number is a non-empty string of digits with no leading zero |
| `DotNetText.IntToDecimal` | MyMcpServer/LeaveRequestTool.cs:33 | The decimal form of `天數` starts with '-' exactly when the count is negative. A negative count has at least one digit after the '-', and the first of them is not '0'. A non-negative count renders as digits only, with a leading '0' only for zero, and then alone |
| `DotNetText.NatToDecimalValue` | MyMcpServer/LeaveRequestTool.cs:33 | The digits of a natural number's decimal form evaluate back to the number |
| `DotNetText.DecimalRoundTrip` | MyMcpServer/LeaveRequestTool.cs:33 | Reading back the decimal form of any integer gives that integer |
| `DotNetText.IntToDecimalInjective` | MyMcpServer/LeaveRequestTool.cs:33 | Distinct day counts have distinct decimal forms |

## Left out

- `GetCurrentDate` (MyMcpServer/LeaveRequestTool.cs:38-41): it reads the system clock and uses library date formatting, so there is no deterministic behaviour to state.
- MyMcpServer/Program.cs: host start-up, console logging and the MCP stdio transport. It is I/O and library wiring.
- The `[McpServerToolType]`, `[McpServerTool]` and `[Description]` attributes: registration metadata for the transport, with no behaviour.
- `DotNetText.ToLower`: only ASCII letters are case-mapped. Culture-specific mappings of .NET's `ToLower` (for example the Turkish dotted and dotless i) and non-ASCII letters are not modelled.
- `LeaveRequestTool.GetLeaveRecordAmount`: it is stated for a culture-neutral `ToLower`. Under a Turkish current culture, `'I'` lower-cases to the dotless `'ı'`, so "DAVID" and "ERIC" would get 3 there. The model does not capture that.
- Strings are sequences of Unicode scalar values, while a C# `string` is a sequence of UTF-16 code units. Lone surrogates cannot be represented. Lengths and offsets, such as the offset in `LeaveRequestTool.DaysNotValidated`, count scalar values rather than C# `char`s.
- `DotNetText.IntToDecimal`: it renders with the invariant culture's '-' sign. Culture-specific number formatting of `int.ToString()` is not modelled.
- `DotNetText.ParseDecimal` reads back only what `IntToDecimal` writes. It is not a model of `int.Parse`, which also accepts signs, white space and culture formats.
- C# string interpolation is modelled as concatenation of segment texts. The handler and buffer machinery the compiler generates for `$"..."` is not modelled.
