# SystemMonitor back end, modelled in Dafny

SystemMonitor is a desktop telemetry agent. Its native back end
(`src-tauri/src/lib.rs`) exposes a few commands to the front end:

- `get_basic_system_info`: OS name, OS version and host name;
- `get_windows_specific_info`: hardware serial number and Windows activation status;
- `check_internet_connectivity`: pings three public DNS resolvers;
- `send_to_api`: POSTs a JSON payload with an optional bearer token.

Each probe starts child processes: PowerShell, `wmic`, `hostname` or `ping`. The
commands then interpret what those processes print, and substitute a fixed text
wherever a probe gives nothing usable.

This project models those commands and the parsing behind them, and proves
what they promise.

The environment is a function. `run: Command -> CmdOutcome` says what spawning
each command gives:

- either a spawn error with its message;
- or an exit status and the captured standard output.

`send_to_api` works the same way, with `transport: Request -> HttpOutcome`.

The operations that try several processes in turn are methods, written as the
source writes them:
- `get_serial_number` and `check_internet_connectivity` are `for` loops with early returns;
- `get_hostname` is two attempts with early returns.

These methods also return the list of commands they spawned, so "later attempts
are not made" is stated and proved. `get_activation_status` spawns a single
process and has no loop, so it is a function of the environment. The parsing,
the validation and the status table are functions too. Lemmas about those
functions carry the rest.

Files and modules:

- `process.dfy` (`Process`): the commands, their exact PowerShell texts, and process outcomes.
- `text.dfy` (`Text`):
  - `str::trim` over the Unicode White_Space set;
  - `str::lines`;
  - `split(..).nth(..)`;
  - ASCII lower-casing;
  - decimal rendering.
- `serial.dfy` (`Serial`): `get_serial_number`, meaning the five-method chain, the WMIC listing parser and the serial validator.
- `activation.dfy` (`Activation`): `get_activation_status` and the LicenseStatus table.
- `hostname.dfy` (`Hostname`): `get_hostname` with its PowerShell fallback.
- `connectivity.dfy` (`Connectivity`): `check_internet_connectivity` and `ping_host`.
- `api.dfy` (`Api`): `send_to_api`, its headers, and its error texts.
- `system_info.dfy` (`SystemInfo`): the two record-building commands and their fallbacks.
- `wrappers.dfy` (`Wrappers`): `Option` and `Result`.

## Model

| member | source | states |
|---|---|---|
| Serial.GetSerialNumber | src-tauri/src/lib.rs:182-273 | It tries the five methods in table order. It returns `Ok` of the serial of the first method that yields an acceptable one, or `Ok("Desconocido")` when none does, and never `Err`. It spawns exactly the commands of the methods up to and including the successful one. |
| Serial.TryMethod | src-tauri/src/lib.rs:196-264 | One pass of the loop body spawns method `i`'s command and reads what it yields. Any serial it gives passes the validity filter. |
| Serial.SerialOf | src-tauri/src/lib.rs:227-264 | A method yields a serial exactly when its process was spawned, exited successfully, and its processed stdout passes the validity filter. The serial is then that processed stdout. |
| Serial.ProcessedSerial | src-tauri/src/lib.rs:241-251 | The WMIC method parses its listing with `WmicSerial`; the others trim stdout. Either way, the serial has no white space at either end. |
| Serial.WmicSerial | src-tauri/src/lib.rs:242-248 | The WMIC parse runs over `lines()` of stdout (`SerialInLines`). Its result is trimmed. |
| Serial.SerialInLines | src-tauri/src/lib.rs:243-248 | `find`, `split('=').nth(1)`, `unwrap_or("")`, `trim` over the lines. The result is trimmed; `SerialInLinesSpec` states its value. |
| Serial.AcceptedSerialSpelled | src-tauri/src/lib.rs:255 | `IsAcceptedSerial`, the validator: a serial passes exactly when it is not "", not "0", and not "to be filled by o.e.m." in any letter case. |
| Serial.SerialCommandLine | src-tauri/src/lib.rs:197-225 | `SerialCommand`: on Windows the WMIC method runs `wmic bios get serialnumber /value`. Every other method, and every method off Windows, runs `powershell -Command <its query text>`. |
| Serial.WmicNameTest | src-tauri/src/lib.rs:186-197 | Of the five table names, exactly the WMIC entry's spelling equals "WMIC", so the enumeration test is the source's string comparison. |
| Serial.FirstFound | src-tauri/src/lib.rs:194-264 | Gives the position of the first method that yields a serial: every earlier method yields none. It gives the length of the table when no method yields one. |
| Serial.ChainStopsAt | src-tauri/src/lib.rs:255-258 | When method `i` is the first to yield, the chain's serial is method `i`'s and the chain runs `i + 1` methods. |
| Serial.ChainRunsOut | src-tauri/src/lib.rs:194-273 | When no method yields, the chain runs all of them and settles on "Desconocido". |
| Serial.ChainSerialAccepted | src-tauri/src/lib.rs:255-273 | Whatever the environment answers, the reported serial is non-empty, not "0", and not the OEM placeholder. |
| Serial.RejectedPlaceholderSpellings | src-tauri/src/lib.rs:255 | The lower-cased serial equals "to be filled by o.e.m." exactly when the serial is that text with any of its letters in upper case. |
| Serial.FirstStartingWith | src-tauri/src/lib.rs:243-244 | `find` on the lines: the first line starting with the prefix, with no earlier line starting with it. |
| Serial.SerialLineField | src-tauri/src/lib.rs:245 | On a `SerialNumber=` line, the second `=`-piece is the text after the prefix, up to the next `=`. |
| Serial.SerialInLinesSpec | src-tauri/src/lib.rs:241-250 | The WMIC serial is "" when no line starts with `SerialNumber=`. Otherwise it is the trimmed text after the prefix, up to the next `=`, on the first such line. |
| Serial.WmicSerialOfListing | src-tauri/src/lib.rs:241-250 | On a CRLF listing whose first `SerialNumber=` line carries `v` (without `=` or newline), the parser returns `v` trimmed. |
| Serial.WmicListingExample | src-tauri/src/lib.rs:242-250 | On `wmic /value` output whose lines end in `\r\r\n`, the parser gives back the bare serial. |
| Serial.ExampleSerialTrimmed | src-tauri/src/lib.rs:248 | A serial with a trailing carriage return comes out without it. |
| Activation.StatusName | src-tauri/src/lib.rs:298-307 | A single digit 0 to 6 names entry `d` of Unlicensed, Licensed, OOBGrace, OOTGrace, NonGenuineGrace, Notification, ExtendedGrace. Every other text gives "Unknown". |
| Activation.StatusNameInjective | src-tauri/src/lib.rs:298-307 | Different codes never share a status name other than "Unknown". |
| Activation.LicensedExactlyForOne | src-tauri/src/lib.rs:300 | "Licensed" is reported for the code "1" and for no other output. |
| Activation.ActivationStatus | src-tauri/src/lib.rs:276-339 | It fails exactly when PowerShell cannot be spawned, with that error. A successful exit gives the name of the trimmed stdout's code. A non-success exit gives "Unknown". The result is always one of the seven names or "Unknown". |
| Activation.ActivationLicensedIff | src-tauri/src/lib.rs:296-309 | The status is `Ok("Licensed")` exactly when the query exits successfully and its trimmed stdout is "1". |
| Activation.ActivationCommandLine | src-tauri/src/lib.rs:279-294 | `ActivationCommand`: both builds run `powershell -Command <query>`. Only the Windows query also requires the product's name to contain "Windows". |
| Hostname.HostnameIn | src-tauri/src/lib.rs:361-366 | A command gives a host name exactly when it exited successfully with a stdout that is not empty once trimmed. The name is that trimmed stdout. |
| Hostname.GetHostname | src-tauri/src/lib.rs:342-395 | A spawn error of `hostname` returns that error without a fallback. A usable `hostname` result is returned as is. Otherwise `$env:COMPUTERNAME` is asked: its spawn error, its value, or "No se pudo obtener hostname por ningún método". The spawned commands are stated for each case. |
| Connectivity.FirstAnswering | src-tauri/src/lib.rs:120-128 | Gives the first host that answers: no earlier host answered. |
| Connectivity.PingHost | src-tauri/src/lib.rs:418-438 | `ping_host`: a spawn error counts as no answer. Otherwise the host answered exactly when ping exited successfully. |
| Connectivity.PingCommandLine | src-tauri/src/lib.rs:401-416 | `PingCommand`: `ping -n 1 -w 3000 <host>` on Windows, `ping -c 1 -W 3 <host>` elsewhere. |
| Connectivity.CheckInternetConnectivity | src-tauri/src/lib.rs:108-131 | It never fails. It gives `true` exactly when one of 8.8.8.8, 1.1.1.1, 208.67.222.222 answers a ping (a spawn error counts as no answer; this is `ping_host`, lines 398-438). It pings the hosts in order and stops at the first that answers. |
| Api.SendToApi | src-tauri/src/lib.rs:136-179 | It POSTs the payload to the endpoint with the JSON and user-agent headers. It adds `Authorization: Bearer <token>` exactly when a non-empty token is given. The result: 2xx gives the body; a failed body read gives "Error leyendo respuesta: …"; other statuses give "HTTP <code>: <reason>"; a transport failure gives "Error en petición: …". Success means `IsSuccess`, the codes 200 to 299 that `StatusCode::is_success` accepts. |
| Api.AuthorizationHeader | src-tauri/src/lib.rs:145-151 | The request carries at most one Authorization header, present exactly when the token is `Some` and non-empty. |
| Api.HeaderValuesAppend | src-tauri/src/lib.rs:140-148 | Adding headers keeps the earlier ones. |
| Api.StatusErrorRoundTrip | src-tauri/src/lib.rs:170 | `StatusError`, the text built at line 170, reads back to its numeric code and its reason phrase, with "Unknown" when the code has none. |
| Api.ParseStatusErrorOf | src-tauri/src/lib.rs:170 | "HTTP <digits>: <why>" parses to the digits' value and `why`. |
| SystemInfo.GetBasicSystemInfo | src-tauri/src/lib.rs:34-65 | It always succeeds. Missing OS name or version become "Unknown". The host name is `get_hostname`'s, or "Desconocido" when it fails, stated case by case. It is never empty. |
| SystemInfo.GetWindowsSpecificInfo | src-tauri/src/lib.rs:70-103 | It always succeeds. The serial is the chain's and is always an accepted serial. The activation status is `get_activation_status`'s, or "Unknown" on its error, and always one of the known names. |
| Text.Trim | src-tauri/src/lib.rs:297 | The result has no white space at either end. |
| Text.TrimStart | src-tauri/src/lib.rs:297 | The result is a suffix of the input that does not start with white space. |
| Text.TrimEnd | src-tauri/src/lib.rs:297 | The result is a prefix of the input that does not end with white space. |
| Text.TrimStartDropsWhitespace | src-tauri/src/lib.rs:297 | Only white space is removed from the front. |
| Text.TrimEndDropsWhitespace | src-tauri/src/lib.rs:297 | Only white space is removed from the back. |
| Text.TrimIsSlice | src-tauri/src/lib.rs:362 | The trimmed text is a slice of the input with only white space outside it. |
| Text.TrimIdempotent | src-tauri/src/lib.rs:388 | Trimming twice is trimming once. |
| Text.TrimEndKeepsFirst | src-tauri/src/lib.rs:297 | Trimming the end leaves the first character in place. |
| Text.ToLowerAscii | src-tauri/src/lib.rs:255 | Lower-casing keeps the length. |
| Text.ToLowerAsciiAt | src-tauri/src/lib.rs:255 | Lower-casing maps each character independently. |
| Text.IndexOf | src-tauri/src/lib.rs:245 | Gives the first occurrence of the character, or the length when there is none. |
| Text.IndexOfAfter | src-tauri/src/lib.rs:245 | Searching past a prefix without the character offsets the position by the prefix's length. |
| Text.Split | src-tauri/src/lib.rs:245 | `split` always gives at least one piece. |
| Text.SplitJoin | src-tauri/src/lib.rs:245 | Joining the pieces of `split(c)` with `c` gives back the input. |
| Text.SplitPiecesFree | src-tauri/src/lib.rs:245 | No piece of `split(c)` contains `c`. |
| Text.FirstPiece | src-tauri/src/lib.rs:245 | The first piece of `split(c)` is the text up to the first `c`. |
| Text.SplitNthPieces | src-tauri/src/lib.rs:245 | `SplitNth`: `nth(0)` always exists and is the text up to the first `c`, and any piece `nth(n)` gives is free of `c`. |
| Text.UpTo | src-tauri/src/lib.rs:245 | The text before the first separator: a separator-free prefix followed by the separator or the end. |
| Text.SecondPieceAfter | src-tauri/src/lib.rs:245 | In `p + c + rest` (with no `c` in `p`), the second `c`-piece is `rest` up to its first `c`. |
| Text.LinesHaveNoNewline | src-tauri/src/lib.rs:243 | `Lines`: no line contains `\n`, and only the empty text has no lines. |
| Text.LinesOfJoinCrlf | src-tauri/src/lib.rs:243 | `lines` splits CRLF-terminated text back into its lines. |
| Text.NatToDecimal | src-tauri/src/lib.rs:170 | A number is rendered as a non-empty string of digits that starts with 0 only for zero. |
| Text.DecimalRoundTrip | src-tauri/src/lib.rs:170 | Reading the rendered digits gives back the number. |

## Left out

- The model covers `src-tauri/src/lib.rs` only; the front end that calls these commands is not modelled. `send_to_api` makes a single attempt, and the two record commands never fail but fall back to fixed texts.
- Process spawning is not executed. `run` stands for the operating system: it is a fixed function of the command, so asking the same command twice gives the same answer. Stderr, `creation_flags`, the piped/null stdio set-up and ping's timeouts are not modelled. Timeouts appear only as the arguments they pass.
- `String::from_utf8_lossy` is not modelled: stdout is taken as already-decoded text.
- `Text.ToLowerAscii` lower-cases only ASCII letters, not all of Unicode as `str::to_lowercase` does. It is used only for the comparison with "to be filled by o.e.m.", which has no letter whose lower case differs between the two. Two characters could differ: the Kelvin sign would lower-case to `k`, which the placeholder lacks, and `İ` lower-cases to two characters.
- The serial method names are an enumeration (`Serial.MethodName`, spelled out by `NameText`). The code only ever compares a name with "WMIC", and the enumeration's `Wmic` entry is equal exactly where that comparison holds.
- `Text.Lines` follows the current `str::lines`: a `\r` is removed only in front of a `\n`, and a bare trailing `\r` stays in the last line.
- The `sysinfo` library is not modelled: the OS name and version are `Option<string>` parameters of `GetBasicSystemInfo`.
- `reqwest` is not modelled: the transport is the `transport` parameter. A response's canonical reason phrase is a field of the response, not a table of codes. So is its body, whose reading can fail.
- Async execution and Tauri's `run()` (plugin set-up, logging targets, command registration) are not modelled. Neither is `greet` or any logging.
- The second `if output.status.success()` block of `get_activation_status` (lines 312-337) is left out. It can never execute: its guard is already false there, because the first block returns whenever it holds.
- In `get_windows_specific_info` the "Unknown" fallback for a serial error is kept, but the model proves it unreachable: `GetSerialNumber` never returns `Err`.
- "Desconocido" is both the serial reported when no method succeeds and an accepted serial. A machine whose serial really is "Desconocido" cannot be told apart from one without a serial.
