# gohsflowd host-telemetry agent, modelled in Dafny

gohsflowd is a small agent that samples a Linux host's CPU and memory counters
every five seconds and sends them to an sFlow collector as UDP datagrams. This
project models the logic that is the agent's own, all of it in `main.go`:

- **Memory reader** (`getMemStats`, `meminfoHelper`): the content of
  `/proc/meminfo` is read line by line with `ReadString('\n')`; each line is
  split at `:`; six exact keys (`MemTotal`, `MemFree`, `Buffers`, `Cached`,
  `SwapTotal`, `SwapFree`) route the value to one field of a six-field record;
  the value is trimmed, its text before the first space is parsed with
  `strconv.Atoi`, and the number is multiplied by 1024 in `uint64` arithmetic
  (0 if Atoi fails).
- **Host address** (`getIP`): interfaces are scanned in order, skipping those
  that are down or loopback; for the others the addresses are scanned in order
  and the first non-nil, non-loopback IP is returned; an `Addrs()` error or a
  failed enumeration returns nil; if nothing is found the result is `::1`.
- **Batch assembly** (lines 37-50 of `main`): the CPU record and the memory
  record are appended to the sample's record list when their readers returned
  no error, CPU first.

Files and modules:

| file | module | contents |
|---|---|---|
| `base.dfy` | `Base` | `Option`, `Result` (Go's value/error pair), `U64` (Go's `uint64`), int64 bounds |
| `strings.dfy` | `Strings` | Go's `unicode.IsSpace`, `strings.IndexByte`, `Split`, `Join`, `TrimSpace` on one-character separators |
| `sequences.dfy` | `Sequences` | general facts about slicing and concatenating sequences, used by the line reader's proofs |
| `strconv.dfy` | `Strconv` | `strconv.Atoi` on a 64-bit platform and its inverse `Itoa` |
| `meminfo.dfy` | `MemInfo` | the memory record, `meminfoHelper`, the line reader, `getMemStats` |
| `hostaddress.dfy` | `HostAddress` | `net.IP.IsLoopback`, interfaces and addresses, `getIP` |
| `agent.dfy` | `Agent` | the counter sample and one tick's batch assembly |

How the imperative code is modelled:

- `GetMemStats` is a method with a `while` loop over the text, one iteration per
  `ReadString` that finds a newline; the local record `m` (a Go struct value) is
  a datatype value reassigned field by field by `SwitchOnKey`, the loop body's
  `switch`. The method is proved equal to `MemStats(text)`, a fold of
  `ApplyLine` over `Lines(text)`, and the properties are proved about those
  functions.
- `GetIP` keeps the two nested `range` loops with their `continue`s and early
  returns, and is proved equal to `HostIP`, whose scan is characterised by the
  lemmas `ScanFindsFirst`, `ScanStopsAtError` and `ScanNotFound`.
- `AssembleBatch` appends to a local sequence as `main` appends to `stats`.

Behaviour of the code worth knowing, all of it modelled and proved:

- `getIP` returns nil, not `::1`, when `net.Interfaces()` or the `Addrs()` of a
  reached interface fails (main.go:137, main.go:149). A qualifying interface
  with no usable address passes the scan on to the next interface.
- The number in a memory value is the text before the first space of the
  trimmed value, so a tab between the number and the unit makes it unreadable
  and the value reads as 0 (`MeminfoHelperTabBeforeUnit`).
- The value of a line is `parts[1]`, the text between its first and second `:`,
  not everything after the first `:`.
- A final line without a newline is never read, because `ReadString` reports it
  with `io.EOF` and the loop stops (`UnterminatedTailIgnored`).

## Model

| member | source | states |
|---|---|---|
| `Strings.Split` | main.go:105 | `strings.Split` always yields at least one piece; no piece contains the separator; a string without the separator splits into itself, and one with it into at least two pieces |
| `Strings.JoinSplit` | main.go:105 | joining the pieces of a split with the separator gives back the original line |
| `Strings.SplitJoin` | main.go:105 | splitting a join of separator-free pieces gives back the pieces |
| `Strings.TrimSpace` | main.go:126 | the trimmed value is empty or begins and ends with a non-space character |
| `Strings.TrimSpacePadded` | main.go:126 | `TrimSpace` removes exactly the white-space padding around a core that neither starts nor ends with white space |
| `Strconv.Atoi` | main.go:127 | Atoi succeeds only on an optional sign followed by decimal digits, and only with a value in the int64 range; an empty string or one starting with any other character fails |
| `Strconv.AtoiItoa` | main.go:127 | Atoi reads back every int64 written in decimal, so every representable count is parsed exactly |
| `Strconv.AtoiSignedDigits` | main.go:127 | every optional sign followed by digits is accepted, leading zeros and `+` included, with its signed value when that fits in int64, and rejected when it does not; with Atoi's own contract this decides Atoi on every string |
| `Strconv.AtoiRejects` | main.go:127 | a lone `-` and `12abc` are rejected |
| `MemInfo.MeminfoHelper` | main.go:125-132 | the result is always a multiple of 1024; `MeminfoHelperBlank` gives its value on blank values, and `MeminfoHelperReadsInteger` and `MeminfoHelperNotInteger` give it for every first token, integer or not, in the shape `ValueShape` proves every other value has |
| `MemInfo.MeminfoHelperReadsNumber` | main.go:125-131 | for a value made of white space, a number n and then white space or a space and a unit, the result is `uint64(n) * 1024` modulo 2^64, and exactly n * 1024 for 0 <= n < 2^54 |
| `MemInfo.ValueShape` | main.go:126-127 | every value that is not blank is white space, then a first token holding no space and not starting with white space, then either white space only (the token then not ending with white space) or a space and text that is not all white space |
| `MemInfo.MeminfoHelperReadsInteger` | main.go:125-131 | for any optional sign and digits as the first token, the result is `uint64(n) * 1024` modulo 2^64 when n fits in int64, and 0 when it does not |
| `MemInfo.MeminfoHelperNotInteger` | main.go:126-130 | a first token that is not an optional sign followed by digits (`12abc`, a lone sign, `2048\tkB`, or `2048\t` followed by ` kB`) gives 0; the token may end in white space other than a space when a space and more text follow it |
| `MemInfo.MeminfoHelperWhiteBeforeSpace` | main.go:126-130 | a number followed by a tab or other non-space white space and then a space and a unit, as in `2048\t kB`, gives 0 |
| `MemInfo.MeminfoHelperTabBeforeUnit` | main.go:126-130 | a number followed by a tab and a unit, such as `2048\tkB`, gives 0 |
| `MemInfo.ToUint64` | main.go:131 | `uint64(n)` keeps a non-negative count and wraps a negative int64 to n + 2^64 |
| `MemInfo.NoWrap` | main.go:131 | below 2^54 neither the conversion to uint64 nor the multiplication wraps |
| `MemInfo.MeminfoHelperBlank` | main.go:126-130 | an empty or white-space-only value gives 0 |
| `MemInfo.MeminfoHelperNotNumber` | main.go:126-130 | a value whose first non-space character is not a digit or a sign gives 0 |
| `MemInfo.ExampleValue` | main.go:125-131 | the value `"   2048 kB\n"` gives 2097152 |
| `MemInfo.FieldNamed` | main.go:106-119 | a key selects field f exactly when it equals f's key; matching is exact, so case or spaces make a different key |
| `MemInfo.ApplyLine` | main.go:105-119 | a line whose key is recognised has a value part and sets exactly that key's field to `meminfoHelper` of `parts[1]`, the text between the first and the second `:`; a line with any other key changes no field |
| `MemInfo.SwitchOnKey` | main.go:104-119 | the loop body's split and `switch` on the six literal keys has exactly the effect `ApplyLine` describes |
| `MemInfo.Lines` | main.go:103 | every line handed to the loop ends with its only newline |
| `MemInfo.LinesCover` | main.go:103 | the lines, concatenated, are the text up to its last newline, and what follows contains no newline |
| `MemInfo.LinesAppend` | main.go:103 | after a newline the reader continues with the lines of the rest of the text, so lines are read in order |
| `MemInfo.UnterminatedTailIgnored` | main.go:103 | text after the last newline does not affect the record |
| `MemInfo.ParseLines` | main.go:100-120 | starting from the zero record and applying the lines in order, every field is a multiple of 1024 |
| `MemInfo.MemStats` | main.go:100-122 | the record read from a text has every field a multiple of 1024, and a text without a newline gives the zero record |
| `MemInfo.AbsentKeyIsZero` | main.go:100-119 | a recognised key that no line carries leaves its field at 0 |
| `MemInfo.LastWriteWins` | main.go:103-119 | when a key occurs on several lines, its field holds the value of the last of them |
| `MemInfo.UnrecognisedLineIgnored` | main.go:106-119 | removing a line with an unrecognised key, wherever it stands, does not change the record |
| `MemInfo.MemTotalExample` | main.go:94-132 | a file holding `MemTotal:   2048 kB` reports a total of 2048 * 1024 bytes |
| `MemInfo.GetMemStats` | main.go:94-123 | the reader fails exactly when the file cannot be opened; otherwise it succeeds with the record of the file's newline-terminated lines |
| `HostAddress.To4` | main.go:159 | the IPv4 form used by `IsLoopback` has four bytes |
| `HostAddress.IsLoopback` | main.go:159 | a 4-byte IP is loopback exactly when its first byte is 127; a 16-byte IP exactly when it is `::1` or an IPv4-mapped address whose IPv4 part starts with 127; an IP of any other length (nil included) never is |
| `HostAddress.AddrIP` | main.go:152-158 | an `*net.IPNet` or `*net.IPAddr` contributes its IP, possibly nil; any other address type contributes none |
| `HostAddress.FirstUsable` | main.go:151-163 | no address is returned exactly when no address carries a non-nil, non-loopback IP; a returned IP is never loopback |
| `HostAddress.FirstUsableIsFirst` | main.go:151-163 | the returned IP is that of the earliest usable address |
| `HostAddress.ScanInterfaces` | main.go:140-164 | an IP found by the scan is not loopback and is the first usable address of some qualifying interface; a scan that fails does so because some qualifying interface's `Addrs()` failed |
| `HostAddress.HostIP` | main.go:134-166 | the result is `::1` exactly when enumeration worked and the scan found nothing, nil exactly when enumeration or a reached `Addrs()` failed, and otherwise a non-loopback address |
| `HostAddress.ScanFindsFirst` | main.go:140-163 | the scan returns the first usable address of the first qualifying interface that has one, provided every qualifying interface before it listed its addresses without a usable one |
| `HostAddress.ScanStopsAtError` | main.go:147-150 | an `Addrs()` error on a qualifying interface reached before any hit ends the scan with nil |
| `HostAddress.ScanNotFound` | main.go:140-166 | the scan finds nothing exactly when every qualifying interface listed its addresses and none is usable |
| `HostAddress.SkippedInterfacesIgnored` | main.go:141-146 | interfaces that are down or loopback are not inspected: what their `Addrs()` would return does not change the result |
| `HostAddress.NoQualifyingInterface` | main.go:140-166 | with every interface down or loopback the result is `::1` |
| `HostAddress.SingleInterfaceExample` | main.go:134-168 | one up, non-loopback interface bound to 10.0.0.5 gives 10.0.0.5 |
| `HostAddress.GetIP` | main.go:134-168 | the nested scan with its early returns computes `HostIP` |
| `Agent.AssembleBatch` | main.go:37-50 | the sample holds the CPU record iff the CPU reader succeeded and the memory record iff the memory reader succeeded, CPU before memory, and as many records as readers succeeded |
| `Agent.Tick` | main.go:37-50 | with the memory reader run on the file, the sample holds the memory record of the file's lines exactly when the file could be opened, and the CPU record exactly when the CPU reader succeeded; the CPU record comes before the memory record |

## Left out

- `getCpuStats` (main.go:65-92): load averages are floating point, parsing relies on `fmt.Sscanf`'s format semantics with its errors ignored, and `runtime.NumCPU` is a foreign call; its result is an input (`Result<Cpu>` with an opaque `Cpu` record).
- The `time.Tick` loop, the 5-second period and `buf.Reset` (main.go:36, main.go:61): timer-driven plumbing; one tick is modelled by `Agent.Tick`.
- `udpchan.Connect`, the channel send and the fatal exit when connecting fails (main.go:27-30, main.go:55): network transport in a library that is not part of this model.
- `sflow.NewEncoder` and `Encode` (main.go:34, main.go:52): the sFlow wire encoding lives in a library that is not part of this model; records and samples are opaque values, and the host address is not passed on.
- Flag parsing and logging (main.go:22-23, main.go:56-58): no logic beyond I/O.
- Opening and reading `/proc/meminfo`: the model takes the readable content as text, or None when `os.Open` fails. A read error in the middle of the file stops the loop exactly as the end of the file does, so it is modelled as text that ends there. The handle is never closed in the source; that is a resource matter and is not modelled.
- `net.Interfaces()` and `Addrs()`: their results are inputs. Interface names, indexes and flags other than up and loopback are not modelled.
- Strings are modelled as sequences of Unicode code points, so the text is assumed to be valid UTF-8; how `TrimSpace` treats invalid bytes is not modelled.
- `net.IP.IsLoopback` and `To4` follow Go's `net` package, which is not part of this model; other `net.IP` methods are not used.
