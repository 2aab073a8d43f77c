# WhoSpy rendezvous: room codes, ports and local-address discovery

WhoSpy is a small LAN chat over QUIC. A server and a client find each other
through a four-character **room code**. The server builds the code from the last
field of its own IPv4 address, padded with `'0'` to three characters, and adds
one random digit. It listens on port `int("1" + code)`. The user types the code
into the client. The client takes its own address without the last field as the
subnet, rebuilds the server's last field from the first three characters of the
code without their leading `'0'`s, and connects to the same port.

Both sides first find their local address in the text printed by `ipconfig` or
`ip addr`:

- `server.py` and `client.py` take the first match of the regular expression
  `\b(192\.\d{1,3}\.\d{1,3}\.\d{1,3}|10\.\d{1,3}\.\d{1,3}\.\d{1,3})\b`.
- `quicd/server2.py` scans the text line by line. It skips sections that start
  at a `tun` line and end at the next adapter (`适配器`) line. On every `IPv4`
  line outside skipped sections it collects the stripped text between the first
  and second `:`, and it returns the first one collected.

The Dafny model has six modules:

| module | file | models |
|---|---|---|
| `PyStr` | `py_str.dfy` | the Python built-ins the code uses: `in`, `str.split`, `str.join`, `str.strip`, `str.zfill`, `int()` |
| `AddressExtract` | `extract.dfy` | `get_local_ip_via_os_command`'s pattern search, with the regular-expression engine's backtracking order |
| `RoomServer` | `room_server.dfy` | server.py's room code and port |
| `RoomClient` | `room_client.dfy` | client.py's subnet prefix, prompt loop, zero stripping, host and port |
| `QuicdServer` | `quicd_server.dfy` | `getIpcfg` and `_start_server` of quicd/server2.py |
| `RoundTrip` | `round_trip.dfy` | what the client rebuilds from the server's code |

Inputs from outside become parameters:

- The text the address command prints is `output`. It is an `Option<string>` for
  server.py and client.py, where `None` stands for every path that returns
  `None` before the search: an unsupported system, a failing or missing command,
  or any other exception.
- The digit `random.randint(0, 9)` returns is `r`.
- The lines the user types at the prompt are the sequence `inputs`.
- Which characters are word characters for `\b` is the predicate `isWord`.

Python exceptions are the values of `PyStr.PyError`.

Three behaviours of the code are easy to miss:

- The client checks only the length of the code, not that it is four digits.
  A code such as `"12_3"` or `"123 "` is taken, and `int()` accepts it: the
  port is 1123. This is shown by `RoomClient.UnderscoreCode` and
  `RoomClient.SpacedCode`. A code ending in the control character U+001F is
  taken too, but `int()` rejects it (`RoomClient.UnitSeparatorCode`).
- A last field worth 0 is not turned into `"0"`. The client's host ends in a
  bare `.`, which is shown by `RoundTrip.ZeroOctet`.
- When no address is found, server.py does not stop with an error of its own.
  The code keeps its placeholder text and `int()` raises `ValueError`
  (`RoomServer.NoAddress`). client.py fails with `AttributeError` on `None`.

## Model

| member | source | states |
|---|---|---|
| `PyStr.Find` | quicd/server2.py:27 | the leftmost occurrence of a substring, or none at any position; `'IPv4' in line` is `Find(...).Some?` |
| `PyStr.SplitOn` | quicd/server2.py:19-24 | `s.split(sep)` has at least one piece, and more than one exactly when `sep` occurs in `s`; this is what the `len(line.split(...)) > 1` tests rely on |
| `PyStr.JoinSplit` | client.py:74-76 | joining the pieces of `s.split(sep)` with `sep` gives back `s` |
| `PyStr.JoinSnoc` | client.py:75-76 | joining all pieces equals joining all but the last, then `sep`, then the last piece |
| `PyStr.Join` | client.py:76 | `sep.join(parts)` starts with the first piece |
| `PyStr.LStripShape` | quicd/server2.py:28 | stripping from the left removes exactly the leading run of characters of the given kind |
| `PyStr.RStripShape` | quicd/server2.py:28 | stripping from the right removes exactly the trailing run of characters of the given kind |
| `PyStr.Strip` | quicd/server2.py:28 | `strip()` returns a piece of the text that neither starts nor ends with white space, and is empty exactly when the text is all white space |
| `PyStr.ZFill` | server.py:77 | `zfill(w)` has length `max(len, w)` and leaves a string of length at least `w` unchanged |
| `PyStr.ZFillDigits` | server.py:77 | padding a digit string adds only leading `'0'`s: it still ends with the original text, and its numeric value is unchanged |
| `PyStr.ParseInt` | server.py:84 | `int()` fails only with `ValueError`; of a non-empty ASCII digit string of at most 4300 digits it is the string's decimal value, and a longer one exceeds the digit limit and raises `ValueError` |
| `PyStr.ParseLeadingOne` | server.py:84 | `int("1" + d)` of a digit string `d` shorter than the digit limit is `10^len(d)` plus the value of `d` |
| `PyStr.ParseRejects` | client.py:91 | after a leading digit, a character that is not a digit, not an underscore and not white space to `int()` (only space, `\t`, `\n`, `\v`, `\f`, `\r` below code 127), in ASCII or among the CJK ideographs, makes `int()` raise `ValueError` |
| `AddressExtract.WordBoundaryEnds` | server.py:50 | `\b` never holds in the empty text, and at either end of the text it holds exactly when the character there is a word character |
| `AddressExtract.TryGroup` | server.py:50 | a choice of `k` digits for `\d{1,3}` that leads to a match ends at least `k` characters later, within the text |
| `AddressExtract.Groups` | server.py:50 | a chain of `\d{1,3}` groups that matches ends after where it started, within the text |
| `AddressExtract.MatchAt` | server.py:50 | a match anchored at `i` ends after `i`, within the text |
| `AddressExtract.LeftmostMatch` | server.py:53-57 | the position returned is at or after the start, and the pattern matches there |
| `AddressExtract.NoMatchBefore` | server.py:53-57 | no position before the one returned matches: `matches[0]` is the leftmost match |
| `AddressExtract.NoMatchAnywhere` | server.py:55-60 | when nothing is returned, the pattern matches at no position |
| `AddressExtract.MatchShape` | server.py:50 | every match is four dot-separated fields of 1 to 3 digits, the first `"192"` or `"10"`, with a `\b` at both ends |
| `AddressExtract.LocalAddress` | server.py:50-60 | no command output gives `None`; any address returned occurs in the output and has four dot-separated digit fields of 1 to 3 characters, the first `"192"` or `"10"`, so `split('.')[3]` exists |
| `AddressExtract.MatchComplete` | client.py:50 | conversely, such an address between two `\b` positions is matched where it starts |
| `AddressExtract.LocalAddressComplete` | client.py:50-57 | the extractor returns an address whenever the text holds one, and it starts no later than that one |
| `RoomServer.RoomCode` | server.py:75-78 | a missing or empty address keeps the placeholder; otherwise indexing the fourth field raises `IndexError` exactly when the address has fewer than four fields, and with four or more the code is the fourth field padded to three characters followed by the digit `r` |
| `RoomServer.Port` | server.py:84 | the conversion fails only with `ValueError`, and a four-digit code gives a port in [10000, 19999] |
| `RoomServer.RoomCodeShape` | server.py:76-78 | for an extracted address the code is four digits: the fourth field padded with `'0'` to three characters (a three-digit field unchanged, same value), then the digit `r` |
| `RoomServer.CodeOfField` | server.py:77-78 | the code of a field `f` and digit `r` is worth `10 * f + r` |
| `RoomServer.ParseFourDigits` | server.py:84 | `int("1" + code)` of a four-digit code is `10000` plus the code's value |
| `RoomServer.PortTooLong` | quicd/server2.py:52-58 | a digit code of 4300 or more digits, which a long fourth address field gives, makes `int("1" + code)` raise `ValueError` |
| `RoomServer.PortOfDigits` | server.py:84 | the port of a four-digit code is `10000 + code`, within [10000, 19999] |
| `RoomServer.ServerPort` | server.py:76-84 | the port is `10000 + 10 * (fourth field) + r`, within [10000, 19999] |
| `RoomServer.SentinelPort` | server.py:84 | `int("1" + "获取失败！")` raises `ValueError` |
| `RoomServer.NoAddress` | server.py:73-84 | with no address the code stays the placeholder and the port conversion raises `ValueError` |
| `RoomServer.ServerRendezvous` | server.py:73-84 | with no address the port conversion raises `ValueError`; a result listens on `0.0.0.0` on the port of its code |
| `RoomServer.ServerRendezvousFound` | server.py:73-84 | with an address found: a four-digit code ending in `r`, host `0.0.0.0`, port `10000 + 10 * (fourth field) + r` in [10000, 19999] |
| `RoomClient.SubnetPrefixOf` | client.py:74-76 | the address up to its last `.`, with no `.` after it, or the empty text when the address has no `.` |
| `RoomClient.SubnetPrefix` | client.py:74-76 | split, pop and join computes the subnet prefix |
| `RoomClient.WellFormedPrefix` | client.py:74-76 | for a four-field address `a.b.c.d` the prefix is `a.b.c` |
| `RoomClient.FirstCodeAt` | client.py:78-81 | the first input line of length 4, with every earlier line of another length, or none of length 4 |
| `RoomClient.FirstCode` | client.py:78-81 | the code accepted is an input line of length 4, and there is none exactly when no line has length 4 |
| `RoomClient.PromptCode` | client.py:78-81 | the loop returns the first line of length exactly 4 (only the length is checked) after reading exactly the lines up to it, and `EOFError` when there is none |
| `RoomClient.DropLast` | client.py:82 | `code[:-1]` is the code without its last character |
| `RoomClient.TrimZeros` | client.py:83-87 | the result is a suffix of the text, everything removed is `'0'`, and the result does not start with `'0'` |
| `RoomClient.StripLeadingZeros` | client.py:82-87 | the `for`/`break` loop removes exactly the leading `'0'`s |
| `RoomClient.TrimZerosValue` | client.py:83-87 | removing leading zeros keeps a digit string's value |
| `RoomClient.TrimZerosEmpty` | client.py:83-87 | the result is empty exactly when every character is `'0'` |
| `RoomClient.HostSuffix` | client.py:82-87 | for a four-character code, its first three characters without their leading `'0'`s; shorter than the code, and never starting with `'0'` |
| `RoomClient.TargetOf` | client.py:73-91 | `AttributeError` without an address, then `EOFError` without a code, then `ValueError` from the port conversion; otherwise the prefix, a dot and the rebuilt field, on the code's port |
| `RoomClient.ClientTarget` | client.py:73-91 | `AttributeError` when no address was found, `EOFError` when no line has length 4, and a target only when both exist |
| `RoomClient.ClientSetup` | client.py:73-91 | the module body, step by step, computes `ClientTarget` |
| `RoomClient.ClientTargetDigits` | client.py:73-91 | with an address and a four-digit code, the host is the prefix, a dot and the rebuilt field, and the port is `10000 + code` in [10000, 19999] |
| `RoomClient.ZeroCode` | client.py:82-90 | a code starting `"000"` gives an empty suffix: the host is the prefix and a bare dot |
| `RoomClient.NonNumericCode` | client.py:91 | a code holding a character that is not a digit, not an underscore and not white space to `int()`, in ASCII or among the CJK ideographs, makes the port conversion raise `ValueError` |
| `RoomClient.UnderscoreCode` | client.py:78-91 | the code `"12_3"` passes the length check and gives port 1123 |
| `RoomClient.SpacedCode` | client.py:78-91 | the code `"123 "` passes the length check and gives port 1123 |
| `RoomClient.UnitSeparatorCode` | client.py:78-91 | the code `"123"` followed by U+001F passes the length check, and the port conversion raises `ValueError` |
| `QuicdServer.SplitTestsAreContains` | quicd/server2.py:19-24 | the split-length tests are substring tests for `适配器` and `tun` |
| `QuicdServer.IpOf` | quicd/server2.py:28 | `line.split(':')[1]` raises `IndexError` exactly when the line has no `:` |
| `QuicdServer.IpBetweenColons` | quicd/server2.py:28 | a line contributes the stripped text between its first and second `:` |
| `QuicdServer.SkippingSteps` | quicd/server2.py:19-26 | a `tun` line raises the `skipping` flag, an adapter line lowers a raised one, and other lines keep it |
| `QuicdServer.Flag` | quicd/server2.py:17 | the flag is lowered before the first line |
| `QuicdServer.FlagRaised` | quicd/server2.py:17-26 | a raised flag was raised by a `tun` line among those read, with no adapter line after it |
| `QuicdServer.Collect` | quicd/server2.py:16-29 | the scan holds at most one address per line read, and fails only with `IndexError` |
| `QuicdServer.Ipcfg` | quicd/server2.py:15-31 | `getIpcfg` raises only `IndexError` |
| `QuicdServer.GetIpcfg` | quicd/server2.py:15-31 | the loop with its `skipping` flag and `ips` list computes `Ipcfg` |
| `QuicdServer.CollectErrStays` | quicd/server2.py:28 | an error raised while scanning ends the scan |
| `QuicdServer.CollectErr` | quicd/server2.py:27-29 | the scan fails exactly when a collected line has no `:`, and then with `IndexError` |
| `QuicdServer.CollectEmpty` | quicd/server2.py:16-29 | a scan that did not fail collected nothing exactly when no line was collected |
| `QuicdServer.CollectFirst` | quicd/server2.py:29-31 | the first address collected comes from the first collected line |
| `QuicdServer.CollectPrefix` | quicd/server2.py:29 | addresses keep output order: the list after `k` lines is a prefix of the list after more lines |
| `QuicdServer.IpcfgFails` | quicd/server2.py:27-31 | `getIpcfg` fails only with `IndexError`, exactly when no line is collected or a collected line has no `:` |
| `QuicdServer.IpcfgFirst` | quicd/server2.py:27-31 | otherwise it returns the contribution of the first collected line |
| `QuicdServer.SkippedSection` | quicd/server2.py:22-26 | a `tun` line outside a skipped section starts one; it and every line up to the next adapter line are not collected |
| `QuicdServer.SkippedFlag` | quicd/server2.py:19-26 | the flag stays raised from such a `tun` line up to the next adapter line |
| `QuicdServer.AdapterEndsSection` | quicd/server2.py:19-21 | the adapter line that ends a section clears the flag and is itself not collected, even when it also names `tun` |
| `QuicdServer.StartCode` | quicd/server2.py:49-53 | an error from `getIpcfg` propagates, and an empty address keeps the placeholder |
| `QuicdServer.StartPort` | quicd/server2.py:49-58 | a four-field address gives the port of server.py's rule, `10000 + 10 * (fourth field) + r` in [10000, 19999] |
| `QuicdServer.StartEmpty` | quicd/server2.py:50-58 | an empty address keeps the placeholder and the port conversion raises `ValueError` |
| `QuicdServer.Server.StartServer` | quicd/server2.py:48-60 | on an error before `HOST` is set nothing changes; a `ValueError` from `int()` leaves only `HOST` set; otherwise `HOST`, `PORT`, `CERTFILE`, `KEYFILE` are all set |
| `RoundTrip.SuffixOfServerCode` | client.py:82-87 | the suffix the client derives from a server code is the server's field without its leading zeros |
| `RoundTrip.ClientMeetsServer` | client.py:73-91 | a client in the same subnet, given the server's code, targets the prefix and the server's field without leading zeros (same value), on the server's port |
| `RoundTrip.RoundTripExact` | client.py:82-91 | when the server's field has no leading zero, the client's host is exactly the server's address and its port is the server's port |
| `RoundTrip.ZeroOctet` | client.py:82-90 | a server field worth 0 gives the client the host prefix plus a bare `.`, which is not the server's address |

## Left out

- Running the address command (`subprocess.run`, `platform.system()`, console
  decoding with `cp936` or `utf-8`) and every `print` and `input`. Command
  output and typed lines are parameters.
- `random.randint(0, 9)`: the digit is the parameter `r`.
- AddressExtract.LocalAddress: `\d` matches only the ASCII digits `0`-`9`. Python
  also matches other Unicode decimal digits. Which characters are word
  characters for `\b` is the parameter `isWord`, not Python's Unicode `\w` table.
- PyStr.ParseInt: accepts only ASCII digits. Python's `int()` also accepts other
  Unicode decimal digits. `PyStr.ParseRejects` and `RoomClient.NonNumericCode`
  therefore speak only of ASCII characters and of the CJK ideographs
  U+4E00-U+9FFF, which hold no such digit. White space to `int()` is
  `PyStr.IntSpace`: space, `\t`, `\n`, `\v`, `\f`, `\r`, and from code 127 on
  the characters `str.isspace()` accepts.
- PyStr.MaxStrDigits: the digit limit of `int()` is CPython's default, 4300.
  Changing it with `sys.set_int_max_str_digits` or `PYTHONINTMAXSTRDIGITS` is
  not modelled, and neither are interpreters older than the releases that
  introduced the limit.
- RoundTrip.RoundTripExact: exact equality is stated for fields with no leading
  zero. For other fields `RoundTrip.ClientMeetsServer` gives equality up to
  leading zeros.
- The QUIC side: `run_client`, `stream_handler`, `main`, `serve`, `connect`, and
  the `QuicConfiguration`/TLS setup (client.py:95-141, server.py:88-137). These
  are network I/O through the aioquic library.
- genpem.py generates certificates through the `cryptography` library and writes
  files. It has no logic of its own.
- playground.py is an interactive driver. It calls `Server.send` and `stop`,
  which are defined in no file.
- The rest of the `Server` class of quicd/server2.py (lines 33-47): the event
  loop, the thread and `ready_event`. Line 46 does not parse. The `clients` set
  is never added to or read, so the model has no connection registry and no
  broadcast.
