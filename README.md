# hackwifi.py bookkeeping, modelled in Dafny

`hackwifi.py` is an interactive Wi-Fi auditing tool built around one object,
`WiFiHackingTool`. Most of it drives external programs: `iwconfig`,
`ifconfig`, `airmon-ng`, scapy's `sniff`/`sendp`, and the terminal. This
project models the bookkeeping that the tool itself decides, and proves what
that bookkeeping guarantees:

- the registry of access points filled while scanning (`packet_handler`):
  a beacon is inserted only when its BSSID is absent, so the first write wins;
- the numbered menus: `select_targets`, `select_single_ap`,
  `select_interface` and `select_wordlist`. Each one re-prompts until a reply
  is accepted. A 1-based choice is accepted only in `1..len`;
- the two run flags and what Ctrl+C does to them (`_signal_handler`);
- the "Packets sent" counter of `deauth_attack`;
- interface discovery from `iwconfig` output, with the `/sys/class/net`
  fallback;
- the `.txt` wordlist filter of `load_wordlists`;
- the fail-fast monitor-mode setup of `configure_interface`, with the reset
  of `reset_interface`.

Layout, one module per file:

| file | module | contents |
|---|---|---|
| wrappers.dfy | `Wrappers` | `Option` |
| text.dfy | `Text` | the Python `str` operations used: `split`, `split()[0]`, `strip`, `lower`, `startswith`, `endswith`, `in` |
| registry.dfy | `Registry` | access points, frames, the insert-if-absent update as a function, and what it guarantees over any frame sequence |
| selection.dfy | `Selection` | prompt outcomes, `1..len` choices, parsing and filtering in `select_targets` |
| interfaces.dfy | `Interfaces` | interface-name extraction, the fallback, and the commands issued, as values |
| wordlists.dfy | `Wordlists` | `os.path.join` and the `.txt` filter |
| session.dfy | `Session` | the flag transitions and the counter as functions |
| tool.dfy | `Tool` | class `WiFiTool`: the object's fields and the methods that update them in place |

How the environment enters the model:

- Everything the environment supplies is a parameter. This covers captured
  frames (already decoded), input lines, `iwconfig` output, directory
  listings, and whether each setup command succeeds.
- Python's `int()` on a string is a parameter `parseInt`: `Some(n)` when
  `int` returns `n`, `None` when it raises `ValueError`.
- A prompt loop is given the finite sequence of lines the user types. When
  the lines run out, the result is `EndOfInput`, which is where `input()`
  would raise `EOFError`.
- Commands are data (`Interfaces.Command`); nothing is executed.

## Model

| member | source | states |
|---|---|---|
| Registry.Ingest | hackwifi.py:195-206 | The handler applied frame by frame: each frame adds at most one entry and removes none. |
| Registry.Observe | hackwifi.py:195-206 | One handler call keeps BSSIDs unique, adds at most one entry, and leaves every earlier entry in place. |
| Registry.IngestKeepsUnique | hackwifi.py:201-206 | Any sequence of frames keeps at most one entry per BSSID. |
| Registry.IngestExtends | hackwifi.py:202-206 | Entries are only appended. The entries present before the frames are still the prefix after them. |
| Registry.IngestConcat | hackwifi.py:195-206 | Handling `fs` then `gs` gives the same registry as handling `fs + gs`. |
| Registry.IngestBssids | hackwifi.py:196-206 | The registry's BSSID set is the starting set plus the BSSIDs of the beacons seen. Non-beacons contribute nothing. |
| Registry.UniqueCount | hackwifi.py:201-206 | With unique BSSIDs, the number of entries equals the number of distinct BSSIDs. |
| Registry.OneEntryPerBssid | hackwifi.py:192-206 | After a scan starting from empty, there is exactly one entry for each BSSID that beaconed, and no other entry. |
| Registry.KnownIffLookup | hackwifi.py:201 | The `any(...)` test succeeds exactly when a lookup finds an entry, and that entry has the BSSID. |
| Registry.LookupAppend | hackwifi.py:202-206 | Appending an entry changes the lookup of a BSSID only for a BSSID that was not there before. |
| Registry.FirstBeaconAppend | hackwifi.py:196-201 | The first beacon of a BSSID in `fs + [f]` is the one in `fs` if there is one, otherwise `f` if it matches. |
| Registry.IngestFirstWriteWins | hackwifi.py:201-206 | First write wins: the entry for a BSSID is the one already present, or else the one built from the first beacon with that BSSID. Later SSIDs and channels never replace it. |
| Registry.ScanFirstWriteWins | hackwifi.py:192-206 | For a scan, each BSSID's entry is exactly the first beacon carrying it, if any. |
| Registry.IngestKnownUnchanged | hackwifi.py:201 | Frames whose beacons all have known BSSIDs leave the registry unchanged. |
| Registry.IngestIdempotent | hackwifi.py:201-206 | Seeing the same frames a second time changes nothing. |
| Registry.DuplicateBeaconScenario | hackwifi.py:201-206 | "Home" on channel 6, then the same BSSID as "Home2" on channel 11, leaves only the first entry. |
| Tool.WiFiTool.IsKnown | hackwifi.py:201 | The membership loop answers true exactly when some entry has the BSSID. |
| Tool.WiFiTool.HandlePacket | hackwifi.py:195-206 | Non-beacons and known BSSIDs leave the registry unchanged. A new BSSID appends exactly `{ssid, bssid, channel}` at the end. Uniqueness is preserved. |
| Tool.WiFiTool.Scan | hackwifi.py:192-206 | The registry is cleared, then fed the frames in order. The result is the scan's registry, with unique BSSIDs. |
| Selection.NonBlank | hackwifi.py:263 | `c.strip()` for each piece with `c.strip()` non-empty: every result is non-empty, and every non-blank piece's stripped text is kept. |
| Selection.NonBlankSingle | hackwifi.py:263 | One piece contributes its stripped text, or nothing when that is empty. |
| Selection.NonBlankAppend | hackwifi.py:263 | The filter distributes over concatenation: the pieces' order and repeated pieces are kept. |
| Selection.NonBlankSound | hackwifi.py:263 | Every result is the stripped text of some piece. |
| Selection.ParseAll | hackwifi.py:263 | The list comprehension of `int` succeeds exactly when every word parses. It then has one number per word, in order. |
| Selection.Targets | hackwifi.py:264-265 | No more targets than choices. |
| Selection.TargetsNamed | hackwifi.py:264-265 | Every target is `aps[n-1]` for some in-range `n` among the choices. |
| Selection.TargetsAllInRange | hackwifi.py:264-265 | With all choices in range, the k-th target is `aps[choices[k]-1]`: order and duplicates are kept. |
| Selection.TargetsAppend | hackwifi.py:264-265 | Selection distributes over concatenation of the choices, so the output is in input order. |
| Selection.TargetsSingle | hackwifi.py:264-265 | A single choice selects its item exactly when it is in `1..len`. |
| Selection.TargetsEmptyIff | hackwifi.py:264-267 | Nothing is selected exactly when no choice is in range. |
| Selection.TargetsOfEmptyList | hackwifi.py:264-265 | An empty registry selects nothing, whatever is typed. |
| Selection.TargetsFromSome | hackwifi.py:263-269 | A line is accepted exactly when it parses and names at least one in-range entry. The accepted list is never empty. |
| Tool.WiFiTool.SelectTargets | hackwifi.py:252-272 | It gives up at once exactly when the registry is empty. Otherwise it returns the targets of the first line that selects something, and every earlier line selected nothing. If the input runs out, no line selected anything. |
| Tool.WiFiTool.SelectSingleAp | hackwifi.py:313-322 | It returns `aps[n-1]` for the first line whose number `n` is in `1..len`. Every earlier line was rejected. |
| Tool.QuitChoice | hackwifi.py:144-146 | `choice.lower() == 'q'` holds exactly for "q" and "Q". No stripping is applied. |
| Tool.WiFiTool.SelectInterface | hackwifi.py:133-160 | Each pass re-probes. With nothing found, it quits on a "q" reply. Otherwise a number in `1..len` sets `self.interface` to that name. Earlier passes were all rejected. The interface is unchanged unless one is chosen. |
| Tool.WiFiTool.ConfigureInterface | hackwifi.py:164-185 | It kills conflicting processes, then runs the three steps in order. It is ready exactly when all steps succeed. Otherwise it stops at the first failing step, then issues the reset. |
| Tool.RefreshChoice | hackwifi.py:332-334 | A reply refreshes exactly when, stripped, it is "r" or "R". |
| Tool.WordlistDialog | hackwifi.py:330-348 | The `while True` loop as a function. It never reports an empty menu. A chosen wordlist is one on offer when the loop ends. A refresh gives up only when it leaves no wordlist. |
| Tool.WordlistDialogFrom | hackwifi.py:330-348 | The dialog from any reply on keeps the meaning below, given that the earlier replies were rejected. |
| Tool.WordlistDialogMeaning | hackwifi.py:330-348 | A wordlist is returned for the first non-refresh reply whose number is in range for the wordlists then on offer. `None` is returned for the first refresh that finds no wordlist. Every earlier reply made the loop ask again. |
| Tool.RunWordlistDialog | hackwifi.py:330-348 | The loop computes the dialog's outcome and the wordlists on offer when it ends. |
| Tool.WiFiTool.SelectWordlist | hackwifi.py:324-348 | In-place version of the dialog. `self.wordlists` ends as the last load, and the outcome has the meaning above. |
| Session.ReactionTo | hackwifi.py:34-43 | The handler exits exactly when neither loop is marked running. |
| Session.AfterInterrupt | hackwifi.py:34-43 | An interrupt never raises a flag. It lowers exactly one raised flag, if any. |
| Session.ExitAfterPending | hackwifi.py:32-43 | In a run of interrupts, the i-th one exits exactly when i is at least the number of loops still running. |
| Session.ScanStopsFirst | hackwifi.py:34-39 | The handler's priority order: with both flags raised, the first interrupt stops the scan and the second stops the attack. The program itself never raises both at once. |
| Tool.WiFiTool.Interrupt | hackwifi.py:32-43 | If `running`: clear it and leave `deauth_running` alone. Else if `deauth_running`: clear it. Else: issue the interface reset and exit, with no flag change. |
| Session.CounterTrace | hackwifi.py:300-307 | One value is shown per display tick. |
| Session.CounterTraceAt | hackwifi.py:280-307 | The k-th value shown is `100 * len(targets) * k`. |
| Session.CounterSteps | hackwifi.py:280-307 | The counter starts at 0 and grows by exactly `100 * len(targets)` per tick. |
| Session.CounterMonotone | hackwifi.py:300-307 | The values shown never decrease. |
| Tool.WiFiTool.DeauthAttack | hackwifi.py:279-307 | With the interrupt arriving on tick `ticks`, the values shown are the counter trace. The final count is `100 * len(targets) * ticks`, and both flags end lowered. |
| Interfaces.MarkerLineHasWord | hackwifi.py:121-122 | A line containing "IEEE 802.11" has a first word, so `line.split()[0]` cannot fail there. |
| Interfaces.NamesFrom | hackwifi.py:121-122 | Every extracted name is non-empty and whitespace-free. There is at most one name per line. |
| Interfaces.NamesFromAppend | hackwifi.py:121-122 | Names are collected in line order. |
| Interfaces.NamesFromEmptyIff | hackwifi.py:121-122 | No name is found exactly when no line contains the marker unindented. |
| Interfaces.NamesFromLine | hackwifi.py:121-122 | A qualifying line contributes exactly its first word. Any other line contributes nothing. |
| Interfaces.WirelessEntries | hackwifi.py:126-127 | The fallback keeps exactly the entries starting with 'w'. |
| Interfaces.WirelessEntriesSingle | hackwifi.py:126-127 | One entry is kept exactly when it starts with 'w'. |
| Interfaces.WirelessEntriesAppend | hackwifi.py:126-127 | The fallback distributes over concatenation, so the listing order, which numbers the menu, is kept. |
| Interfaces.AvailableInterfaces | hackwifi.py:115-131 | Names are non-empty. When `iwconfig` cannot run, the exception handler leaves the result empty. |
| Interfaces.AvailablePrefersIwconfig | hackwifi.py:120-127 | A wireless line in the `iwconfig` output makes its names the answer, and the fallback is not consulted. |
| Interfaces.AvailableFallback | hackwifi.py:125-127 | With no wireless line, the `/sys/class/net` entries starting with 'w' are the answer. |
| Interfaces.AvailableNoFallback | hackwifi.py:125-129 | With no wireless line and an unreadable `/sys/class/net`, the exception handler leaves no interface. |
| Interfaces.ResetCommands | hackwifi.py:100-113 | No command exactly when no (non-empty) interface is set. Otherwise every command addresses that interface, managed mode is set, and the interface is brought up last. |
| Interfaces.ResetRetracesSetup | hackwifi.py:100-113 | The reset is the three monitor-mode steps with the mode set back to managed. |
| Wordlists.JoinPath | hackwifi.py:71 | `os.path.join(dir, name)` ends with `name`. |
| Wordlists.JoinPathPlacement | hackwifi.py:71 | A relative name is placed under `dir`, with one '/' between them when `dir` lacks one. An absolute name replaces `dir`. |
| Wordlists.TxtFiles | hackwifi.py:69-73 | At most one path per listing entry, and every path ends in ".txt". |
| Wordlists.TxtFilesComplete | hackwifi.py:69-73 | Every ".txt" regular file in the listing is loaded. |
| Wordlists.TxtFilesSound | hackwifi.py:69-73 | Only ".txt" regular files of the listing are loaded, as joined paths. |
| Wordlists.TxtFilesAppend | hackwifi.py:69-73 | Files are kept in listing order. |
| Wordlists.TxtFilesUnderDir | hackwifi.py:69-73 | For a listing of relative names, every loaded path lies under the directory and ends in ".txt". |
| Wordlists.LoadWordlists | hackwifi.py:55-82 | A missing or unreadable directory leaves the list empty. Otherwise at most one path per entry is loaded, each ending in ".txt". |
| Tool.WiFiTool.constructor | hackwifi.py:16-30 | No interface, an empty registry, the scan flag raised, the attack flag lowered, and the wordlists loaded from the directory. |
| Text.Split | hackwifi.py:121 | `split(sep)` gives at least one piece, and no piece contains the separator. |
| Text.JoinSplit | hackwifi.py:121 | Joining the pieces of a split gives back the text. |
| Text.SplitJoin | hackwifi.py:263 | Splitting the join of separator-free pieces gives back the pieces. |
| Text.StripSpec | hackwifi.py:263 | `strip()` cuts exactly the whitespace at both ends. It is empty only for all-whitespace text. |
| Text.FirstWord | hackwifi.py:121 | `split()[0]` is the non-empty, whitespace-free run after the leading whitespace. |
| Text.AsciiLower | hackwifi.py:145 | `lower()` keeps the length and lowers each ASCII capital. |
| Text.LowerIsLetter | hackwifi.py:145 | A lowered text is the letter `c` exactly when the text is `c` or its capital. |

## Left out

- Capturing and decoding frames is left out: scapy's `sniff`, and the SSID, BSSID and channel extraction at hackwifi.py:196-199. A frame enters the model already decoded, with the channel as a byte (`ord` of one byte).
- Malformed frames are not skipped. hackwifi.py:197-199 has no exception handler around `.decode()` or `ord(...)`, so a decoding error escapes the handler. The model promises nothing for such frames.
- `Tool.WiFiTool.Scan` takes the frames whose handler calls complete before the stop filter sees `running` cleared. The sniffer thread, its interleaving with the display loop, and the stop itself (`Tool.WiFiTool.Interrupt`) are not modelled together.
- Sender threads, the channel switch at hackwifi.py:284, deauth frame construction and `sendp` are left out: they are threads and foreign library calls. `Tool.WiFiTool.DeauthAttack` models only the display counter and the flags. Its `ticks` parameter says on which tick the interrupt arrives.
- `Tool.WiFiTool.DeauthAttack`: it requires `running` to be lowered, which holds for its only caller, the attack menu after the scan loop ended. The `except KeyboardInterrupt` at hackwifi.py:309-311 is not modelled, because the SIGINT handler installed at hackwifi.py:30 receives the interrupt instead.
- `Tool.WiFiTool.ConfigureInterface`: it requires an interface to be set and one success flag per step. Command output, the `check=True` exception detail and the process exit (`sys.exit(1)`) appear only as the `Failed` result.
- `Tool.WiFiTool.Interrupt`: `sys.exit(0)` is the `Exit` reaction, and the reset is a command list; the process is not stopped.
- `Tool.WiFiTool.SelectInterface`: the "q" branch's `sys.exit(1)` is the `Abandoned` result. The call to `configure_interface` that follows a selection is the separate `ConfigureInterface` method.
- `Tool.WiFiTool.SelectWordlist`: `load_wordlists` is modelled as `Wordlists.LoadWordlists` applied to the listing present at each refresh. `None` stands for a missing directory (which the source then creates) or a listing that raised. The directory path is the constructor's `wordlistsPath`, i.e. the result of `os.path.abspath("wordlists")`, which depends on the working directory.
- `Tool.WiFiTool.constructor`: `initialize_environment`'s `makedirs` and the removal of `capture.cap` are filesystem effects and are left out. Installing the signal handler is not modelled.
- `Text.AsciiLower`: `str.lower()` is modelled on ASCII letters only. Non-ASCII letters are kept as they are. The model only compares lowered text with "q" and "r".
- `Text.IsSpace` follows Python's `str.isspace` set of whitespace characters. `int()`'s own whitespace and sign handling belongs to the `parseInt` parameter.
- Printing is left out: colours, `PrettyTable`, screen clears and `time.sleep`.
- `attack_menu`, `crack_password`, `capture_handshake`, `run_cracking_process` and the entry point with its root check are left out. They are menu dispatch and fixed output around the operations above.
