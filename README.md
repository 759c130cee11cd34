# NetNeighbor presence tracker, modelled in Dafny

NetNeighbor is a command-line monitor. Every few seconds it reads the
kernel's neighbor tables: `arp -a -n` and `ip neigh show`, run from one
shell with a marker line echoed between them. It prints a CONNECTED line
for each device it has not seen before. It prints a DISCONNECTED line for
each device it has not seen for longer than a timeout, and then forgets
that device.

This project models the core of `src/main.rs`:

- **The device record and its key** (`devices.dfy`). `Device` is a datatype,
  and building one is `Device::new`. `KeyOf` is `Device::key`: the IP
  address, a dash, then the MAC address.
- **The string operations the parsers rely on** (`text.dfy`). `contains`,
  `starts_with`, `split`, `lines`, `split_whitespace`, `trim_start_matches`
  and `trim_end_matches` are written as functions on `seq<char>`, with
  lemmas saying what each one computes.
- **The ARP parser** (`arp.dfy`) and **the `ip neigh` parser** (`neigh.dfy`).
  Each is a method with the source's loop over lines, pushing onto the
  caller's device vector, and the neighbor parser also has its token-scanning
  `while` loop. Each method is proved equal to a function, `ArpDevices` or
  `NeighDevices`. Lemmas then prove what those functions accept and what
  they extract.
- **The dispatch step of `get_network_devices`** (`discovery.dfy`). The
  output is split on `===SPLIT===`, and the pieces go to the two parsers.
  The shell process is not modelled; its outcome is an input (`Acquisition`).
- **One poll's tracking update** (`tracker.dfy`). `Update` follows the
  source's three loops:
  - the merge pass;
  - the collection of expired keys while iterating the hash map;
  - the removal pass.

  `Update` is proved against the specification functions
  `Merged`, `ConnectEvents`, `Expired` and `NextMap`, and lemmas about
  those functions give the tracker's behaviour.
- **The monitoring loop** (`monitor.dfy`). It runs over a finite sequence of
  polls, and a failed read skips the cycle. It ends with a worked timeout
  scenario.

Time is an `Instant` in nanoseconds. `ElapsedSecs` is
`duration_since(..).as_secs()`: it saturates at zero and truncates the
fraction. So the strict test "more than `timeout` whole seconds" is
modelled exactly. In the scenario, an entry 10.9 s old is kept under a
10 s timeout.

Hash-map iteration order is unspecified. `CollectExpired` picks the next
key with `:|`, so the contract on the DISCONNECTED events holds for every
order:
- each expired key is reported exactly once;
- each report carries the stored device;
- nothing else is reported.

`Update` requires `WellKeyed`: every entry is stored under its own device's
key. This holds for the empty map, and `Update` preserves it, so every map
the loop builds satisfies it.

Several natural alternatives to the code's choices are worth naming,
because the code takes none of them and the model follows the code:

- **Identity.** A MAC-keyed design would key devices by MAC address,
  falling back to the IP address. The code keys them by `ip + "-" + mac` (src/main.rs:50-52). A
  device whose IP changes therefore becomes a new device.
- **Removal.** A flag-based design would keep disconnected entries with a
  `connected` flag. The code has no flag: it deletes the entry (src/main.rs:247). A
  later sighting is then simply an untracked key.
- **Timeout test.** An inclusive test would disconnect when the elapsed
  time is at least the timeout. The code requires the whole seconds elapsed, with the
  fraction truncated, to be strictly more than the timeout
  (src/main.rs:236).
- **Event order.** A connect-pass design would emit the CONNECTED events
  from a separate pass after the merge. The code reports CONNECTED during the merge loop, in sighting order.
  DISCONNECTED events follow in hash-map order.
- **Failed reads.**
  - A failure to start the shell skips the whole cycle (src/main.rs:107,
    254-256).
  - An unsuccessful exit status yields an empty sighting list
    (src/main.rs:109). The update still runs, so tracked devices can time
    out in that cycle.
  - A per-source fallback, trying one table when the other fails, and a
    `source` field naming the table a device came from have no
    counterpart in the code.

The redundant check. The `!current_device_keys.contains(key)` test
(src/main.rs:238) can never reject a key that the timeout test (line 236)
accepted. Every sighted key was refreshed at `now` in the same poll, so no
whole second has elapsed for it. `Tracker.SightedNotExpired` proves this.
The model still performs both tests, as the source does.

## Model

| member | source | states |
|---|---|---|
| Devices.KeyOfShape | src/main.rs:50-52 | the key is exactly the IP address, one `-`, then the MAC address |
| Devices.KeyIgnoresInterface | src/main.rs:50-52 | two devices with the same IP and MAC have the same key whatever their interfaces |
| Devices.KeyDeterminesAddresses | src/main.rs:50-52 | when neither IP address contains a dash, equal keys imply equal IP and equal MAC |
| Devices.KeyAmbiguous | src/main.rs:50-52 | without that condition two different address pairs can share a key |
| Text.FindFirstSpec | src/main.rs:111 | the search used by `split` and `contains` finds an occurrence, and the first one, or reports that there is none |
| Text.ContainsIff | src/main.rs:125 | `contains` holds exactly when the pattern occurs at some index |
| Text.ContainsMiddle | src/main.rs:125 | a text holds every pattern placed inside it |
| Text.ContainsAfter | src/main.rs:125 | text put in front of a text keeps its occurrences |
| Text.ContainsJoin | src/main.rs:125 | every word of a joined sequence is contained in the joined text |
| Text.StartsWithIff | src/main.rs:145 | `starts_with` holds exactly when the prefix fits and the text's first characters are the prefix |
| Text.JoinSplitOn | src/main.rs:111 | joining the pieces of `split` with the separator gives the text back |
| Text.SplitOnPiecesFree | src/main.rs:111 | no piece of `split` contains the separator |
| Text.SplitOnCount | src/main.rs:111-113 | `split` yields two or more pieces exactly when the separator occurs |
| Text.SplitOnFirst | src/main.rs:111 | when the separator first occurs at `p`, the first piece is the text before `p` and the rest is the split of what follows the occurrence |
| Text.SplitOnHead | src/main.rs:111 | the first piece is a prefix that runs either to the end, holding no separator, or up to the first occurrence |
| Text.FirstLineFree | src/main.rs:123 | the first line holds no line feed |
| Text.FirstLineEnd | src/main.rs:123 | the first line ends at a line feed, or runs to the end of a text that does not end in one |
| Text.LinesNoNewline | src/main.rs:123 | no line that `lines` yields holds a line feed |
| Text.LinesJoin | src/main.rs:123 | the lines joined by line feeds, plus the final line feed if there was one, give the text back |
| Text.TokenEndSpec | src/main.rs:126 | a token runs over non-whitespace characters and stops at whitespace or at the end |
| Text.WordsShape | src/main.rs:126 | every token of `split_whitespace` is non-empty and free of whitespace |
| Text.WordsOfSpaced | src/main.rs:126 | `split_whitespace` gives back the words of any layout: words separated by non-empty runs of any whitespace, with any whitespace or none at either end |
| Text.WordsFromBlank | src/main.rs:126 | a run of whitespace adds no word |
| Text.WordsOfJoin | src/main.rs:126 | `split_whitespace` on words joined by spaces gives back the same words |
| Text.TrimStartSpec | src/main.rs:129 | `trim_start_matches` removes exactly the leading copies of the character, and the result does not start with it |
| Text.TrimEndSpec | src/main.rs:129 | `trim_end_matches` removes exactly the trailing copies of the character, and the result does not end with it |
| ArpParser.ParseArpEntries | src/main.rs:122-152 | the output vector is the input vector followed by the devices of the lines, in line order, so the input is a prefix |
| ArpParser.ArpLineAccepted | src/main.rs:125-147 | a line yields a device iff it contains "at" and "on", has at least 7 tokens, token 6 passes the filter and the stripped token 1 is not reserved; the device is (stripped token 1, token 3, token 6) |
| ArpParser.ArpLineOfLayout | src/main.rs:124-147 | a line laid out as `? (ip) at mac hw on iface`, with plain words, an address neither reserved nor wrapped in parentheses and an interface that passes the filter, yields exactly the device (ip, mac, iface) |
| ArpParser.ArpIpOfParens | src/main.rs:129 | trimming the parentheses off `(ip)` gives `ip` back when `ip` neither starts with `(` nor ends with `)` |
| ArpParser.ArpIpShape | src/main.rs:129 | the stripped address has no whitespace, no leading `(` and no trailing `)` |
| ArpParser.ArpLineShape | src/main.rs:126-135 | every extracted MAC and interface is non-empty and has no whitespace; the address has no whitespace and no surrounding parentheses |
| ArpParser.ArpDevicesSound | src/main.rs:138-147 | no appended address starts with `127.`, `224.` or `255.` or equals `::1`; with a filter, every appended interface equals it; every appended device comes from some line; every accepted line's device is appended; at most one device per line |
| ArpParser.ArpDevicesAppend | src/main.rs:123-150 | parsing two blocks of lines is parsing the first, then the second |
| NeighParser.AfterLastNone | src/main.rs:164-172 | the scan finds nothing for a keyword iff no token is that keyword followed by another token |
| NeighParser.AfterLastIs | src/main.rs:164-172 | when token `j` is the last such keyword, the scan finds token `j + 1` |
| NeighParser.AfterLastSome | src/main.rs:164-172 | whatever the scan finds is the token after the last such keyword |
| NeighParser.ParseNeighLine | src/main.rs:156-185 | the loop body for one line, with its token-scanning `while` loop, yields exactly the device `NeighLine` defines, or nothing |
| NeighParser.ParseIpNeighEntries | src/main.rs:154-189 | the output vector is the input vector followed by the devices of the lines, in line order |
| NeighParser.NeighLineAccepted | src/main.rs:157-185 | a line yields a device iff it has at least 6 tokens, a `lladdr` and a `dev` each followed by a token, and the interface passes the filter; the device is (token 0, the token after the last `lladdr`, the token after the last `dev`) |
| NeighParser.NeighLineLastMarks | src/main.rs:164-172 | the extracted MAC and interface are the tokens after the last `lladdr` and the last `dev` |
| NeighParser.NeighLineOfLayout | src/main.rs:154-185 | a line laid out as `ip dev iface lladdr mac state`, with plain words, an interface that passes the filter and neither the interface nor the MAC a keyword, yields exactly the device (ip, mac, iface) |
| NeighParser.NeighDevicesSound | src/main.rs:175-185 | with a filter, every appended interface equals it; every appended device comes from some line; every accepted line's device is appended; at most one device per line |
| NeighParser.NeighDevicesAppend | src/main.rs:155-187 | parsing two blocks of lines is parsing the first, then the second |
| Discovery.GetNetworkDevices | src/main.rs:100-120 | a spawn error is returned as the error; an unsuccessful run yields no devices; otherwise the result is the ARP devices of piece 0 followed by the neighbor devices of piece 1, or nothing when the marker is missing |
| Discovery.NetworkDevicesErr | src/main.rs:105-119 | the result is an error exactly when the process could not be run, and it is empty when the script failed |
| Discovery.DispatchNoMarker | src/main.rs:111-117 | without the marker no device is found |
| Discovery.DevicesFromOutputAt | src/main.rs:111-116 | with the marker first at `p`, the devices are the ARP devices of the text before `p` followed by the neighbor devices of the first piece after the marker |
| Discovery.DispatchParts | src/main.rs:111-116 | with the marker, the text is `a`, marker, `b`, rest, where the marker first occurs after `a` and `b` runs to the next marker or the end; the devices are those of `a` as ARP output followed by those of `b` as neighbor output |
| Discovery.MarkerFirstAt | src/main.rs:104 | in the script's output the first marker is the echoed one, when the ARP output has none and ends with a line feed |
| Discovery.LeadingNewline | src/main.rs:104 | the empty line that the echo's line feed leaves before the neighbor output yields no device |
| Discovery.ScriptOutput | src/main.rs:104-116 | for output produced as the script writes it, the devices are the ARP devices followed by the neighbor devices |
| Tracker.MergeSightings | src/main.rs:215-229 | the merge loop's map is `Merged` and its events are `ConnectEvents` |
| Tracker.CollectExpired | src/main.rs:233-242 | in any iteration order, the collected pairs name each expired key exactly once, each with its stored device |
| Tracker.RemoveListed | src/main.rs:244-248 | the listed keys are removed, and one DISCONNECTED event is emitted per listed pair, in list order |
| Tracker.Update | src/main.rs:208-248 | the new map is `NextMap`; the events are the CONNECTED events followed by one DISCONNECTED event per expired key, carrying its stored device; well-keyedness is preserved |
| Tracker.RemovalReported | src/main.rs:244-248 | removing a distinct, complete list of expired keys reports exactly the expired keys, each once |
| Tracker.MergedKeys | src/main.rs:216-228 | after merging, a key is tracked iff it was tracked before or was sighted |
| Tracker.MergedLast | src/main.rs:224-228 | a sighted key maps to its last sighting, with `last_seen == now` |
| Tracker.MergedUnsighted | src/main.rs:216-228 | an unsighted key keeps its old entry through the merge |
| Tracker.MergedWellKeyed | src/main.rs:217-228 | the merge stores each device under its own key |
| Tracker.HasLast | src/main.rs:216-228 | every sighted key has a last sighting |
| Tracker.ConnectEventsNew | src/main.rs:216-222 | a sighting produces CONNECTED exactly when its key was not tracked and no earlier sighting in the poll had it |
| Tracker.ConnectEventsStep | src/main.rs:216-222 | one more sighting adds a CONNECTED event iff its key is absent from the map at that moment |
| Tracker.ConnectEventsNewKeys | src/main.rs:216-222 | every CONNECTED event is for a sighted key that was not tracked before the poll |
| Tracker.ConnectEventsDistinct | src/main.rs:216-222 | a key is reported CONNECTED at most once per poll, even when both tables report it |
| Tracker.ConnectEventsComplete | src/main.rs:216-222 | every sighted key not tracked before the poll is reported CONNECTED |
| Tracker.ConnectedKeys | src/main.rs:216-222 | the CONNECTED keys are exactly the sighted keys minus the tracked keys |
| Tracker.NoConnects | src/main.rs:216-222 | sightings of already-tracked keys produce no event |
| Tracker.SightedNotExpired | src/main.rs:236-238 | no sighted key expires, so the test at line 238 never rejects a key that line 236 accepted |
| Tracker.SightedIff | src/main.rs:212-213 | a key is in the set of current keys iff some sighting has it |
| Tracker.ExpiredIff | src/main.rs:233-242 | a key is removed iff it was tracked before the poll, was not sighted and has been idle more whole seconds than the timeout |
| Tracker.NextMapSpec | src/main.rs:216-248 | after a poll, a sighted key holds its last sighting seen `now`; an unsighted tracked key stays unchanged iff it has not timed out; nothing else is tracked |
| Tracker.SightedTracked | src/main.rs:224-248 | a sighted key is never removed and is refreshed to `now` |
| Tracker.NextMapWellKeyed | src/main.rs:216-248 | a poll keeps every entry under its own key |
| Tracker.TimedOutIff | src/main.rs:236 | the truncated-seconds test `elapsed > timeout` holds iff at least `timeout + 1` full seconds have passed |
| Tracker.InterfaceMigration | src/main.rs:216-228 | a tracked device seen again on any interface produces no event, and its entry is replaced by the new sighting |
| Tracker.RepeatPoll | src/main.rs:208-248 | a second poll at the same instant with the same sightings reports no CONNECTED, expires nothing and leaves the map unchanged |
| Tracker.DistinctKeysCard | src/main.rs:244-248 | events with distinct keys have as many keys as events |
| Tracker.ConnectEventAt | src/main.rs:216-222 | every CONNECTED event of the merge loop is for a key that was not tracked and is tracked after the poll |
| Tracker.ConnectPairDistinct | src/main.rs:216-222 | two CONNECTED events of one poll have different keys |
| Tracker.PollEventsPerKey | src/main.rs:216-248 | no key gets two events in one poll; a CONNECTED key was untracked and is tracked after the poll; a DISCONNECTED key was tracked and is gone after it |
| Tracker.PollKeyChange | src/main.rs:216-248 | a key enters or leaves the map only in a poll that prints an event for it |
| Tracker.RemovalCount | src/main.rs:244-248 | a poll emits as many DISCONNECTED events as keys expire |
| Tracker.ReportsNone | src/main.rs:216-248 | when nothing expires, the poll's events are exactly its CONNECTED events |
| Tracker.ReportsOne | src/main.rs:233-248 | when nothing connects and one key expires, the events are exactly that key's DISCONNECTED event |
| Monitor.Iterate | src/main.rs:207-257 | a failed read leaves the map unchanged and prints nothing; otherwise the iteration is `Update` on the devices read |
| Monitor.ReplayStep | src/main.rs:206-260 | iteration `i + 1`'s map is iteration `i`'s map after poll `i` |
| Monitor.LoggedStep | src/main.rs:206-260 | appending the next iteration's events extends the log of the loop |
| Monitor.Run | src/main.rs:204-260 | from the empty map, the loop's map is the replay of the polls, and entry `i` of the log is what iteration `i` prints |
| Monitor.StaysAbsent | src/main.rs:206-248 | an untracked key stays untracked through every iteration that does not sight it, including failed reads |
| Monitor.Reconnect | src/main.rs:216-248 | a key untracked after some iteration (for instance one that iteration removed) is reported CONNECTED by the first later iteration that sights it, whatever iterations lie between |
| Monitor.LastEventSpec | src/main.rs:220-247 | the last event found for a key is one of its events, and one is found exactly when the key has an event |
| Monitor.IterationPresence | src/main.rs:207-248 | one iteration takes a key in or out of the map exactly as its last event there says, and a key without an event keeps its state |
| Monitor.LoggedPresence | src/main.rs:204-260 | after any number of iterations a key is tracked exactly when its last printed event is CONNECTED |
| Monitor.Alternating | src/main.rs:204-260 | for every key, CONNECTED comes first or right after a DISCONNECTED, and a DISCONNECTED always comes right after a CONNECTED, with no event for that key between |
| Monitor.ReplayLastSeen | src/main.rs:209-228 | every tracked entry was last seen at the clock reading of some iteration |
| Monitor.FirstSighting | src/main.rs:216-248 | from the empty map, a single sighting is reported CONNECTED and becomes the only entry |
| Monitor.EmptyPoll | src/main.rs:233-242 | with no sightings nothing connects, and the one entry expires iff it is idle more whole seconds than the timeout |
| Monitor.TimeoutScenario | src/main.rs:216-248 | under a 10 s timeout, a device seen at 0 s is reported CONNECTED, not reported at 5 s or 10.9 s, reported DISCONNECTED at 11 s, and reported CONNECTED again at 12 s |

## Left out

- Command-line parsing (`Args`, `clap`): the filter and the timeout are parameters.
- Console output is not modelled. This covers `format_device_output`, colours, timestamps, the start-up banner, the verbose "No devices detected" line and the error message. Events are values of type `Event`.
- Vendor lookup (`get_vendor_from_mac`) is an external crate and affects only printing.
- Running `sh -c` (`Command::output`) is external process I/O. Its outcome is the `Acquisition` input: a spawn error, or an exit status and the captured output.
- `String::from_utf8_lossy`: the output is taken to be text already.
- The endless `loop` and `thread::sleep` are not modelled. `Monitor.Run` covers a finite sequence of polls, and each clock reading is an input.
- `Instant` overflow and clock behaviour: the clock is a natural number, and monotonicity is not assumed.
- Lines: `str::lines` also drops a carriage return before a line feed, and the model keeps it. A carriage return is whitespace and is in neither "at" nor "on". It therefore cannot change a token or a substring test, but this is not proved.
- The `?` after each parser call: both parsers always return `Ok`, so the model's parsers simply return the extended vector.
- The disconnect order is not fixed. The HashMap's iteration order is chosen nondeterministically, and the contracts hold for every order.
