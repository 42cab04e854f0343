# WifiAnalyzer core in Dafny

This project models the core of WifiAnalyzer, a local-network tool with three parts:

- a **network scanner** (`wifi_scanner.py`). It finds the devices of this host's /24 subnet in three stages: an ARP probe, a ping sweep, and a fallback to the system ARP table. It labels each device with the vendor of its hardware-address prefix.
- a **device blocker** (`wifi_blocker.py`). It ARP-spoofs a target so that its traffic to the gateway is cut off. It keeps a table of blocked addresses and sends truthful ARP replies when a block ends.
- the **offline bookkeeping of the dashboard** (`main.py`). This covers `DatabaseManager`'s session cache, status overrides and sighting history; the selection `_save_blocked_devices` makes; and the date padding of the history filter.

The model has one module per concern:

| module | file | what it holds |
|---|---|---|
| `Wrappers` | `wrappers.dfy` | `Option` |
| `Text` | `text.dfy` | the Python string built-ins the core relies on: see below |
| `SystemArp` | `system_arp.dfy` | the two per-address ARP-table parsers; both Python files carry the same parsing code (the scanner reads the table with `check_output`, the blocker with `run`) |
| `Scanner` | `scanner.dfy` | `NetworkScanner` and its pure helpers |
| `BlockTable` | `blocker_table.dfy` | the block table and the ARP frames, as functions of the table |
| `BlockerParse` | `blocker_parse.dfy` | gateway detection, the full ARP-table read, the `scan_network` listing, `parse_device_numbers` |
| `Blocker` | `blocker.dfy` | the `WiFiBlocker` class |
| `Database` | `database.dfy` | `DatabaseManager`, `_save_blocked_devices`, the date padding |

The `Text` built-ins are `upper`, `split`, `strip`, `replace`, `find`, `int()`, hexadecimal rendering and parsing, and the code-point order of strings.

How the source's state is modelled:

- Objects whose methods update fields are classes with `modifies` frames: `NetworkScanner`, `WiFiBlocker` and `DatabaseManager`.
- Each state-changing method states its whole new state as a function of the old state. Lemmas about those functions state what the source promises.
- The pure parts are functions.
- Python dictionaries are Dafny `map`s, except the ARP table `_read_arp_cache` fills. That table is an insertion-ordered association list, because `scan_network` lists devices in the table's order.
- `list.sort(key=...)` computes each key once and sorts the (key, item) pairs stably. The model does the same: `Decorate`, an insertion sort `SortPairs` on the pairs, `Undecorate`.
- System output is a parameter: ARP tables, `ipconfig` output, `/proc/net/route`, ping answers, `uuid.getnode()`, the socket's local address.
- So is every outcome of `send`, given as a flag or as the index of the send that raises.
- Frames that are sent are appended to an `outbox` field.

## Model

Each row below names a member whose own contract states the property. Many source functions are modelled by Dafny functions that carry no `ensures` of their own. Those functions are stated through the lemmas and methods about them:

- `Scanner.FormatMac` (wifi_scanner.py:76-79): `FormatMacIsCanonical`, `FormatMacDigits`, `FormatMacRoundTrip`.
- `Scanner.OuiTable` (wifi_scanner.py:122-127): `OuiTableKeys`, `OuiTableLastWins`, `OuiTableUntouched`, `OuiTableRegistryLine`, `NetworkScanner.LoadOui`.
- `Scanner.LocalIpRange` (wifi_scanner.py:146-154): `RangeSweepsOwnSubnet`, `DefaultRangeSweep`.
- `Scanner.SweepPrefix` (wifi_scanner.py:215-217): `SweepPrefixOfRange`, `RangeSweepsOwnSubnet`, `DefaultRangeSweep`.
- `Scanner.Responding` and `Scanner.PingIps` (wifi_scanner.py:207-232): `RespondingMembers`, `PingIpsDistinct`, `PingSweep`.
- `Scanner.SystemCache`, `Scanner.FallbackDevice`, `Scanner.Augment`, `Scanner.NotReported` and `Scanner.Merge` (wifi_scanner.py:283-312): `MergeProperties`, `AugmentIsFallbacks`, `NotReportedMembers`, `UnresolvedKept`, `SelfFoundBySweep`, `NetworkScanner.Fallback`, `NetworkScanner.AddSweepOnly`, `NetworkScanner.Scan`.
- `SystemArp.LinuxRowsLookup`, `SystemArp.LinuxLookup`, `SystemArp.WindowsLookup` and `SystemArp.SystemLookup` (wifi_scanner.py:234-272, wifi_blocker.py:224-251): `LinuxRowsLookupFirstMatch`, `LinuxArpLookup`, `WindowsLookupFirstMatch`, `WindowsArpLookup`, `GetMacFromSystem`.
- `BlockerParse.IpconfigLine` and `BlockerParse.IpconfigGateway` (wifi_blocker.py:197-203): `IpconfigGatewayNonEmpty`, `IpconfigGatewayCons`, `IpconfigGatewayFirstMatch`, `GatewayIp`.
- `BlockerParse.RouteLine` and `BlockerParse.RouteGateway` (wifi_blocker.py:206-214): `RouteGatewayNonEmpty`, `RouteLineDecodes`, `RouteGatewaySkips`, `GatewayIp`.
- `BlockerParse.FallbackGateway` (wifi_blocker.py:218-222): `FallbackIsDotOne`.
- `BlockerParse.WindowsToken`, `BlockerParse.WindowsTokens`, `BlockerParse.WindowsLine` and `BlockerParse.WindowsEntries` (wifi_blocker.py:315-326): `WindowsTokensLast`, `WindowsTokensLastWins`, `WindowsTokensUntouched`, `WindowsLineUntouched`, `WindowsEntriesLastWins`, `WindowsEntriesUntouched`, `ReadWindowsLine`, `ReadWindowsTable`, `OctalPartRejected`.
- `BlockerParse.LinuxEntries` (wifi_blocker.py:330-337): `LinuxEntriesFromRows`, `LinuxEntriesLast`, `LinuxEntriesLastWins`, `LinuxEntriesUntouched`, `ReadLinuxTable`.
- `BlockerParse.ArpCache` (wifi_blocker.py:304-342): `ReadArpCache`, `ArpCacheDistinct`.
- `BlockerParse.SubnetPrefix` and `BlockerParse.InSubnetAsWritten` (wifi_blocker.py:260-272): `InSubnetIff`, `SubnetFilterAdmitsNeighbour`, `InSubnetIsAsWritten`.
- `BlockerParse.AddressKey` and `BlockerParse.SortByAddress` (wifi_blocker.py:287): `SortPairsSorted`, `UndecorateSortPairs`, `SortByAddressSorted`.
- `BlockerParse.ScanListing` and `BlockerParse.IntendedListing` (wifi_blocker.py:253-293): `ScanListingCached`, `ListingMembers`, `IntendedListingMembers`, `IntendedListingDropsNeighbour`, `WiFiBlocker.ScanNetwork`.
- `BlockerParse.DeviceNumbers` (wifi_blocker.py:563-576), whose own contract bounds only its length: `ParseDeviceNumbers`, `DeviceNumbersOfRendered`, `ParseRendered`.
- `BlockTable.RunCounts` and `BlockTable.Delivered` (wifi_blocker.py:363-386): `RunCountsTotals`, `FinishedTable`.
- `BlockTable.RaisePoint` and `BlockTable.AllRestores` (wifi_blocker.py:510-522): `AllRestoresAreTruthful`, `WiFiBlocker.UnblockAll`.
- `Blocker.Without` (wifi_blocker.py:520-522): `WithoutKeys`, `WithoutUntouched`, `UnblockEachStep`.
- `Database.CacheMap` (main.py:237): `CacheMapIsLastEntry`, `BuildCacheMap`.
- `Database.Inherit` and `Database.Merged` (main.py:238-269): `MergedStatus`, `MarkedStatusSurvivesScan`, `DatabaseManager.SaveScanResults`.
- `Database.Seen` and `Database.Recorded` (main.py:240-255): `RecordedKeys`, `RecordedLastSeen`, `RecordedFirstSeen`, `RecordedUntouched`, `RecordedVendor`.
- `Database.ShownStatus`, `Database.HistoryRowOf` and `Database.RangeRowOf` (main.py:119-156): `MarkedStatusShown`, `DatabaseManager.GetAllHistoryDevices`, `DatabaseManager.GetHistoryByDateRange`.
- `Database.SavedIps` (main.py:1620-1634): `ActiveBlocks`, `SaveBlockedDevices`.

| member | source | states |
|---|---|---|
| `Scanner.GetVendor` | wifi_scanner.py:132-144 | "Unknown" for an empty address or the "Unknown" placeholder; "THIS COMPUTER" for this host's own address, ignoring case; otherwise a vendor from the table, and "Unknown" exactly where the 8-character upper-cased prefix is not in the table |
| `Scanner.SelfVendorIgnoresTable` | wifi_scanner.py:139-141 | this host's address is labelled "THIS COMPUTER" whatever the vendor table holds |
| `Scanner.VendorIgnoresCase` | wifi_scanner.py:172-175 | looking the vendor up with the upper-cased address, as stored, gives the vendor the ARP stage computed from the address as received |
| `Scanner.VendorFromTable` | wifi_scanner.py:143-144 | an address other than this host's, whose 8-character upper-cased prefix is in the table, gets that prefix's vendor |
| `Scanner.FormatMacIsCanonical` | wifi_scanner.py:76-79 | the self address is always six upper-case hex pairs joined by ':' |
| `Scanner.FormatMacDigits` | wifi_scanner.py:76-79 | for a 48-bit node number the rendering is 17 characters, ':' at every third position, and its digits are the 12-digit upper-case hex of the number |
| `Scanner.FormatMacRoundTrip` | wifi_scanner.py:76-79 | reading the rendered self address back gives the 48-bit number it came from |
| `Scanner.PaddedHexIsFixed` | wifi_scanner.py:78 | `{:012x}` of a number below 16^12 is its fixed 12-digit hex rendering |
| `Scanner.ParseOuiLine` | wifi_scanner.py:123-126 | a line yields a (prefix, vendor) binding exactly when it contains "(hex)" |
| `Scanner.FindMark` | wifi_scanner.py:124 | in `h + "(hex)" + v` with no "(hex)" in `h`, the first "(hex)" is the one right after `h` |
| `Scanner.ParseOuiLineOf` | wifi_scanner.py:123-126 | a line `h + "(hex)" + v`, whose sides hold no further "(hex)", binds the stripped `h` with '-' turned into ':' to the stripped `v` |
| `Scanner.ParseOuiRegistryLine` | wifi_scanner.py:123-126 | the VMware registry line "00-50-56   (hex)\tVMware, Inc.\n" binds "00:50:56" to "VMware, Inc." |
| `Scanner.OuiTableRegistryLine` | wifi_scanner.py:122-127 | loading that line stores "VMware, Inc." under "00:50:56" and leaves the rest of the table as it was, as test_network_scanner.py:27-32 expects |
| `Scanner.OuiTableKeys` | wifi_scanner.py:122-127 | after loading, a prefix is in the table exactly when it was before or some line defines it |
| `Scanner.OuiTableLastWins` | wifi_scanner.py:122-127 | a prefix's vendor is the one on the last line defining it; `ParseOuiLineOf` says what that line's binding is |
| `Scanner.OuiTableUntouched` | wifi_scanner.py:122-127 | a prefix no line defines keeps its vendor |
| `Scanner.NetworkScanner.constructor` | wifi_scanner.py:21-29 | `my_ip` is the socket address; `my_mac` is the rendered node number, or unset when detection raised; `vendors` is the table loaded from the OUI lines |
| `Scanner.NetworkScanner.LoadOui` | wifi_scanner.py:118-127 | the vendor table becomes the old table updated by the lines, in order; the self fields are unchanged |
| `Scanner.SweepCandidates` | wifi_scanner.py:220 | exactly 254 candidates, the k-th being prefix + "." + (k+1) |
| `Scanner.SweepCandidatesDistinct` | wifi_scanner.py:220 | no candidate is probed twice |
| `Scanner.RangeSweepsOwnSubnet` | wifi_scanner.py:146-154 | for this host's address "a.b.c.…", the range is defined and the sweep prefix taken from it is "a.b.c" |
| `Scanner.SweepPrefixOfRange` | wifi_scanner.py:215-217 | the prefix of "a.b.c.0/24" is "a.b.c" |
| `Scanner.DefaultRangeSweep` | wifi_scanner.py:146-154 | when this host's address is unknown the range is "192.168.1.0/24", and the sweep prefix taken from it is "192.168.1", so 192.168.1.1 to 192.168.1.254 are probed |
| `Scanner.RespondingMembers` | wifi_scanner.py:225-227 | the responders kept are exactly the candidates that answered, in candidate order, without repeats |
| `Scanner.PingIpsDistinct` | wifi_scanner.py:207-232 | the sweep's result has no repeats and holds exactly the answering candidates of the range |
| `Scanner.PingSweep` | wifi_scanner.py:207-232 | the loop's result equals the responders in candidate order, and is empty when the range cannot be cut into a prefix |
| `Scanner.ArpDevices` | wifi_scanner.py:171-176 | one record per ARP reply |
| `Scanner.NotReportedMembers` | wifi_scanner.py:290-291 | the addresses sent to the fallback are exactly the swept ones the ARP stage missed, without repeats when the sweep has none |
| `Scanner.AugmentIsFallbacks` | wifi_scanner.py:290-310 | the appended records are, in order and one for one, the fallback records of the addresses the ARP stage missed |
| `Scanner.MergeProperties` | wifi_scanner.py:283-312 | the ARP records come first, unchanged; every swept address appears; the length is the ARP count plus the missed count; addresses are distinct when both stages are duplicate-free |
| `Scanner.UnresolvedKept` | wifi_scanner.py:296-310 | a swept address that neither the system table nor the self check resolves is kept, as "Unknown" with vendor "Unknown (ICMP Response)" |
| `Scanner.SelfFoundBySweep` | wifi_scanner.py:296-302 | this host, found only by the sweep, is recorded with its own address as "THIS COMPUTER" |
| `Scanner.NetworkScanner.Fallback` | wifi_scanner.py:294-310 | the fallback record for one address: the system table's address, else the self address, else the placeholder |
| `Scanner.NetworkScanner.AddSweepOnly` | wifi_scanner.py:288-310 | the loop appends to the ARP list exactly the merged fallback records |
| `Scanner.NetworkScanner.Scan` | wifi_scanner.py:274-312 | the result is the merge of the ARP records and the sweep of the detected range, or nothing where the range computation raises |
| `SystemArp.LinuxRowsLookupFirstMatch` | wifi_scanner.py:258-268 | an answer exists exactly when some data row has the address in field 0 and a non-zero hardware address in field 3; it is the first such row's, upper-cased |
| `SystemArp.LinuxArpLookup` | wifi_blocker.py:241-248 | the line-by-line scan with early return gives the Linux answer |
| `SystemArp.WindowsLookupFirstMatch` | wifi_scanner.py:249-255 | an answer exists exactly when some line contains the address and a 17-character dashed token; it is the first such line's first such token, with ':' for '-' and upper-cased |
| `SystemArp.WindowsArpLookup` | wifi_blocker.py:234-239 | the line-by-line, token-by-token scan with early return gives the Windows answer |
| `SystemArp.GetMacFromSystem` | wifi_blocker.py:224-251 | the ARP-table lookup per platform, `None` when the table could not be read |
| `BlockerParse.GatewayIp` | wifi_blocker.py:186-222 | a gateway that is found is never empty |
| `BlockerParse.IpconfigGatewayNonEmpty` | wifi_blocker.py:197-203 | the Windows search returns only non-empty text |
| `BlockerParse.IpconfigGatewayCons` | wifi_blocker.py:197-203 | the first line answers when it is a "Default Gateway" line with a '.' and non-empty text after its first ':', otherwise the search goes on |
| `BlockerParse.IpconfigGatewayFirstMatch` | wifi_blocker.py:197-203 | a gateway is found exactly when some line answers, and it is the stripped text after the first ':' of the first such line |
| `BlockerParse.RouteGatewayNonEmpty` | wifi_blocker.py:209-214 | the route-file search returns only non-empty text |
| `BlockerParse.RouteLineDecodes` | wifi_blocker.py:210-214 | a default-route line whose gateway field holds bytes b0 b1 b2 b3 gives "b3.b2.b1.b0" |
| `BlockerParse.RouteGatewaySkips` | wifi_blocker.py:209-211 | lines of other routes are passed over |
| `BlockerParse.FallbackIsDotOne` | wifi_blocker.py:218-222 | with no system answer, the gateway of "a.b.c.d" is "a.b.c.1" |
| `BlockerParse.Put` | wifi_blocker.py:326 | dictionary assignment: the key set gains the key; a new key goes at the end; an old key keeps its place; keys stay distinct |
| `BlockerParse.GetPut` | wifi_blocker.py:326 | after assignment the key reads its new value and every other key reads what it did |
| `BlockerParse.ReadWindowsLine` | wifi_blocker.py:316-326 | the token loop of one `arp -a` line fills exactly the bindings the line defines |
| `BlockerParse.ReadWindowsTable` | wifi_blocker.py:315-326 | the line loop fills exactly the table the `arp -a` text defines |
| `BlockerParse.ReadLinuxTable` | wifi_blocker.py:330-337 | the row loop fills exactly the table the rows of `/proc/net/arp` define |
| `BlockerParse.ReadArpCache` | wifi_blocker.py:303-341 | the table read is the Windows table, the Linux table after its header, or empty when there is no output or no header |
| `BlockerParse.ArpCacheDistinct` | wifi_blocker.py:304-342 | the table never binds an address twice |
| `BlockerParse.LinuxEntriesFromRows` | wifi_blocker.py:330-338 | every Linux binding comes from a complete row with a non-zero hardware address |
| `BlockerParse.LinuxEntriesLast` | wifi_blocker.py:332-337 | the last row sets the address it completes to its upper-cased hardware address and leaves every other address as it was |
| `BlockerParse.LinuxEntriesLastWins` | wifi_blocker.py:330-337 | every address of a complete row with a non-zero hardware address is bound, to the upper-cased field 3 of the last such row |
| `BlockerParse.LinuxEntriesUntouched` | wifi_blocker.py:330-337 | an address no complete row names reads what it read before |
| `BlockerParse.WindowsTokensLast` | wifi_blocker.py:318-326 | a valid dotted address followed by a 17-character dashed token is set to that token with ':' for '-', upper-cased; other addresses are unchanged |
| `BlockerParse.WindowsTokensLastWins` | wifi_blocker.py:318-326 | within a line, the last token binding an address decides its hardware address |
| `BlockerParse.WindowsTokensUntouched` | wifi_blocker.py:318-326 | tokens that bind other addresses leave an address as it was |
| `BlockerParse.WindowsLineUntouched` | wifi_blocker.py:315-326 | a line none of whose tokens binds an address leaves it as it was |
| `BlockerParse.WindowsEntriesLastWins` | wifi_blocker.py:315-326 | every valid dotted address followed by a dashed 17-character token is bound, in colon form and upper-cased, by the last such token of the last line that has one |
| `BlockerParse.WindowsEntriesUntouched` | wifi_blocker.py:315-326 | an address no line binds reads what it read before |
| `BlockerParse.Note` | wifi_blocker.py:273-279 | the note is " [GATEWAY]", " [YOU]" or " [BLOCKED]" exactly when the address is the gateway, else this host, else actively blocked; it is "" otherwise |
| `BlockerParse.SubnetFilterAdmitsNeighbour` | wifi_blocker.py:272 | the filter as written admits "192.168.10.5" for prefix "192.168.1", which the intended filter rejects |
| `BlockerParse.InSubnetIff` | wifi_blocker.py:260-272 | the corrected filter keeps "a.b.c.d" exactly when a, b, c are the prefix's three parts |
| `BlockerParse.Listing` | wifi_blocker.py:271-285 | every listed device passes the filter as written, `ip.startswith(prefix)` |
| `BlockerParse.ListingMembers` | wifi_blocker.py:271-285 | a device is listed exactly when some table binding passes `ip.startswith(prefix)`, with that binding's address and its note |
| `BlockerParse.OctalPartRejected` | wifi_blocker.py:319-325 | a last part such as "08", with a leading '0' and an '8' or '9', makes the token fail `inet_aton`, so it is not an address |
| `BlockerParse.ListingKeepsNeighbour` | wifi_blocker.py:271-285 | the listing for prefix "192.168.1" keeps a binding for "192.168.10.5", with its note |
| `BlockerParse.InSubnetIsAsWritten` | wifi_blocker.py:272 | the corrected filter admits nothing the written one rejects |
| `BlockerParse.KeepSubnet` | wifi_blocker.py:272 | the corrected filter keeps exactly the devices of the listing in the prefix's /24 |
| `BlockerParse.IntendedListingMembers` | wifi_blocker.py:271-285 | under the corrected filter, a device is listed exactly when some table binding's address has the prefix as its first three parts, with that binding's note |
| `BlockerParse.IntendedListingDropsNeighbour` | wifi_blocker.py:271-285 | under the corrected filter the listing for prefix "192.168.1" drops "192.168.10.5" |
| `BlockerParse.Insert` | wifi_blocker.py:287 | inserting adds exactly the inserted pair |
| `BlockerParse.SortPairs` | wifi_blocker.py:287 | the sort of the decorated listing is a permutation of it |
| `BlockerParse.SortPairsSorted` | wifi_blocker.py:287 | the decorated listing comes out ordered by key |
| `BlockerParse.UndecorateSortPairs` | wifi_blocker.py:287 | sorting the decorated listing keeps exactly the devices it carries |
| `BlockerParse.SortByAddressSorted` | wifi_blocker.py:287 | the sorted listing is ordered by the numeric address key and is a permutation of the input |
| `BlockerParse.InsertSorted` | wifi_blocker.py:287 | inserting into a list sorted by key keeps it sorted |
| `BlockerParse.ScanListingCached` | wifi_blocker.py:253-293 | a listing that reaches `cached_devices` is sorted by address, is a permutation of the filtered annotated table, and every address starts with the prefix |
| `BlockerParse.TokenIndex` | wifi_blocker.py:570-574 | a token contributes one index exactly when it reads as an integer after stripping |
| `BlockerParse.IndicesOfTokens` | wifi_blocker.py:568-574 | the loop collects, in order, one index per token that reads as an integer |
| `BlockerParse.ParseDeviceNumbers` | wifi_blocker.py:563-576 | the result equals the integer tokens of the input, commas read as spaces, each minus one |
| `BlockerParse.DeviceNumbersOfRendered` | wifi_blocker.py:569-576 | typed numbers n give back the indices n - 1, in order |
| `BlockerParse.ParseRendered` | wifi_blocker.py:563-576 | device numbers typed with commas, or with spaces, are parsed back to their zero-based indices, in the order typed |
| `BlockTable.BlockOutcome` | wifi_blocker.py:388-427 | success exactly when Npcap is present, the target is neither gateway nor self, is not actively blocked, and has a MAC; otherwise the message of the first failing guard, in the code's order |
| `BlockTable.BlockedTable` | wifi_blocker.py:399-411 | on success a fresh entry {mac, active, not yet successful} is added and other entries are unchanged; otherwise the table is unchanged |
| `BlockTable.UnblockedTable` | wifi_blocker.py:507 | the entry is removed and every other entry is unchanged |
| `BlockTable.BlockKeepsWellFormed` | wifi_blocker.py:393-411 | blocking never adds the gateway, this host, or an entry without a MAC |
| `BlockTable.BlockIsIdempotent` | wifi_blocker.py:399-400 | blocking an actively blocked address again is refused with "Already blocked" and changes nothing |
| `BlockTable.BlockReplacesInactive` | wifi_blocker.py:399-411 | an inactive entry does not prevent a new block; it is replaced by a fresh active one |
| `BlockTable.BlockThenUnblock` | wifi_blocker.py:406-411 | blocking an untracked address and unblocking it gives back the original table |
| `BlockTable.UnblockKeepsWellFormed` | wifi_blocker.py:507 | unblocking keeps the table well formed |
| `BlockTable.CountStep` | wifi_blocker.py:369-372 | each pass adds one to exactly one counter: success when the spoof to the target went out |
| `BlockTable.FinishedTable` | wifi_blocker.py:384-386 | after the loop only `success` of this entry changes, set to whether any spoof went out, and only if the entry is still there |
| `BlockTable.RunCountsTotals` | wifi_blocker.py:363-386 | the counters sum to the number of passes; successes count the passes whose spoof went out; `success` is true exactly when some spoof went out |
| `BlockTable.FinishedAfterUnblock` | wifi_blocker.py:365-385 | once unblocked, the loop stops and writes no `success` flag |
| `BlockTable.FinishedKeepsWellFormed` | wifi_blocker.py:385-386 | writing the `success` flag keeps the table well formed |
| `BlockTable.Spoof` | wifi_blocker.py:350-356 | a spoof frame goes to the target and claims the spoofed address without a true sender MAC |
| `BlockTable.SpoofFrames` | wifi_blocker.py:368-376 | one pass sends the target spoof when Npcap and `send` allow; when the gateway MAC is known, it then sends the gateway spoof; no frame carries a true sender MAC |
| `BlockTable.RestoreFrames` | wifi_blocker.py:496-502 | six frames, alternately telling the target the gateway's true MAC and the gateway the target's |
| `BlockTable.RestoreFramesAreTruthful` | wifi_blocker.py:496-502 | every restore frame binds its sender address to that address's own hardware address |
| `BlockTable.RestoreCount` | wifi_blocker.py:493-505 | no restore frames without Npcap and a known gateway MAC; all six when no send raises; never more |
| `BlockTable.RestoreSent` | wifi_blocker.py:485-505 | an untracked address gets no frames; a tracked one gets the restore count |
| `BlockTable.AllRestoresAreTruthful` | wifi_blocker.py:510-522 | unblocking all never spoofs: each frame binds the gateway's address to the gateway's known MAC, or an unblocked address to the MAC its table entry records; at most six per address, and exactly six when Npcap and the gateway MAC are present and no send raises |
| `Blocker.DetectNetwork` | wifi_blocker.py:127-165 | detection succeeds exactly when the local address is known and a gateway is found; the own address is the socket's; the gateway is non-empty |
| `Blocker.DetectedNetwork` | wifi_blocker.py:139-151 | without a route answer the gateway of "a.b.c.d" is "a.b.c.1"; the own MAC is canonical; the gateway MAC is the ARP-table lookup for the gateway |
| `Blocker.NewWiFiBlocker` | wifi_blocker.py:95-110 | no blocker where detection makes the program exit; otherwise a fresh blocker with the detected network, the platform, the Npcap flag, administrator rights exactly when the privilege check is on and passes, and empty state |
| `Blocker.WiFiBlocker.constructor` | wifi_blocker.py:95-110 | all fields from the detected network; `has_admin` is looked up only when privileges are checked; empty table, listing and outbox |
| `Blocker.WiFiBlocker.BlockDevice` | wifi_blocker.py:388-427 | the result and the new table are the block outcome for the MAC the ARP table gives; the table stays well formed |
| `Blocker.WiFiBlocker.SendArpSpoof` | wifi_blocker.py:344-359 | success exactly when Npcap is present and `send` does not raise; the spoof frame is sent exactly then |
| `Blocker.WiFiBlocker.BlockThreadStep` | wifi_blocker.py:361-386 | while the entry is active: count, send this pass's spoof frames, leave the table alone; once inactive or gone: write `success`, send nothing |
| `Blocker.WiFiBlocker.UnblockDevice` | wifi_blocker.py:483-508 | true exactly when the address was tracked; the entry is removed; the restore frames sent are those of the old entry |
| `Blocker.WiFiBlocker.SendRestores` | wifi_blocker.py:495-505 | the six restore frames in order, cut off at the send that raises |
| `Blocker.WiFiBlocker.KeySnapshot` | wifi_blocker.py:520 | the snapshot holds each tracked address exactly once |
| `Blocker.WiFiBlocker.UnblockEach` | wifi_blocker.py:521-522 | unblocking a duplicate-free snapshot removes exactly its addresses and sends their restore frames in snapshot order |
| `Blocker.WiFiBlocker.UnblockAll` | wifi_blocker.py:510-525 | the table ends empty; the snapshot names each old entry once; the frames are all the old entries' restores in snapshot order |
| `Blocker.WithoutKeys` | wifi_blocker.py:520-522 | unblocking a list of addresses removes exactly those addresses |
| `Blocker.WithoutUntouched` | wifi_blocker.py:521-522 | unblocking other addresses leaves an entry as it was |
| `Blocker.UnblockEachStep` | wifi_blocker.py:521-522 | one more pass of the loop removes the next address and adds its restores, as read from the table before the loop |
| `Blocker.WiFiBlocker.ScanNetwork` | wifi_blocker.py:253-293 | the result is the listing of the ARP table read, and it replaces `cached_devices` exactly when the scan did not raise part-way |
| `Blocker.BlockRun` | wifi_blocker.py:444-463 | one summary row per index |
| `Blocker.BlockRunTable` | wifi_blocker.py:444-463 | the table stays well formed and keeps every tracked address; without Npcap it does not change and no row succeeds |
| `Blocker.BlockRunRows` | wifi_blocker.py:448-462 | each row is numbered index + 1; it names the listed device when the index is in range and is an "N/A"/"Invalid number" failure otherwise |
| `Blocker.BlockRunSuccess` | wifi_blocker.py:450-456 | every row that reports success names a device that is still actively blocked after the whole run |
| `Blocker.TypedNumbersReported` | wifi_blocker.py:444-463 | the numbers typed by the user come back as the summary's row numbers, in the order typed |
| `Blocker.CountOk` | wifi_blocker.py:472-480 | the success count is at most the number of rows |
| `Blocker.CountSuccesses` | wifi_blocker.py:472-477 | the loop counts exactly the rows that report success |
| `Blocker.WiFiBlocker.BlockMultiple` | wifi_blocker.py:429-481 | nothing happens without a listing or without Npcap; otherwise the rows and the new table are those of the run in index order, and the total counts the successful rows |
| `Database.LastEntry` | main.py:237 | the last cache entry with a MAC, or none exactly when no entry carries it |
| `Database.BuildCacheMap` | main.py:237 | the loop builds exactly the dictionary of the cache keyed by MAC |
| `Database.CacheMapIsLastEntry` | main.py:237 | the dictionary built from the cache maps each MAC to its last cache entry and holds no other MAC |
| `Database.MergedStatus` | main.py:238-269 | the new cache is the scan in order and of the same length; a device differs only in status, inheriting the old cache's status exactly when the MAC's last cache entry has one other than "Unknown" |
| `Database.RecordedKeys` | main.py:240-255 | after a scan the history's keys are the old keys plus the scanned MACs |
| `Database.RecordedLastSeen` | main.py:244-254 | every scanned MAC is last seen at the scan time |
| `Database.RecordedFirstSeen` | main.py:244-255 | an old MAC keeps `first_seen` and status; a new MAC is first seen at the scan time with status "Unknown" |
| `Database.RecordedUntouched` | main.py:240-255 | a MAC the scan does not name keeps its history unchanged |
| `Database.RecordedVendor` | main.py:247-250 | a scanned vendor becomes the recorded vendor, the last scan entry for the MAC winning |
| `Database.DatabaseManager.constructor` | main.py:54-64 | an empty session cache, and the statuses and history loaded from file |
| `Database.DatabaseManager.SaveScanResults` | main.py:231-273 | the history becomes the recorded history and the cache the merged scan |
| `Database.WithStatus` | main.py:285-288 | marking keeps the cache's length |
| `Database.WithStatusChanges` | main.py:285-288 | every entry with the MAC gets the status; nothing else of any entry changes |
| `Database.DatabaseManager.MarkDeviceAsKnown` | main.py:283-305 | every cache entry with the MAC becomes "Known"; the override is set; the result is true |
| `Database.DatabaseManager.MarkDeviceAsUnknown` | main.py:307-329 | every cache entry with the MAC becomes "Unknown"; the override is set; the result is true |
| `Database.MarkedStatusShown` | main.py:119-146 | after marking, both history queries show the marked status |
| `Database.MarkedStatusSurvivesScan` | main.py:237-261 | a cached device marked "Known" keeps that status through the next scan that sees it |
| `Database.Dropped` | main.py:219 | deleting never lengthens the cache |
| `Database.DroppedMembers` | main.py:219 | after deleting, the cache holds exactly the entries with another MAC |
| `Database.MacCount` | main.py:219 | the count of entries with the MAC is zero exactly when no entry carries it |
| `Database.DroppedCount` | main.py:219 | deleting shortens the cache by the number of entries with the MAC, and by nothing else |
| `Database.DroppedAppend` | main.py:219 | deleting keeps the order of the remaining entries |
| `Database.DatabaseManager.DeleteDevice` | main.py:216-221 | offline, the cache drops the entries with the MAC and the result is true |
| `Database.DatabaseManager.GetAllHistoryDevices` | main.py:119-130 | one row per history entry, each MAC once, with the status override applied and "Unknown"/"N/A" for missing fields |
| `Database.DatabaseManager.GetHistoryByDateRange` | main.py:132-156 | rows for exactly the entries with `last_seen >= start` and `first_seen <= end` in string order, each MAC once |
| `Database.PadDate` | main.py:1032-1035 | a 10-character date gets the time appended; anything else is left as it is |
| `Database.PadHistoryDates` | main.py:1022-1035 | nothing is queried when either stripped date is empty; otherwise the stripped dates, padded |
| `Database.ClockWithinDay` | main.py:1033-1035 | every time of day lies between " 00:00:00" and " 23:59:59" in string order |
| `Database.PaddedRangeIsDayRange` | main.py:1022-1035 | for two bare days, the padded query selects exactly the devices last seen on or after the from-day and first seen on or before the to-day |
| `Database.DayDecides` | main.py:142 | between strings with equal-length heads and ordered tails, the heads decide the order |
| `Database.ActiveBlocks` | main.py:1628-1634 | one `{ip, mac}` record per active table entry, each address once, and none for an inactive entry |
| `Database.SaveBlockedDevices` | main.py:1620-1634 | nothing is saved without a blocker; otherwise exactly the active entries' addresses and MACs |

## Left out

- Threads and sleeps are left out. The blocking loop is one method per pass (`BlockThreadStep`) on an explicit table, and the model is sequential.
- `BlockDevice` never reaches "Failed to start". That branch needs another thread to unblock during the 0.5-second grace period.
- `BlockThreadStep` omits the outer `except`/`break` of `_block_thread` (wifi_blocker.py:380-382). Inside it, only `send` can raise, and `_send_arp_spoof` catches that.
- `block_device_action` in the GUI is not part of this model. It blocks by writing the table directly; `WiFiBlocker`'s methods are the authority on the table.
- The `running` field and the `thread` handle are not modelled.
- The interactive front end is output only: `list_blocked`, `print_menu`, the menu loop and the signal handler. So are the printed summary of `block_multiple` and every log line.
- System calls are inputs, not modelled:
  - `subprocess` ping, `arp` and `ipconfig`;
  - scapy `srp` and `send`;
  - the socket trick for the own address and `uuid.getnode()`;
  - the admin and Npcap probes.
- The `sys.exit` of `_check_admin` is not modelled: the scanner assumes it runs as administrator. `_detect_network`'s exit is modelled as `NewWiFiBlocker` returning `None`.
- The OUI download and file reading are not modelled. `LoadOui` takes the file's lines.
- `IsDottedQuad` takes `socket.inet_aton` as four parts of one to three digits, each at most 255. A part of two or more digits with a leading '0' is octal to `inet_aton`, so the model rejects it when it holds an '8' or a '9' (`OctalPartRejected`). Two forms `inet_aton` also accepts are not modelled: hexadecimal parts, and octal parts of four or more digits such as "0377". The model rejects those tokens, so `_read_arp_cache` can record an address the model skips. Shorter forms do not arise, because `_read_arp_cache` only tries tokens with three dots.
- `Text.ParseInt` accepts ASCII decimal digits only. Python's `int()` also accepts other Unicode digits.
- `BlockerParse.AddressKey` does not strip whitespace around address parts as `int()` does. The addresses come from whitespace-split tokens, so they hold none.
- `Text.Upper` upper-cases ASCII letters only.
- The iteration order of Python dictionaries is not modelled for `blocked_devices`, `device_history` and the table `_save_blocked_devices` reads. Results built from them are stated for any order: each key once, exactly the selected keys. The ARP-table dictionary of `_read_arp_cache` does keep its insertion order.
- `BlockerParse.SortByAddressSorted` states order and permutation but not stability. Equal keys occur only for addresses such as "1.2.3.4" and "01.2.3.4".
- `BlockMultiple` reads one ARP-table snapshot for the whole call. The source reads the table again for each `block_device`.
- `DatabaseManager` is modelled offline only. `neo4j_manager.py` is not part of this model, and neither are the Neo4j branches of the modelled methods, `_load_initial_cache`, `fetch_devices`, `get_scan_history` or `close`. Both mark methods return true on every path, so their `ok` holds online too.
- JSON loading and saving are not modelled. The dictionaries are the state, and saves are no-ops.
- Aliasing of the scan's device dictionaries is not modelled. `save_scan_results` writes the inherited status into the caller's own dictionaries; the model produces new records. The same holds for `final_results = arp_devices` in `scan`.
- `Database.PaddedRangeIsDayRange` assumes `HH:MM:SS` with seconds below 60. Leap seconds 60 and 61, which `strftime` can print, are not covered.
- `get_history_by_date_range`'s `except` is not modelled. Comparing two strings cannot raise, so the branch is dead.

Two points where the code's behaviour is easy to misread:

- `block_device` checks for Npcap first, then the gateway, self, an already-active block and the MAC. The model keeps that order, so a missing Npcap is reported even for the gateway.
- The scan does not deduplicate the ARP stage, so `MergeProperties` states distinct addresses only when the ARP stage has no duplicates.

## Findings

| source | as written | input that shows it | evidently intended | confidence | as-written member | corrected member |
|---|---|---|---|---|---|---|
| wifi_blocker.py:272 | `ip.startswith(prefix)` keeps every address whose text starts with "a.b.c" | `ip = "192.168.10.5"`, `prefix = "192.168.1"`: the device of 192.168.10.0/24 is listed as part of 192.168.1.0/24 | keep an address exactly when its first three parts are the prefix's: `ip.startswith(prefix + ".")` | not executed | `BlockerParse.ListingKeepsNeighbour` | `BlockerParse.IntendedListingMembers` |

`ScanListing` and `WiFiBlocker.ScanNetwork` keep the filter as written. The corrected filter `InSubnet` and the listing built on it, `IntendedListing`, stand beside them.
