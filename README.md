# rpi-status-network: device registry and device table, in Dafny

This project models two parts of the Raspberry Pi status/network dashboard and proves properties about them.

**The network scanner's device registry** (`network-scanner/src/scanner.py`). Each sweep, `scan_network` does five things:
- it records a scan;
- it quick-scans every discovered host, plus the local address;
- it upserts each host that has a MAC into `devices`, keyed by MAC, COALESCEing the host name and manufacturer;
- it looks each host up again by `(ip_address, last_scan_id)` and runs the detailed scan, which rewrites `os_info` and appends port rows;
- finally, it marks every device this scan did not touch inactive.

The three SQLite tables are fields of the class `Registry.Database`: sequences in rowid order, plus the next AUTOINCREMENT id. Each SQL statement is a function on those sequences. The Python loops are the loops of the class's methods. Each method is proved equal to a fold over the hosts (`FirstPass`, `SecondPass`). Lemmas about the folds give what the scan promises:
- MACs stay unique, rowids stay increasing and port rows point at existing devices (`Database.Valid`);
- no device is deleted, and its id, MAC and `first_seen` never change;
- a NULL never erases a known host name or manufacturer;
- every device touched by the scan has the scan's single timestamp and is active; every other device keeps exactly the values it had, except that it is now inactive;
- the port history only grows, and only by rows of this scan: exactly the port rows of the detailed scans of the rows found, host by host;
- each row found in the second pass ends with the OS guess of its last successful detailed scan;
- every stored host ends with an active row; among hosts sharing a MAC, the last one scanned wins;
- hosts without a MAC change nothing.

The pure helpers are in module `ScannerHelpers`:
- the subnet to sweep;
- the target list, which gains the local address only if it was absent;
- the short host name parsed from `nslookup` output, with its reverse-DNS fallback.

Module `Text` gives the Python string operations the helpers rely on: `split`, `join`, `strip`, `rstrip`, `splitlines`, `lower` and `in`.

**The dashboard's device table** (`frontend/src/App.js`), in module `Dashboard`:
- the metric colour bands;
- the two-minute staleness test;
- the default sort, the direction toggle and the header arrows;
- the row comparator, modelled as the JavaScript it is:
  - `parseInt` on each dot-separated part, with `NaN` and `undefined` octets and `!==` between them;
  - `new Date(x || 0)` for the two `seen` columns;
  - `<` on strings for the rest;
- the copied-then-sorted device list.

The comparator is proved antisymmetric and transitive. Descending is proved to be ascending with the arguments swapped. `Array.prototype.sort` is modelled as an insertion sort on a fresh array copy, proved to return a sorted permutation and to leave the input array as it was.

Everything the scanner gets from the outside world arrives as a parameter:
- the sweep result;
- the DNS and MAC-vendor lookups;
- the detailed nmap scans;
- the clock.

Timestamps are integers (milliseconds).

## Model

| member | source | states |
|---|---|---|
| `Wrappers.Coalesce` | network-scanner/src/scanner.py:197-198 | SQL `COALESCE(new, old)`: the new value unless it is NULL, and never NULL when the old value was known |
| `Text.Split` | network-scanner/src/scanner.py:42-44 | `str.split` on one character always yields at least one part, and no part contains the separator |
| `Text.JoinSplit` | network-scanner/src/scanner.py:147 | `'.'.join(s.split('.'))` gives back `s` |
| `Text.Join` | network-scanner/src/scanner.py:147 | `sep.join(parts)`: no parts give the empty string; the result starts with the first part, and right after it comes the separator when there is a second part |
| `Text.SplitJoin` | network-scanner/src/scanner.py:147 | splitting a join of dot-free parts gives back the parts |
| `Text.SplitFirst` | network-scanner/src/scanner.py:44 | `s.split('.')[0]` is the longest dot-free prefix of `s`: all of `s`, or followed by a dot |
| `Text.TrimStart` | network-scanner/src/scanner.py:42 | the leading-whitespace half of `strip()`: a suffix of the input, having dropped only white space, and not starting with white space |
| `Text.TrimEnd` | network-scanner/src/scanner.py:42 | the trailing-whitespace half of `strip()`: a prefix of the input, having dropped only white space, and not ending in white space |
| `Text.TrimEndChar` | network-scanner/src/scanner.py:42 | `rstrip('.')`: a prefix of the input, having dropped only dots, and not ending in a dot |
| `Text.Strip` | network-scanner/src/scanner.py:42 | `strip()`: never longer than the input, neither starting nor ending with white space, and the identity on a string without white space |
| `Text.LineEnd` | network-scanner/src/scanner.py:39 | the first line break of the text, the boundary `splitlines()` cuts at |
| `Text.SplitLines` | network-scanner/src/scanner.py:39 | `splitlines()`: no lines iff the text is empty, no line holds a line break, and a non-empty text without breaks is one line |
| `Text.LineEndAfterLine` | network-scanner/src/scanner.py:39 | a break-free line followed by a line break is cut exactly at that break |
| `Text.SplitLinesAtBreak` | network-scanner/src/scanner.py:39 | `splitlines()` cuts at the first break, which is two characters wide for `\r\n` and one otherwise |
| `Text.SplitLinesCons` | network-scanner/src/scanner.py:39 | a break-free line ended by a single line break (not the `\r` of `\r\n`) is the first line, and the rest of the text gives the remaining lines |
| `Text.SplitLinesCrLf` | network-scanner/src/scanner.py:39 | a break-free line ended by `\r\n` is the first line, the pair is one break, and the rest of the text gives the remaining lines |
| `Text.Lower` | network-scanner/src/scanner.py:40 | `lower()` maps each character through ASCII lower-casing and keeps the length |
| `Text.ContainsChar` | network-scanner/src/scanner.py:40-42 | every character of a substring found in `s` is in `s` (so a `name = ` line contains `=`) |
| `Text.LexTrichotomy` | frontend/src/App.js:196-201 | JavaScript `<` on strings is a strict total order: asymmetric, irreflexive, and any two strings are equal or ordered |
| `Text.LexTransitive` | frontend/src/App.js:196-201 | JavaScript `<` on strings is transitive |
| `ScannerHelpers.Subnet` | network-scanner/src/scanner.py:144-150 | the subnet ends in `.0/24`, and is `10.0.0.0/24` when there is no local address (None or empty) |
| `ScannerHelpers.SubnetOfDottedQuad` | network-scanner/src/scanner.py:147 | for a local address `a.b.c.d` the subnet is `a.b.c.0/24` |
| `ScannerHelpers.ScanTargets` | network-scanner/src/scanner.py:176-181 | the discovered hosts come first and unchanged, at most the local address is added, and a known local address is always among the targets |
| `ScannerHelpers.ScanTargetsNoDuplicates` | network-scanner/src/scanner.py:180-181 | adding the local address never introduces a duplicate host |
| `ScannerHelpers.LowerKeepsEquals` | network-scanner/src/scanner.py:40 | only `=` lower-cases to `=`, so a line whose lower-cased form holds `name = ` holds `=` itself |
| `ScannerHelpers.IsNameLine` | network-scanner/src/scanner.py:40 | a line passing the `'name = ' in line.lower()` test contains `=` |
| `ScannerHelpers.NameLineHasField` | network-scanner/src/scanner.py:40-42 | an answer line has a second `=`-separated field, so `split('=')[1]` cannot fail |
| `ScannerHelpers.FullName` | network-scanner/src/scanner.py:42 | `line.split('=')[1].strip().rstrip('.')` holds no `=`, does not start with white space and does not end in a dot |
| `ScannerHelpers.ShortName` | network-scanner/src/scanner.py:42-44 | the host name has no dot, is a prefix of the stripped full name after `=`, and ends where that name ends or at its first dot |
| `ScannerHelpers.NslookupAnswer` | network-scanner/src/scanner.py:39-46 | the answer the line loop returns has no dot |
| `ScannerHelpers.NslookupAnswerIsFirst` | network-scanner/src/scanner.py:39-46 | there is an answer iff some line is a `name = ` line, and it is the short name of the first such line |
| `ScannerHelpers.HostnameFromNslookup` | network-scanner/src/scanner.py:39-46 | the line loop returns exactly the first answer line's short name, or nothing |
| `ScannerHelpers.GetHostname` | network-scanner/src/scanner.py:27-54 | an `nslookup` that times out or raises gives None; otherwise the nslookup answer, or, when no output line is a `name = ` line, the first label of the reverse-DNS name, or None when that lookup fails; never a dotted name |
| `Registry.QuickScan` | network-scanner/src/scanner.py:75-92 | the basic info has the host's IP and `Scanning...`; a MAC exactly when `addresses` has one, with its vendor as manufacturer; a host-name lookup only when `addresses` is present |
| `Registry.EvolvedTransitive` | network-scanner/src/scanner.py:186-247 | keeping every row's id, MAC, `first_seen` and known name/manufacturer composes across the steps of a scan |
| `Registry.MacIndex` | network-scanner/src/scanner.py:195 | the row `ON CONFLICT(mac_address)` hits: the first row with the MAC, or none when no row has it |
| `Registry.NewDevice` | network-scanner/src/scanner.py:190-194 | the inserted row: the counter's id, the host's IP, MAC, name, manufacturer and `os_info`, `first_seen = last_seen = now`, active, this scan |
| `Registry.Merge` | network-scanner/src/scanner.py:195-201 | the updated row keeps its id, MAC, `first_seen` and `os_info`; IP, `last_seen` and `last_scan_id` are overwritten and it is active; name and manufacturer take the new value unless it is NULL, and otherwise keep the old one |
| `Registry.MergeRowKeepsTable` | network-scanner/src/scanner.py:195-201 | the `DO UPDATE` branch keeps every row's identity, unique MACs and increasing ids below the counter, and the MAC still finds the merged row |
| `Registry.AppendRowKeepsTable` | network-scanner/src/scanner.py:189-194 | the INSERT branch keeps every row's identity, unique MACs and increasing ids below the advanced counter, and the MAC finds the new last row |
| `Registry.MacIndexOfAppended` | network-scanner/src/scanner.py:195 | a row appended under a MAC that no earlier row has is the row `ON CONFLICT(mac_address)` finds |
| `Registry.Upsert` | network-scanner/src/scanner.py:189-209 | the upsert inserts a row exactly when the MAC is unknown: id from the counter, `first_seen = last_seen = now`, active, this scan. Otherwise it merges into the MAC's row: IP, `last_seen`, `last_scan_id` overwritten, active, name and manufacturer COALESCEd. Every other row is untouched, MACs stay unique and ids increasing |
| `Registry.UpsertKnownMac` | network-scanner/src/scanner.py:195-201 | re-observing a known MAC adds no row and consumes no id; `first_seen` and `os_info` are unchanged; name and manufacturer are COALESCEd |
| `Registry.StoreHost` | network-scanner/src/scanner.py:186-216 | one first-pass iteration: a host missing from the sweep (`nm[host]` raises) or without a MAC leaves the table and the id counter as they were |
| `Registry.FirstPass` | network-scanner/src/scanner.py:186-216 | the first pass deletes no row and keeps each row's id, MAC, `first_seen` and known name/manufacturer; it keeps MACs unique, never lowers the id counter, and adds at most one row per stored host |
| `Registry.StoredCount` | network-scanner/src/scanner.py:185-211 | `devices_added` is at most the number of targets; it is all of them when every target is storable and 0 when none is |
| `Registry.FirstPassStep` | network-scanner/src/scanner.py:186-211 | the first pass over one more host is one more `StoreHost`, and `devices_added` grows by one exactly when that host is storable |
| `Registry.FirstPassKeepsReferences` | network-scanner/src/scanner.py:186-216 | after the first pass MACs are unique, ids increasing and below the counter, every row names a recorded scan, and every earlier rowid still exists, so the port rows' foreign keys still hold |
| `Registry.StorableHosts` | network-scanner/src/scanner.py:186-211 | the hosts the first pass stores are targets with a MAC in the sweep, and there are `devices_added` of them |
| `Registry.AppendedLocalHostIsSkipped` | network-scanner/src/scanner.py:176-189 | when `all_hosts()` lists exactly the swept hosts, appending the local address changes nothing that is stored (`nm[local_ip]` raises and the host is skipped) |
| `Registry.FirstPassIgnoresHostsWithoutMac` | network-scanner/src/scanner.py:186-216 | a host without a MAC, or missing from the sweep, is neither inserted nor updated: the first pass equals a pass over the storable hosts alone |
| `Registry.FirstPassInvariant` | network-scanner/src/scanner.py:186-216 | the first pass keeps every row's identity and never deletes. MACs stay unique and ids increasing. Each row either was touched by this scan (seen `now`, active) or is exactly what it was |
| `Registry.FirstPassStores` | network-scanner/src/scanner.py:186-211 | every stored host's MAC ends with a row touched by this scan (seen `now`, active). If no later host has the same MAC, that row has this host's IP |
| `Registry.FindByIpAndScan` | network-scanner/src/scanner.py:228-236 | the SELECT finds a device iff some row has that IP and this scan's id, and returns the id of such a row |
| `Registry.OsInfoOf` | network-scanner/src/scanner.py:105-107 | the name of the first OS match, or `Unknown` when there is none |
| `Registry.PortRowOf` | network-scanner/src/scanner.py:118-129 | the port row: this device, this scan, the port, `tcp`, and the entry's `name` and `version`, or `''` where one is absent |
| `Registry.SetOs` | network-scanner/src/scanner.py:111-115 | `UPDATE devices SET os_info = ? WHERE id = ?`: rows with that id get the OS; every other column, and every other row, is unchanged |
| `Registry.PortRowsOf` | network-scanner/src/scanner.py:117-129 | one port row per tcp entry |
| `Registry.DetailedScan` | network-scanner/src/scanner.py:94-135 | a failed nmap call changes nothing; otherwise only `os_info` changes in `devices`, and the port history keeps its earlier rows as a prefix |
| `Registry.DetailedScanEffect` | network-scanner/src/scanner.py:94-135 | the detailed scan writes the first OS match, or `Unknown`, to that device alone and changes nothing else in `devices`. It appends one `tcp` row per port with this device and scan and keeps the earlier rows. A failed nmap call changes nothing |
| `Registry.SecondPass` | network-scanner/src/scanner.py:226-240 | the second pass changes no column of `devices` but `os_info`, and keeps the earlier port rows as a prefix; what it writes is stated by `SecondPassPorts` and `SecondPassOs` |
| `Registry.SecondPassInvariant` | network-scanner/src/scanner.py:226-240 | the second pass only rewrites `os_info`, and only of rows this scan touched. Port history keeps every earlier row; each new row belongs to this scan and to a device this scan touched |
| `Registry.FindIgnoresOs` | network-scanner/src/scanner.py:228-231 | rewriting `os_info` does not change which row the SELECT by `(ip_address, last_scan_id)` finds, so the second pass finds every host's row as the first pass left it |
| `Registry.ScanHostPorts` | network-scanner/src/scanner.py:228-236 | one host of the second pass appends that host's port rows: those of its detailed scan, tagged with the row found, or none when no row is found or nmap failed |
| `Registry.SecondPassStep` | network-scanner/src/scanner.py:226-240 | the second pass over one more host is one more iteration on the tables the earlier hosts left |
| `Registry.SecondPassAppends` | network-scanner/src/scanner.py:226-240 | one more host makes the second pass append exactly that host's port rows |
| `Registry.FoundPortsStep` | network-scanner/src/scanner.py:226-240 | the port rows found for one more host follow those of the earlier hosts |
| `Registry.SecondPassPortsStep` | network-scanner/src/scanner.py:226-240 | the inductive step of `SecondPassPorts` |
| `Registry.SecondPassPorts` | network-scanner/src/scanner.py:226-240 | the second pass appends exactly `FoundPorts`: for each host in order whose row the SELECT finds and whose detailed scan succeeds, one `tcp` row per port, tagged with that row's id and this scan |
| `Registry.SecondPassOs` | network-scanner/src/scanner.py:226-240 | every row ends the second pass with `FinalOs`: the OS guess of the last host whose row it is and whose detailed scan succeeded, or its old `os_info` when there is none |
| `Registry.FinalOsIsLastScan` | network-scanner/src/scanner.py:105-115 | the last host whose row is `id` and whose detailed scan succeeded decides that row's OS: its first OS match, or `Unknown` |
| `Registry.FinalOsUntouched` | network-scanner/src/scanner.py:226-240 | a row that no host's successful detailed scan reaches keeps its `os_info` |
| `Registry.MarkInactive` | network-scanner/src/scanner.py:242-247 | afterwards a row is active iff it was active and has this scan's id; nothing else changes and no row is deleted |
| `Registry.Database.Valid` | network-scanner/src/scanner.py:283-320 | the table invariant: MACs unique (`UNIQUE`, line 295), ids increasing and below the AUTOINCREMENT counter, scans numbered from 1, and every device's scan and every port row's device and scan exist (the foreign keys, lines 304 and 317-318); it implies that no two rows share an id or a MAC |
| `Registry.Database.constructor` | network-scanner/src/scanner.py:283-320 | the three tables start empty and valid |
| `Registry.Database.CreateScan` | network-scanner/src/scanner.py:168-169 | a new scan record whose id is one more than the last; no device carries that id yet |
| `Registry.Database.DetailedDeviceScan` | network-scanner/src/scanner.py:94-135 | the loop over the tcp entries leaves exactly the state of `DetailedScan`, and the table invariant holds |
| `Registry.Database.UpdateOsInfo` | network-scanner/src/scanner.py:111-115 | the `UPDATE ... SET os_info` leaves `devices` as `SetOs` gives it, keeps the set of rowids and the invariant, and changes no other table |
| `Registry.Database.InsertPortRow` | network-scanner/src/scanner.py:118-129 | one `INSERT INTO port_scans` appends exactly the entry's port row, changes nothing else, and keeps the invariant |
| `Registry.Database.StoreHostOf` | network-scanner/src/scanner.py:187-211 | one iteration of the first-pass loop leaves the tables of `StoreHost` and reports whether the host was stored, exactly when it is `Storable` |
| `Registry.Database.StoreHosts` | network-scanner/src/scanner.py:185-216 | the first-pass loop leaves the tables of `FirstPass` and counts `devices_added` as `StoredCount`, keeping the invariant |
| `Registry.Database.ScanHostDetails` | network-scanner/src/scanner.py:228-236 | one iteration of the second-pass loop: the SELECT, then, when it finds a row, the detailed scan of that device; the tables become those of `ScanHost`, and the invariant holds |
| `Registry.Database.ScanDetails` | network-scanner/src/scanner.py:226-240 | the second-pass loop leaves the tables of `SecondPass`, keeping the invariant |
| `Registry.Database.MarkInactiveDevices` | network-scanner/src/scanner.py:242-247 | the `UPDATE ... SET is_active = 0` leaves `devices` as `MarkInactive` gives it, changes no other table, and keeps the invariant |
| `Registry.Database.ScanNetwork` | network-scanner/src/scanner.py:137-258 | one scan: sweeps `Subnet(localIp)`, records a scan, sets the new state to the inactive marking of both passes over `ScanTargets`, keeps the table invariant, and leaves the tables `Reconciled` |
| `Registry.ScanOutcome` | network-scanner/src/scanner.py:159-247 | after a scan no row is lost and each keeps its identity. A row is active iff this scan touched it, and then its `last_seen` is the scan's single timestamp. Untouched rows are unchanged apart from being inactive. Port history only grows, by rows of this scan |
| `Registry.LastSeenMonotone` | network-scanner/src/scanner.py:199-209 | in a reconciled scan, when `now` is no earlier than any recorded `last_seen`, no earlier row's `last_seen` goes backwards: a touched row gets `now`, an untouched one keeps its time |
| `Registry.ScanKeepsLastSeenOrder` | network-scanner/src/scanner.py:159-247 | a whole scan, with the clock not behind any recorded sighting, leaves every earlier row's `last_seen` at or after its old value |
| `Registry.ScanKeepsStoredHosts` | network-scanner/src/scanner.py:186-247 | every host stored in the first pass still has an active row for its MAC, seen `now`, once the scan ends |
| `Dashboard.GetMetricColor` | frontend/src/App.js:7-12 | good iff ≤ 30, normal iff in (30, 60], warning iff in (60, 80], critical iff > 80: disjoint bands that cover every value |
| `Dashboard.MetricColorMonotone` | frontend/src/App.js:7-12 | a higher value never gets a milder colour |
| `Dashboard.IsDeviceStale` | frontend/src/App.js:220-226 | a device with no `last_seen` is stale; otherwise it is stale iff more than `StaleAfter` (2 · 60 · 1000 ms) have passed since it was seen |
| `Dashboard.StaleStaysStale` | frontend/src/App.js:220-226 | a stale device stays stale as time goes on |
| `Dashboard.StaleAfterTwoMinutes` | frontend/src/App.js:220-226 | a device seen at `t` is stale iff more than 120000 ms have passed; at exactly two minutes it is fresh |
| `Dashboard.DefaultSortConfig` | frontend/src/App.js:166-169 | the initial sort is by `ip_address`, descending, so the first click on the IP header sorts ascending |
| `Dashboard.DefaultSortIcons` | frontend/src/App.js:166-169 | the table starts sorted by IP address descending: that header shows ↓, every other shows ↕️ |
| `Dashboard.RequestSort` | frontend/src/App.js:207-212 | the key becomes the clicked column; the direction is descending iff that column was already sorted ascending |
| `Dashboard.RequestSortToggles` | frontend/src/App.js:207-212 | clicking the same header twice in a row flips the direction each time |
| `Dashboard.SortIcon` | frontend/src/App.js:214-217 | ↕️ iff the header is not the sort column; ↑ iff it is and the sort is ascending; ↓ iff it is and the sort is descending |
| `Dashboard.SortIconAfterRequest` | frontend/src/App.js:207-217 | after a click only the clicked header shows an arrow; it is ↓ iff the column was already ascending, else ↑; others show ↕️ |
| `Dashboard.SafeDevices` | frontend/src/App.js:163 | an array of devices is used as is, and anything else as the empty list |
| `Dashboard.SeenKeys` | frontend/src/App.js:186 | `key.includes('seen')` holds for exactly `first_seen` and `last_seen` |
| `Dashboard.TextField` | frontend/src/App.js:193-194 | `row[key] \|\| ''`: the column's value, or the empty string when it is missing |
| `Dashboard.SeenTime` | frontend/src/App.js:188-189 | `new Date(row[key] \|\| 0)`: the column's timestamp, or the epoch when it is missing |
| `Dashboard.MissingTextSortsFirst` | frontend/src/App.js:193-201 | ascending on a string column, a row missing the value may come before any other row |
| `Dashboard.MissingDateSortsFirst` | frontend/src/App.js:186-190 | ascending on a `seen` column, a row missing the date may come before any row with a date not before the epoch |
| `Dashboard.ParseInt` | frontend/src/App.js:177-178 | `parseInt(s, 10)` is never `undefined`; it is `NaN` on the empty string, the numeral's value on a string of digits, and the negated value on `-` followed by digits |
| `Dashboard.TrimJsSpace` | frontend/src/App.js:177-178 | the leading white space `parseInt` skips: the result does not start with white space (with `TrimJsSpaceDropsSpace`, it is the input less exactly its leading white space) |
| `Dashboard.TrimJsSpaceDropsSpace` | frontend/src/App.js:177-178 | what `parseInt` reads is a suffix of the input, and everything before it is JavaScript white space |
| `Dashboard.ParseIntSkipsSpace` | frontend/src/App.js:177-178 | a leading white-space character does not change what `parseInt` returns |
| `Dashboard.ParseIntDecimal` | frontend/src/App.js:177-178 | `parseInt(String(n), 10)` is `n` for every natural number |
| `Dashboard.Octets` | frontend/src/App.js:177-178 | the comparator reads exactly four octet slots |
| `Dashboard.OctetsOfDottedQuad` | frontend/src/App.js:177-178 | a dotted quad of decimal numerals reads back as its four numbers |
| `Dashboard.CompareIpAddresses` | frontend/src/App.js:176-185 | the four-step octet loop returns the signed difference of the first octets that are not strictly equal, or 0 |
| `Dashboard.IpCompareFrom` | frontend/src/App.js:179-184 | the octet loop from slot `i` returns 0 iff every remaining pair of octets is strictly equal (`===`), and `NaN` only when some remaining octet is not a number |
| `Dashboard.IpCompare` | frontend/src/App.js:177-185 | two addresses compare as 0 iff their four octet slots are strictly equal, and as `NaN` only when some octet is not a number |
| `Dashboard.IpCompareNumeric` | frontend/src/App.js:179-184 | on numeric octets the ascending IP comparison is negative iff the octets are lexicographically smaller, and zero iff all are equal |
| `Dashboard.IpOrderIsNumeric` | frontend/src/App.js:176-185 | two dotted quads compare ascending in numeric octet order |
| `Dashboard.NineAndTenText` | frontend/src/App.js:176-185 | the example addresses are the strings `192.168.1.9` and `192.168.1.10` |
| `Dashboard.NineBeforeTen` | frontend/src/App.js:176-185 | `192.168.1.9` sorts before `192.168.1.10` ascending and after it descending, though string order puts it after |
| `Dashboard.CompareRows` | frontend/src/App.js:173-203 | the comparator the sort calls: IP by octets, `seen` keys by date (`\|\| 0`), others by string (`\|\| ''`), with directions applied |
| `Dashboard.Compare` | frontend/src/App.js:173-203 | off the IP column the comparator always returns a number, never `NaN` |
| `Dashboard.CompareByValue` | frontend/src/App.js:186-202 | off the IP column the comparator gives 0 iff both rows have the same value in the column; a negative number iff the first row's date is earlier, or its string is smaller, ascending, and iff the second row's is, descending |
| `Dashboard.IpCompareFromFlip` | frontend/src/App.js:179-184 | the descending IP loop is the ascending one with the addresses swapped, and swapping negates it |
| `Dashboard.CompareDescIsFlippedAsc` | frontend/src/App.js:171-203 | for every column, descending is ascending with the rows swapped |
| `Dashboard.CompareAntisymmetric` | frontend/src/App.js:171-203 | swapping two rows negates the comparator's result (NaN stays NaN) |
| `Dashboard.IpCompareFromTransitive` | frontend/src/App.js:179-184 | the octet loop's "not after" is transitive |
| `Dashboard.PrecedesTransitiveAsc` | frontend/src/App.js:171-203 | ascending, "the comparator gives a number ≤ 0" is transitive for every column |
| `Dashboard.PrecedesTransitive` | frontend/src/App.js:171-203 | in either direction, "the comparator gives a number ≤ 0" is transitive |
| `Dashboard.AdjacentToSorted` | frontend/src/App.js:172-204 | neighbours in order imply every pair in order |
| `Dashboard.InsertLast` | frontend/src/App.js:172-204 | one insertion step keeps the multiset and extends the sorted prefix by one |
| `Dashboard.SwapDown` | frontend/src/App.js:172-204 | one step of the insertion: either it swaps a row one place down and the insertion goes on, or the two rows are already in order and nothing changes; the multiset of rows is kept |
| `Dashboard.SortInPlace` | frontend/src/App.js:172-204 | sorting in place leaves a permutation of the rows in which every row may come before every later one |
| `Dashboard.SortDevices` | frontend/src/App.js:171-205 | `[...safeDevices].sort(...)` returns a fresh array that is a sorted permutation of the input, and the input array is unchanged |
| `Dashboard.SortedDevices` | frontend/src/App.js:162-205 | the `useMemo` body: the sort is applied to `safeDevices`, so it returns a fresh, sorted permutation of the device array, or of the empty list when `devices` is not an array |

## Left out

- The outside world of the scanner is not modelled: nmap sweeps and detailed scans, `nslookup` and reverse DNS, the MAC-vendor HTTP service, `netifaces`, the clock and the time zone. Their results are parameters of `ScanNetwork`, `QuickScan` and `GetHostname`.
- An exception `get_hostname` does not catch is not modelled, e.g. a missing `nslookup` binary or `socket.gaierror`. It would make the quick scan raise and the host be skipped, but the name lookup here always returns a value.
- SQLite transactions are not modelled: the per-device commits, `rollback` after an error that escapes the whole scan, and `close`. The tables are in-memory state updated statement by statement.
- Scheduling is not modelled: the scanner's `while True` / `sleep(60)` loop and the dashboard's React polling and state hooks.
- `Registry.FindByIpAndScan`: `fetchone()` on a SELECT without `ORDER BY` is taken to return the first match in rowid order; SQLite does not promise an order.
- `Registry.Upsert`: a known divergence, not only an assumption. The model's id counter advances only when a row is inserted. SQLite's `INSERT … ON CONFLICT DO UPDATE` appears to draw the new rowid, and so advance the AUTOINCREMENT counter, before it detects the conflict. If so, an upsert that becomes an UPDATE uses up an id, and real ids have gaps that the model's ids lack. The ids stay unique and increasing either way.
- `Registry.LastSeenMonotone` and `Registry.ScanKeepsLastSeenOrder` hold only when the clock has not gone back. The upsert overwrites `last_seen` with `current_time` unconditionally, with no `MAX(…)`, and `current_time` is the local wall clock read once per scan. A clock set back therefore moves `last_seen` backwards, and the model does not rule that out.
- `Registry.Database.CreateScan`: scan ids are assumed dense from 1. The `scan_time` default comes from SQLite's clock and arrives as a parameter.
- The `device_type` and `open_ports` columns are never written by the scanner and are not modelled.
- Timestamps are integers. ISO-8601 formatting and `new Date` parsing are not modelled, and neither is an unparsable date. Such a date compares as `NaN` and makes `isDeviceStale` false.
- `Dashboard.SortDevices` requires that the comparator gives a number on every pair of rows. With a `NaN`, e.g. a malformed or missing IP address under the IP sort, JavaScript leaves the order of the sort undefined.
- `Dashboard.SortDevices` models `Array.prototype.sort` as a stable insertion sort. The engine's algorithm is not modelled, only its result.
- Rows that are `null` are not modelled: the comparator's `!a || !b` guard returns 0 for them, which is not a consistent order.
- `Text.LexTrichotomy`: strings compare by Unicode code point, whereas JavaScript compares UTF-16 code units. The two differ only between characters outside the Basic Multilingual Plane and characters from U+E000 on.
- `Dashboard.GetMetricColor`: only finite numbers are modelled. In JavaScript a `NaN` or `undefined` value fails every comparison and gets the critical colour, and `null` compares as 0 and gets the good colour.
- `Text.Lower`: only ASCII letters are lower-cased, whereas Python lower-cases all of Unicode. This matters only for the `name = ` test.
- `Dashboard.ParseInt`: integers are unbounded, so a numeral beyond 2^53, which `parseInt` rounds, reads back exactly.
- The rest of the repository is not modelled: the system monitor, the Express backend, the metrics chart, the network-speed computation and all rendering. Their logic is I/O, floating point or user interface.
