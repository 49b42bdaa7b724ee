/**
 * The scanner's device registry: the three SQLite tables `network_scans`,
 * `devices` and `port_scans`, and the `scan_network` reconciliation that
 * runs against them once per sweep.
 *
 * The tables are in-memory sequences in rowid order.  Each SQL statement the
 * scanner issues is a function on table contents (`Upsert`, `SetOs`,
 * `MarkInactive`, `FindByIpAndScan`); the Python loops that issue them are
 * the loops of the `Database` methods.  Everything the scanner learns from
 * nmap, DNS and the MAC-vendor service arrives as a parameter.
 */
module Registry {
  import opened Wrappers
  import opened ScannerHelpers

  type Ip = string
  type Mac = string
  /** A timestamp, in milliseconds. */
  type Time = int

  /** The `os_info` of a device whose detailed scan has not run yet. */
  const ScanningOs: string := "Scanning..."
  /** The `os_info` of a device for which nmap reported no OS match. */
  const UnknownOs: string := "Unknown"

  /** A row of `devices`.  `device_type` and `open_ports` are never written
      by the scanner and are not modelled. */
  datatype Device = Device(
    id: nat,
    ip: Ip,
    hostname: Option<string>,
    mac: Mac,
    manufacturer: Option<string>,
    osInfo: string,
    firstSeen: Time,
    lastSeen: Time,
    isActive: bool,
    lastScanId: nat)

  /** A row of `port_scans`. */
  datatype PortRow = PortRow(deviceId: nat, scanId: nat, port: int, protocol: string, service: string, version: string)

  /** A row of `network_scans`. */
  datatype ScanRun = ScanRun(id: nat, startedAt: Time)

  /** What the discovery sweep holds for one host, `nm[host]`: its
      `addresses` dictionary, when there is one. */
  datatype NmapHost = NmapHost(addresses: Option<map<string, string>>)

  /** The `basic_info` dictionary built by the quick scan of one host. */
  datatype BasicInfo = BasicInfo(ip: Ip, hostname: Option<string>, mac: Option<Mac>, manufacturer: Option<string>, osInfo: string)

  /** One entry of the detailed scan's `tcp` dictionary: the port and the
      `name` and `version` keys of its data. */
  datatype PortEntry = PortEntry(port: int, name: Option<string>, version: Option<string>)

  /** The detailed scan's result for the host: the names of its `osmatch`
      list and its `tcp` entries (an absent key is an empty list). */
  datatype HostDetail = HostDetail(osMatches: seq<string>, tcp: seq<PortEntry>)

  // ---------------------------------------------------------------------
  // Quick scan
  // ---------------------------------------------------------------------

  /** `quick_device_scan`: the MAC comes from `nm[host]['addresses']['mac']`,
      the manufacturer from the vendor lookup of that MAC, and the host name
      from the DNS lookup, which runs only when `addresses` is present. */
  function QuickScan(host: Ip, entry: NmapHost, hostnameOf: Ip -> Option<string>, vendorOf: Mac -> Option<string>): (info: BasicInfo)
    ensures info.ip == host && info.osInfo == ScanningOs
    ensures info.mac.Some? <==> entry.addresses.Some? && "mac" in entry.addresses.value
    ensures info.mac.Some? ==> info.mac.value == entry.addresses.value["mac"] && info.manufacturer == vendorOf(info.mac.value)
    ensures info.mac.None? ==> info.manufacturer.None?
    ensures info.hostname == if entry.addresses.Some? then hostnameOf(host) else None
  {
    match entry.addresses
    case None => BasicInfo(host, None, None, None, ScanningOs)
    case Some(addresses) =>
      var mac := if "mac" in addresses then Some(addresses["mac"]) else None;
      var manufacturer := if mac.Some? then vendorOf(mac.value) else None;
      BasicInfo(host, hostnameOf(host), mac, manufacturer, ScanningOs)
  }

  /** `if basic_info['mac_address']:`, Python truthiness of the MAC. */
  predicate HasMac(info: BasicInfo) {
    info.mac.Some? && info.mac.value != ""
  }

  /** The quick scan of `host` yields a row to store: `nm[host]` exists (a
      missing entry raises and the host is skipped) and has a MAC. */
  predicate Storable(host: Ip, discovery: map<Ip, NmapHost>, hostnameOf: Ip -> Option<string>, vendorOf: Mac -> Option<string>) {
    host in discovery && HasMac(QuickScan(host, discovery[host], hostnameOf, vendorOf))
  }

  // ---------------------------------------------------------------------
  // Table invariants
  // ---------------------------------------------------------------------

  /** `mac_address TEXT UNIQUE`. */
  predicate MacsUnique(rows: seq<Device>) {
    forall i, j :: 0 <= i < j < |rows| ==> rows[i].mac != rows[j].mac
  }

  /** Rowids grow along the table, so they are distinct. */
  predicate IdsIncreasing(rows: seq<Device>) {
    forall i, j :: 0 <= i < j < |rows| ==> rows[i].id < rows[j].id
  }

  /** No two rows share a rowid or a MAC. */
  predicate DistinctRows(rows: seq<Device>) {
    forall i, j :: 0 <= i < j < |rows| ==> rows[i].id != rows[j].id && rows[i].mac != rows[j].mac
  }

  /** Every rowid is below the next one AUTOINCREMENT hands out. */
  predicate IdsBelow(rows: seq<Device>, nextId: nat) {
    forall k :: 0 <= k < |rows| ==> rows[k].id < nextId
  }

  function DeviceIds(rows: seq<Device>): set<nat> {
    set k | 0 <= k < |rows| :: rows[k].id
  }

  /** `after` is a later state of the row `before`: same rowid, MAC and
      `first_seen`, and a known host name or manufacturer is still known. */
  predicate Succeeds(before: Device, after: Device) {
    && after.id == before.id
    && after.mac == before.mac
    && after.firstSeen == before.firstSeen
    && (before.hostname.Some? ==> after.hostname.Some?)
    && (before.manufacturer.Some? ==> after.manufacturer.Some?)
  }

  /** `after` is a later state of the table `before`: no row is deleted or
      moved, and each row keeps its identity. */
  predicate Evolved(before: seq<Device>, after: seq<Device>) {
    |before| <= |after| && forall k :: 0 <= k < |before| ==> Succeeds(before[k], after[k])
  }

  lemma EvolvedTransitive(a: seq<Device>, b: seq<Device>, c: seq<Device>)
    requires Evolved(a, b) && Evolved(b, c)
    ensures Evolved(a, c)
  {
    forall k | 0 <= k < |a| ensures Succeeds(a[k], c[k]) {
      assert Succeeds(a[k], b[k]) && Succeeds(b[k], c[k]);
    }
  }

  lemma EvolvedKeepsIds(before: seq<Device>, after: seq<Device>)
    requires Evolved(before, after)
    ensures DeviceIds(before) <= DeviceIds(after)
  {
    forall id | id in DeviceIds(before) ensures id in DeviceIds(after) {
      var k :| 0 <= k < |before| && before[k].id == id;
      assert after[k].id == id;
    }
  }

  // ---------------------------------------------------------------------
  // The upsert
  // ---------------------------------------------------------------------

  /** The first row with this MAC, the row `ON CONFLICT(mac_address)` hits. */
  function MacIndex(rows: seq<Device>, mac: Mac): (k: Option<nat>)
    ensures k.Some? ==> k.value < |rows| && rows[k.value].mac == mac
    ensures k.Some? ==> forall j :: 0 <= j < k.value ==> rows[j].mac != mac
    ensures k.None? ==> forall j :: 0 <= j < |rows| ==> rows[j].mac != mac
    decreases |rows|
  {
    if rows == [] then None
    else if rows[0].mac == mac then Some(0)
    else match MacIndex(rows[1..], mac)
      case None => None
      case Some(k) => Some(k + 1)
  }

  /** The INSERT half of the upsert: a new row seen now, active, tagged with
      this scan. */
  function NewDevice(id: nat, info: BasicInfo, now: Time, scanId: nat): (d: Device)
    requires info.mac.Some?
    ensures d.id == id && d.mac == info.mac.value && d.ip == info.ip
    ensures d.firstSeen == now && d.lastSeen == now && d.isActive && d.lastScanId == scanId
    ensures d.hostname == info.hostname && d.manufacturer == info.manufacturer && d.osInfo == info.osInfo
  {
    Device(id, info.ip, info.hostname, info.mac.value, info.manufacturer, info.osInfo, now, now, true, scanId)
  }

  /** The `DO UPDATE SET` half: the IP, `last_seen` and `last_scan_id` are
      overwritten, `is_active` is set, the host name and manufacturer are
      COALESCEd, and nothing else changes. */
  function Merge(d: Device, info: BasicInfo, now: Time, scanId: nat): (m: Device)
    ensures Succeeds(d, m) && m.osInfo == d.osInfo
    ensures m.ip == info.ip && m.lastSeen == now && m.isActive && m.lastScanId == scanId
    ensures info.hostname.Some? ==> m.hostname == info.hostname
    ensures info.hostname.None? ==> m.hostname == d.hostname
    ensures info.manufacturer.Some? ==> m.manufacturer == info.manufacturer
    ensures info.manufacturer.None? ==> m.manufacturer == d.manufacturer
  {
    d.(ip := info.ip,
       hostname := Coalesce(info.hostname, d.hostname),
       manufacturer := Coalesce(info.manufacturer, d.manufacturer),
       lastSeen := now,
       isActive := true,
       lastScanId := scanId)
  }

  /** `INSERT ... ON CONFLICT(mac_address) DO UPDATE`: the table and the next
      AUTOINCREMENT id after storing one host's basic info. */
  function Upsert(rows: seq<Device>, nextId: nat, info: BasicInfo, now: Time, scanId: nat): (r: (seq<Device>, nat))
    requires HasMac(info)
    ensures Evolved(rows, r.0)
    ensures MacsUnique(rows) ==> MacsUnique(r.0)
    ensures IdsIncreasing(rows) && IdsBelow(rows, nextId) ==> IdsIncreasing(r.0) && IdsBelow(r.0, r.1)
    // a new row exactly when the MAC is unknown, inserted with first_seen = last_seen = now
    ensures |r.0| == |rows| + 1 <==> MacIndex(rows, info.mac.value).None?
    ensures |r.0| == |rows| + 1 ==> r.0[|rows|] == NewDevice(nextId, info, now, scanId) && r.1 == nextId + 1
    ensures |r.0| == |rows| ==> r.1 == nextId
    // a known MAC is merged, every other row is left alone
    ensures forall k :: 0 <= k < |rows| ==>
      r.0[k] == if MacIndex(rows, info.mac.value) == Some(k) then Merge(rows[k], info, now, scanId) else rows[k]
    // afterwards the row for this MAC carries this observation
    ensures MacIndex(r.0, info.mac.value).Some?
    ensures MacsUnique(rows) ==>
      var d := r.0[MacIndex(r.0, info.mac.value).value];
      d.ip == info.ip && d.lastSeen == now && d.isActive && d.lastScanId == scanId &&
      (info.hostname.Some? ==> d.hostname == info.hostname) &&
      (info.manufacturer.Some? ==> d.manufacturer == info.manufacturer)
  {
    var mac := info.mac.value;
    match MacIndex(rows, mac)
    case Some(k) =>
      MergeRowKeepsTable(rows, nextId, k, info, now, scanId);
      (rows[k := Merge(rows[k], info, now, scanId)], nextId)
    case None =>
      AppendRowKeepsTable(rows, nextId, info, now, scanId);
      (rows + [NewDevice(nextId, info, now, scanId)], nextId + 1)
  }

  /** The UPDATE branch of the upsert keeps the table invariants, and the
      merged row is the one the MAC now finds. */
  lemma MergeRowKeepsTable(rows: seq<Device>, nextId: nat, k: nat, info: BasicInfo, now: Time, scanId: nat)
    requires HasMac(info) && MacIndex(rows, info.mac.value) == Some(k)
    ensures var rows' := rows[k := Merge(rows[k], info, now, scanId)];
      && Evolved(rows, rows')
      && (MacsUnique(rows) ==> MacsUnique(rows') && MacIndex(rows', info.mac.value) == Some(k))
      && (IdsIncreasing(rows) && IdsBelow(rows, nextId) ==> IdsIncreasing(rows') && IdsBelow(rows', nextId))
      && MacIndex(rows', info.mac.value).Some?
  {
    var rows' := rows[k := Merge(rows[k], info, now, scanId)];
    assert rows'[k].mac == info.mac.value;
  }

  /** The INSERT branch of the upsert keeps the table invariants, and the
      new last row is the one the MAC now finds. */
  lemma AppendRowKeepsTable(rows: seq<Device>, nextId: nat, info: BasicInfo, now: Time, scanId: nat)
    requires HasMac(info) && MacIndex(rows, info.mac.value).None?
    ensures var rows' := rows + [NewDevice(nextId, info, now, scanId)];
      && Evolved(rows, rows')
      && (MacsUnique(rows) ==> MacsUnique(rows'))
      && (IdsIncreasing(rows) && IdsBelow(rows, nextId) ==> IdsIncreasing(rows') && IdsBelow(rows', nextId + 1))
      && MacIndex(rows', info.mac.value) == Some(|rows|)
  {
    var mac := info.mac.value;
    var rows' := rows + [NewDevice(nextId, info, now, scanId)];
    MacIndexOfAppended(rows, rows'[|rows|]);
    assert forall k :: 0 <= k < |rows| ==> rows'[k] == rows[k];
    if MacsUnique(rows) {
      forall i, j | 0 <= i < j < |rows'| ensures rows'[i].mac != rows'[j].mac {
        if j == |rows| {
          assert rows'[i].mac != mac;
        }
      }
    }
    if IdsIncreasing(rows) && IdsBelow(rows, nextId) {
      forall i, j | 0 <= i < j < |rows'| ensures rows'[i].id < rows'[j].id {
        if j == |rows| {
          assert rows'[i].id < nextId;
        }
      }
    }
  }

  /** A row appended under a MAC no earlier row has is the one that MAC finds. */
  lemma MacIndexOfAppended(rows: seq<Device>, d: Device)
    requires MacIndex(rows, d.mac).None?
    ensures MacIndex(rows + [d], d.mac) == Some(|rows|)
  {
    var rows' := rows + [d];
    assert rows'[|rows|].mac == d.mac;
    assert forall k :: 0 <= k < |rows| ==> rows'[k].mac == rows[k].mac;
  }

  /** Re-observing a known MAC adds no row and leaves `first_seen` and
      `os_info` of its row as they were. */
  lemma UpsertKnownMac(rows: seq<Device>, nextId: nat, info: BasicInfo, now: Time, scanId: nat)
    requires HasMac(info) && MacIndex(rows, info.mac.value).Some?
    ensures var r := Upsert(rows, nextId, info, now, scanId);
      var k := MacIndex(rows, info.mac.value).value;
      |r.0| == |rows| && r.1 == nextId &&
      r.0[k].firstSeen == rows[k].firstSeen && r.0[k].osInfo == rows[k].osInfo &&
      r.0[k].hostname == Coalesce(info.hostname, rows[k].hostname) &&
      r.0[k].manufacturer == Coalesce(info.manufacturer, rows[k].manufacturer)
  {
    var k := MacIndex(rows, info.mac.value).value;
    assert Upsert(rows, nextId, info, now, scanId).0[k] == Merge(rows[k], info, now, scanId);
  }

  /** One host of the first pass: store it if its quick scan has a MAC. */
  function StoreHost(rows: seq<Device>, nextId: nat, host: Ip, discovery: map<Ip, NmapHost>,
                     hostnameOf: Ip -> Option<string>, vendorOf: Mac -> Option<string>, now: Time, scanId: nat): (r: (seq<Device>, nat))
    ensures !Storable(host, discovery, hostnameOf, vendorOf) ==> r == (rows, nextId)
  {
    if Storable(host, discovery, hostnameOf, vendorOf) then
      Upsert(rows, nextId, QuickScan(host, discovery[host], hostnameOf, vendorOf), now, scanId)
    else
      (rows, nextId)
  }

  /** The first pass over `hosts`: the table and next id after storing each
      host in turn. */
  function FirstPass(rows: seq<Device>, nextId: nat, hosts: seq<Ip>, discovery: map<Ip, NmapHost>,
                     hostnameOf: Ip -> Option<string>, vendorOf: Mac -> Option<string>, now: Time, scanId: nat): (r: (seq<Device>, nat))
    ensures Evolved(rows, r.0) && nextId <= r.1
    ensures |r.0| <= |rows| + StoredCount(hosts, discovery, hostnameOf, vendorOf)
    ensures MacsUnique(rows) ==> MacsUnique(r.0)
    decreases |hosts|
  {
    if hosts == [] then (rows, nextId)
    else
      var prev := FirstPass(rows, nextId, hosts[..|hosts| - 1], discovery, hostnameOf, vendorOf, now, scanId);
      var r := StoreHost(prev.0, prev.1, hosts[|hosts| - 1], discovery, hostnameOf, vendorOf, now, scanId);
      EvolvedTransitive(rows, prev.0, r.0);
      r
  }

  /** The number of hosts the first pass stores: the final `devices_added`. */
  function StoredCount(hosts: seq<Ip>, discovery: map<Ip, NmapHost>, hostnameOf: Ip -> Option<string>, vendorOf: Mac -> Option<string>): (n: nat)
    ensures n <= |hosts|
    ensures (forall h :: h in hosts ==> Storable(h, discovery, hostnameOf, vendorOf)) ==> n == |hosts|
    ensures (forall h :: h in hosts ==> !Storable(h, discovery, hostnameOf, vendorOf)) ==> n == 0
    decreases |hosts|
  {
    if hosts == [] then 0
    else
      StoredCount(hosts[..|hosts| - 1], discovery, hostnameOf, vendorOf) +
      (if Storable(hosts[|hosts| - 1], discovery, hostnameOf, vendorOf) then 1 else 0)
  }

  /** The hosts the first pass stores, in scan order. */
  function StorableHosts(hosts: seq<Ip>, discovery: map<Ip, NmapHost>, hostnameOf: Ip -> Option<string>, vendorOf: Mac -> Option<string>): (kept: seq<Ip>)
    ensures |kept| == StoredCount(hosts, discovery, hostnameOf, vendorOf)
    ensures forall h :: h in kept ==> h in hosts && Storable(h, discovery, hostnameOf, vendorOf)
    decreases |hosts|
  {
    if hosts == [] then []
    else
      var init := StorableHosts(hosts[..|hosts| - 1], discovery, hostnameOf, vendorOf);
      var host := hosts[|hosts| - 1];
      assert forall h :: h in hosts[..|hosts| - 1] ==> h in hosts;
      if Storable(host, discovery, hostnameOf, vendorOf) then init + [host] else init
  }

  /** A host without a MAC (or missing from the sweep) is neither inserted
      nor updated: the first pass gives the same tables as a pass over the
      storable hosts alone. */
  lemma {:induction false} FirstPassIgnoresHostsWithoutMac(rows: seq<Device>, nextId: nat, hosts: seq<Ip>, discovery: map<Ip, NmapHost>,
                                                          hostnameOf: Ip -> Option<string>, vendorOf: Mac -> Option<string>, now: Time, scanId: nat)
    ensures FirstPass(rows, nextId, hosts, discovery, hostnameOf, vendorOf, now, scanId) ==
      FirstPass(rows, nextId, StorableHosts(hosts, discovery, hostnameOf, vendorOf), discovery, hostnameOf, vendorOf, now, scanId)
    decreases |hosts|
  {
    if hosts != [] {
      var init := hosts[..|hosts| - 1];
      var host := hosts[|hosts| - 1];
      var keptInit := StorableHosts(init, discovery, hostnameOf, vendorOf);
      FirstPassIgnoresHostsWithoutMac(rows, nextId, init, discovery, hostnameOf, vendorOf, now, scanId);
      if Storable(host, discovery, hostnameOf, vendorOf) {
        var kept := keptInit + [host];
        assert kept[..|kept| - 1] == keptInit;
      }
    }
  }

  /** `nm.all_hosts()` lists exactly the hosts the sweep has data for, so
      the local address, appended only when the sweep did not report it, is
      always skipped by the quick scan: appending it changes nothing that
      is stored. */
  lemma AppendedLocalHostIsSkipped(discovered: seq<Ip>, discovery: map<Ip, NmapHost>, localIp: Option<Ip>,
                                   hostnameOf: Ip -> Option<string>, vendorOf: Mac -> Option<string>)
    requires forall h :: h in discovery <==> h in discovered
    ensures StorableHosts(ScanTargets(discovered, localIp), discovery, hostnameOf, vendorOf) ==
      StorableHosts(discovered, discovery, hostnameOf, vendorOf)
  {
    var targets := ScanTargets(discovered, localIp);
    if targets != discovered {
      assert targets[..|targets| - 1] == discovered;
      assert targets[|targets| - 1] !in discovery;
    }
  }

  /** The first pass over one more host is one more `StoreHost`, and counts
      that host when it is storable. */
  lemma FirstPassStep(rows: seq<Device>, nextId: nat, hosts: seq<Ip>, i: nat, discovery: map<Ip, NmapHost>,
                      hostnameOf: Ip -> Option<string>, vendorOf: Mac -> Option<string>, now: Time, scanId: nat)
    requires i < |hosts|
    ensures var prev := FirstPass(rows, nextId, hosts[..i], discovery, hostnameOf, vendorOf, now, scanId);
      FirstPass(rows, nextId, hosts[..i + 1], discovery, hostnameOf, vendorOf, now, scanId)
        == StoreHost(prev.0, prev.1, hosts[i], discovery, hostnameOf, vendorOf, now, scanId)
    ensures StoredCount(hosts[..i + 1], discovery, hostnameOf, vendorOf)
      == StoredCount(hosts[..i], discovery, hostnameOf, vendorOf) + (if Storable(hosts[i], discovery, hostnameOf, vendorOf) then 1 else 0)
  {
    assert hosts[..i + 1][..i] == hosts[..i];
  }

  /** After the first pass every row still names a recorded scan and every
      earlier rowid still exists, so the foreign keys stay satisfied. */
  lemma FirstPassKeepsReferences(rows: seq<Device>, nextId: nat, hosts: seq<Ip>, discovery: map<Ip, NmapHost>,
                                 hostnameOf: Ip -> Option<string>, vendorOf: Mac -> Option<string>, now: Time, scanId: nat, scanCount: nat)
    requires MacsUnique(rows) && IdsIncreasing(rows) && IdsBelow(rows, nextId)
    requires 1 <= scanId <= scanCount
    requires forall k :: 0 <= k < |rows| ==> 1 <= rows[k].lastScanId <= scanCount
    ensures var r := FirstPass(rows, nextId, hosts, discovery, hostnameOf, vendorOf, now, scanId);
      && MacsUnique(r.0) && IdsIncreasing(r.0) && IdsBelow(r.0, r.1)
      && (forall k :: 0 <= k < |r.0| ==> 1 <= r.0[k].lastScanId <= scanCount)
      && DeviceIds(rows) <= DeviceIds(r.0)
  {
    FirstPassInvariant(rows, nextId, hosts, discovery, hostnameOf, vendorOf, now, scanId);
    var r := FirstPass(rows, nextId, hosts, discovery, hostnameOf, vendorOf, now, scanId);
    EvolvedKeepsIds(rows, r.0);
  }

  /** The table after the first pass is a valid later state of the table
      before it; every row either was touched by this scan (and then was
      seen `now` and is active) or is exactly the row it was. */
  lemma {:induction false} FirstPassInvariant(rows: seq<Device>, nextId: nat, hosts: seq<Ip>, discovery: map<Ip, NmapHost>,
                                              hostnameOf: Ip -> Option<string>, vendorOf: Mac -> Option<string>, now: Time, scanId: nat)
    requires MacsUnique(rows) && IdsIncreasing(rows) && IdsBelow(rows, nextId)
    ensures var r := FirstPass(rows, nextId, hosts, discovery, hostnameOf, vendorOf, now, scanId);
      && Evolved(rows, r.0)
      && MacsUnique(r.0) && IdsIncreasing(r.0) && IdsBelow(r.0, r.1)
      && (forall k :: 0 <= k < |r.0| ==>
            (r.0[k].lastScanId == scanId && r.0[k].lastSeen == now && r.0[k].isActive) ||
            (k < |rows| && r.0[k] == rows[k]))
    decreases |hosts|
  {
    if hosts != [] {
      var prefix := hosts[..|hosts| - 1];
      var host := hosts[|hosts| - 1];
      FirstPassInvariant(rows, nextId, prefix, discovery, hostnameOf, vendorOf, now, scanId);
      var prev := FirstPass(rows, nextId, prefix, discovery, hostnameOf, vendorOf, now, scanId);
      var r := FirstPass(rows, nextId, hosts, discovery, hostnameOf, vendorOf, now, scanId);
      assert r == StoreHost(prev.0, prev.1, host, discovery, hostnameOf, vendorOf, now, scanId);
      if Storable(host, discovery, hostnameOf, vendorOf) {
        var info := QuickScan(host, discovery[host], hostnameOf, vendorOf);
        assert r == Upsert(prev.0, prev.1, info, now, scanId);
        EvolvedTransitive(rows, prev.0, r.0);
      }
    }
  }

  /** Every host the first pass stores ends up with a row for its MAC that
      this scan touched; the row's IP is that of the last host in scan order
      that reported the MAC. */
  lemma {:induction false} FirstPassStores(rows: seq<Device>, nextId: nat, hosts: seq<Ip>, discovery: map<Ip, NmapHost>,
                                           hostnameOf: Ip -> Option<string>, vendorOf: Mac -> Option<string>, now: Time, scanId: nat, i: nat)
    requires MacsUnique(rows) && IdsIncreasing(rows) && IdsBelow(rows, nextId)
    requires i < |hosts| && Storable(hosts[i], discovery, hostnameOf, vendorOf)
    ensures var r := FirstPass(rows, nextId, hosts, discovery, hostnameOf, vendorOf, now, scanId);
      var mac := discovery[hosts[i]].addresses.value["mac"];
      var k := MacIndex(r.0, mac);
      && k.Some?
      && r.0[k.value].lastScanId == scanId && r.0[k.value].lastSeen == now && r.0[k.value].isActive
      && ((forall j :: i < j < |hosts| && Storable(hosts[j], discovery, hostnameOf, vendorOf) ==>
             discovery[hosts[j]].addresses.value["mac"] != mac) ==> r.0[k.value].ip == hosts[i])
    decreases |hosts|
  {
    var prefix := hosts[..|hosts| - 1];
    var host := hosts[|hosts| - 1];
    var mac := discovery[hosts[i]].addresses.value["mac"];
    var prev := FirstPass(rows, nextId, prefix, discovery, hostnameOf, vendorOf, now, scanId);
    var r := FirstPass(rows, nextId, hosts, discovery, hostnameOf, vendorOf, now, scanId);
    FirstPassInvariant(rows, nextId, prefix, discovery, hostnameOf, vendorOf, now, scanId);
    assert r == StoreHost(prev.0, prev.1, host, discovery, hostnameOf, vendorOf, now, scanId);
    if i == |hosts| - 1 {
      var info := QuickScan(host, discovery[host], hostnameOf, vendorOf);
      assert r == Upsert(prev.0, prev.1, info, now, scanId);
    } else {
      assert prefix[i] == hosts[i];
      FirstPassStores(rows, nextId, prefix, discovery, hostnameOf, vendorOf, now, scanId, i);
      var k := MacIndex(prev.0, mac).value;
      if Storable(host, discovery, hostnameOf, vendorOf) {
        var info := QuickScan(host, discovery[host], hostnameOf, vendorOf);
        assert r == Upsert(prev.0, prev.1, info, now, scanId);
        if info.mac.value == mac {
          assert discovery[hosts[|hosts| - 1]].addresses.value["mac"] == mac;
        } else {
          assert r.0[k] == prev.0[k];
          assert MacIndex(r.0, mac).value == k by {
            assert MacsUnique(r.0);
          }
        }
      }
      forall j | i < j < |prefix| && Storable(prefix[j], discovery, hostnameOf, vendorOf)
        ensures discovery[hosts[j]].addresses.value["mac"] == discovery[prefix[j]].addresses.value["mac"]
      {
        assert prefix[j] == hosts[j];
      }
    }
  }

  // ---------------------------------------------------------------------
  // The detailed scan
  // ---------------------------------------------------------------------

  /** `SELECT id FROM devices WHERE ip_address = ? AND last_scan_id = ?` and
      `fetchone()`: the rowid of the first matching row. */
  function FindByIpAndScan(rows: seq<Device>, ip: Ip, scanId: nat): (id: Option<nat>)
    ensures id.Some? <==> exists k :: 0 <= k < |rows| && rows[k].ip == ip && rows[k].lastScanId == scanId
    ensures id.Some? ==> exists k :: 0 <= k < |rows| && rows[k].id == id.value && rows[k].ip == ip && rows[k].lastScanId == scanId
    decreases |rows|
  {
    if rows == [] then None
    else if rows[0].ip == ip && rows[0].lastScanId == scanId then Some(rows[0].id)
    else
      var r := FindByIpAndScan(rows[1..], ip, scanId);
      assert forall k :: 1 <= k < |rows| ==> rows[k] == rows[1..][k - 1];
      r
  }

  /** The detailed scan's OS guess: the first OS match, or `Unknown`. */
  function OsInfoOf(detail: HostDetail): (os: string)
    ensures |detail.osMatches| > 0 ==> os == detail.osMatches[0]
    ensures |detail.osMatches| == 0 ==> os == UnknownOs
  {
    if |detail.osMatches| > 0 then detail.osMatches[0] else UnknownOs
  }

  /** The `port_scans` row stored for one `tcp` entry. */
  function PortRowOf(entry: PortEntry, deviceId: nat, scanId: nat): (row: PortRow)
    ensures row.deviceId == deviceId && row.scanId == scanId && row.port == entry.port && row.protocol == "tcp"
    ensures row.service == (if entry.name.Some? then entry.name.value else "")
    ensures row.version == (if entry.version.Some? then entry.version.value else "")
  {
    PortRow(deviceId, scanId, entry.port, "tcp", entry.name.GetOr(""), entry.version.GetOr(""))
  }

  /** The rows the detailed scan appends, one per `tcp` entry, in order. */
  function PortRowsOf(detail: HostDetail, deviceId: nat, scanId: nat): (rows: seq<PortRow>)
    ensures |rows| == |detail.tcp|
  {
    seq(|detail.tcp|, k requires 0 <= k < |detail.tcp| => PortRowOf(detail.tcp[k], deviceId, scanId))
  }

  /** `UPDATE devices SET os_info = ? WHERE id = ?`. */
  function SetOs(rows: seq<Device>, deviceId: nat, os: string): (r: seq<Device>)
    ensures OnlyOsChanged(rows, r)
    ensures forall k :: 0 <= k < |rows| ==> r[k].osInfo == if rows[k].id == deviceId then os else rows[k].osInfo
  {
    seq(|rows|, k requires 0 <= k < |rows| => if rows[k].id == deviceId then rows[k].(osInfo := os) else rows[k])
  }

  /** `detailed_device_scan` on the tables: nothing when nmap raised (`None`);
      otherwise the OS guess is written and one port row per tcp entry is
      appended. */
  function DetailedScan(rows: seq<Device>, ports: seq<PortRow>, deviceId: nat, scanId: nat, detail: Option<HostDetail>): (r: (seq<Device>, seq<PortRow>))
    ensures detail.None? ==> r == (rows, ports)
    ensures OnlyOsChanged(rows, r.0)
    ensures |ports| <= |r.1| && r.1[..|ports|] == ports
  {
    match detail
    case None => (rows, ports)
    case Some(d) => (SetOs(rows, deviceId, OsInfoOf(d)), ports + PortRowsOf(d, deviceId, scanId))
  }

  /** The detailed scan writes the first OS match (or `Unknown`) into the
      row `deviceId` and nowhere else, and appends one row per tcp entry,
      tagged with the device and the scan; without a result it changes
      nothing. */
  lemma DetailedScanEffect(rows: seq<Device>, ports: seq<PortRow>, deviceId: nat, scanId: nat, detail: Option<HostDetail>)
    ensures var r := DetailedScan(rows, ports, deviceId, scanId, detail);
      && OnlyOsChanged(rows, r.0)
      && |r.1| == |ports| + (if detail.Some? then |detail.value.tcp| else 0)
      && r.1[..|ports|] == ports
      && (forall k :: 0 <= k < |rows| && rows[k].id != deviceId ==> r.0[k] == rows[k])
      && (detail.Some? ==> forall k :: 0 <= k < |rows| && rows[k].id == deviceId ==>
            r.0[k].osInfo == if |detail.value.osMatches| > 0 then detail.value.osMatches[0] else UnknownOs)
      && (detail.Some? ==> forall k :: 0 <= k < |detail.value.tcp| ==>
            var row := r.1[|ports| + k];
            row.deviceId == deviceId && row.scanId == scanId && row.port == detail.value.tcp[k].port && row.protocol == "tcp")
  {
    if detail.Some? {
      var r := DetailedScan(rows, ports, deviceId, scanId, detail);
      assert r.1[..|ports|] == ports;
    }
  }

  /** The second pass over `hosts`: look each one up by IP and this scan's
      id and run the detailed scan on the row found. */
  function SecondPass(rows: seq<Device>, ports: seq<PortRow>, hosts: seq<Ip>, details: Ip -> Option<HostDetail>, scanId: nat): (r: (seq<Device>, seq<PortRow>))
    ensures OnlyOsChanged(rows, r.0)
    ensures |ports| <= |r.1| && r.1[..|ports|] == ports
    decreases |hosts|
  {
    if hosts == [] then (rows, ports)
    else
      var prev := SecondPass(rows, ports, hosts[..|hosts| - 1], details, scanId);
      ScanHost(prev.0, prev.1, hosts[|hosts| - 1], details, scanId)
  }

  /** One host of the second pass: the detailed scan of the row found by
      the host's IP and this scan's id, or nothing when there is none. */
  function ScanHost(rows: seq<Device>, ports: seq<PortRow>, host: Ip, details: Ip -> Option<HostDetail>, scanId: nat): (seq<Device>, seq<PortRow>) {
    match FindByIpAndScan(rows, host, scanId)
    case None => (rows, ports)
    case Some(id) => DetailedScan(rows, ports, id, scanId, details(host))
  }

  /** `before` and `after` differ at most in `os_info`. */
  predicate OnlyOsChanged(before: seq<Device>, after: seq<Device>) {
    |after| == |before| && forall k :: 0 <= k < |before| ==> after[k] == before[k].(osInfo := after[k].osInfo)
  }

  /** The second pass only rewrites `os_info`, and only of rows this scan
      touched; the port history keeps every earlier row and every row it
      adds belongs to this scan and to a row this scan touched. */
  lemma {:induction false} SecondPassInvariant(rows: seq<Device>, ports: seq<PortRow>, hosts: seq<Ip>, details: Ip -> Option<HostDetail>, scanId: nat)
    requires IdsIncreasing(rows)
    ensures var r := SecondPass(rows, ports, hosts, details, scanId);
      && OnlyOsChanged(rows, r.0)
      && (forall k :: 0 <= k < |rows| && rows[k].lastScanId != scanId ==> r.0[k] == rows[k])
      && |ports| <= |r.1| && r.1[..|ports|] == ports
      && (forall k :: |ports| <= k < |r.1| ==>
            r.1[k].scanId == scanId &&
            exists j :: 0 <= j < |rows| && rows[j].id == r.1[k].deviceId && rows[j].lastScanId == scanId)
    decreases |hosts|
  {
    if hosts != [] {
      var prefix := hosts[..|hosts| - 1];
      var host := hosts[|hosts| - 1];
      SecondPassInvariant(rows, ports, prefix, details, scanId);
      var prev := SecondPass(rows, ports, prefix, details, scanId);
      var r := SecondPass(rows, ports, hosts, details, scanId);
      var found := FindByIpAndScan(prev.0, host, scanId);
      if found.Some? && details(host).Some? {
        var id := found.value;
        var d := details(host).value;
        var j :| 0 <= j < |prev.0| && prev.0[j].id == id && prev.0[j].ip == host && prev.0[j].lastScanId == scanId;
        assert rows[j].id == id && rows[j].lastScanId == scanId;
        assert r == (SetOs(prev.0, id, OsInfoOf(d)), prev.1 + PortRowsOf(d, id, scanId));
        forall k | 0 <= k < |rows| && rows[k].lastScanId != scanId ensures r.0[k] == rows[k] {
          assert k != j;
          assert rows[k].id != id by {
            if k < j { assert rows[k].id < rows[j].id; } else { assert rows[j].id < rows[k].id; }
          }
        }
        assert r.1[..|ports|] == ports by {
          assert r.1[..|ports|] == prev.1[..|ports|];
        }
        forall k | |ports| <= k < |r.1|
          ensures r.1[k].scanId == scanId &&
            exists j' :: 0 <= j' < |rows| && rows[j'].id == r.1[k].deviceId && rows[j'].lastScanId == scanId
        {
          if k < |prev.1| {
            assert r.1[k] == prev.1[k];
          } else {
            assert r.1[k] == PortRowsOf(d, id, scanId)[k - |prev.1|];
            assert rows[j].id == r.1[k].deviceId;
          }
        }
      }
    }
  }

  /** Rewriting `os_info` does not change which row the SELECT by IP and
      scan id finds. */
  lemma {:induction false} FindIgnoresOs(before: seq<Device>, after: seq<Device>, ip: Ip, scanId: nat)
    requires OnlyOsChanged(before, after)
    ensures FindByIpAndScan(after, ip, scanId) == FindByIpAndScan(before, ip, scanId)
    decreases |before|
  {
    if before != [] {
      assert after[0] == before[0].(osInfo := after[0].osInfo);
      assert OnlyOsChanged(before[1..], after[1..]) by {
        forall k | 0 <= k < |before| - 1
          ensures after[1..][k] == before[1..][k].(osInfo := after[1..][k].osInfo)
        {
          assert after[1..][k] == after[k + 1] && before[1..][k] == before[k + 1];
        }
      }
      FindIgnoresOs(before[1..], after[1..], ip, scanId);
    }
  }

  /** The port rows the second pass appends for one host: one row per tcp
      entry of its detailed scan, tagged with the row the SELECT finds and
      this scan, or none when no row is found or the scan failed. */
  function HostPorts(rows: seq<Device>, host: Ip, details: Ip -> Option<HostDetail>, scanId: nat): seq<PortRow> {
    var found := FindByIpAndScan(rows, host, scanId);
    if found.Some? && details(host).Some? then PortRowsOf(details(host).value, found.value, scanId) else []
  }

  /** The port rows the second pass appends, host by host in order. */
  function FoundPorts(rows: seq<Device>, hosts: seq<Ip>, details: Ip -> Option<HostDetail>, scanId: nat): seq<PortRow>
    decreases |hosts|
  {
    if hosts == [] then []
    else FoundPorts(rows, hosts[..|hosts| - 1], details, scanId) + HostPorts(rows, hosts[|hosts| - 1], details, scanId)
  }

  /** One host of the second pass, on a table whose `os_info` may already
      have been rewritten, appends that host's port rows. */
  lemma ScanHostPorts(rows: seq<Device>, current: seq<Device>, ports: seq<PortRow>, host: Ip, details: Ip -> Option<HostDetail>, scanId: nat)
    requires OnlyOsChanged(rows, current)
    ensures ScanHost(current, ports, host, details, scanId).1 == ports + HostPorts(rows, host, details, scanId)
  {
    FindIgnoresOs(rows, current, host, scanId);
  }

  /** The `os_info` the row with id `id` ends the second pass with: the OS
      guess of the last host whose row it is and whose detailed scan
      succeeded, or `os`, the value it had, when there is no such host. */
  function FinalOs(rows: seq<Device>, hosts: seq<Ip>, details: Ip -> Option<HostDetail>, scanId: nat, id: nat, os: string): string
    decreases |hosts|
  {
    if hosts == [] then os
    else
      var host := hosts[|hosts| - 1];
      if FindByIpAndScan(rows, host, scanId) == Some(id) && details(host).Some? then OsInfoOf(details(host).value)
      else FinalOs(rows, hosts[..|hosts| - 1], details, scanId, id, os)
  }

  /** The second pass over one more host is one more `ScanHost`, on the
      tables the pass over the earlier hosts left. */
  lemma SecondPassStep(rows: seq<Device>, ports: seq<PortRow>, hosts: seq<Ip>, details: Ip -> Option<HostDetail>, scanId: nat)
    requires hosts != []
    ensures var prev := SecondPass(rows, ports, hosts[..|hosts| - 1], details, scanId);
      && OnlyOsChanged(rows, prev.0)
      && SecondPass(rows, ports, hosts, details, scanId) == ScanHost(prev.0, prev.1, hosts[|hosts| - 1], details, scanId)
  {
  }

  /** The second pass appends exactly the port rows of the detailed scans
      of the rows it finds, host by host. */
  lemma {:induction false} SecondPassPorts(rows: seq<Device>, ports: seq<PortRow>, hosts: seq<Ip>, details: Ip -> Option<HostDetail>, scanId: nat)
    ensures SecondPass(rows, ports, hosts, details, scanId).1 == ports + FoundPorts(rows, hosts, details, scanId)
    decreases |hosts|
  {
    if hosts != [] {
      SecondPassPorts(rows, ports, hosts[..|hosts| - 1], details, scanId);
      SecondPassPortsStep(rows, ports, hosts, details, scanId);
    }
  }

  /** The inductive step of `SecondPassPorts`: one more host appends its
      port rows. */
  lemma SecondPassPortsStep(rows: seq<Device>, ports: seq<PortRow>, hosts: seq<Ip>, details: Ip -> Option<HostDetail>, scanId: nat)
    requires hosts != []
    requires SecondPass(rows, ports, hosts[..|hosts| - 1], details, scanId).1 == ports + FoundPorts(rows, hosts[..|hosts| - 1], details, scanId)
    ensures SecondPass(rows, ports, hosts, details, scanId).1 == ports + FoundPorts(rows, hosts, details, scanId)
  {
    SecondPassAppends(rows, ports, hosts, details, scanId);
    FoundPortsStep(rows, hosts, details, scanId);
    AppendedTwice(SecondPass(rows, ports, hosts, details, scanId).1, SecondPass(rows, ports, hosts[..|hosts| - 1], details, scanId).1,
                  FoundPorts(rows, hosts, details, scanId), ports,
                  FoundPorts(rows, hosts[..|hosts| - 1], details, scanId), HostPorts(rows, hosts[|hosts| - 1], details, scanId));
  }

  /** A log that grew by `before` and then by `added` grew by `before + added`. */
  lemma AppendedTwice<T>(after: seq<T>, middle: seq<T>, grown: seq<T>, start: seq<T>, before: seq<T>, added: seq<T>)
    requires after == middle + added && middle == start + before && grown == before + added
    ensures after == start + grown
  {
  }

  /** One more host makes the second pass append that host's port rows. */
  lemma SecondPassAppends(rows: seq<Device>, ports: seq<PortRow>, hosts: seq<Ip>, details: Ip -> Option<HostDetail>, scanId: nat)
    requires hosts != []
    ensures SecondPass(rows, ports, hosts, details, scanId).1
      == SecondPass(rows, ports, hosts[..|hosts| - 1], details, scanId).1 + HostPorts(rows, hosts[|hosts| - 1], details, scanId)
  {
    var prev := SecondPass(rows, ports, hosts[..|hosts| - 1], details, scanId);
    SecondPassStep(rows, ports, hosts, details, scanId);
    ScanHostPorts(rows, prev.0, prev.1, hosts[|hosts| - 1], details, scanId);
  }

  lemma FoundPortsStep(rows: seq<Device>, hosts: seq<Ip>, details: Ip -> Option<HostDetail>, scanId: nat)
    requires hosts != []
    ensures FoundPorts(rows, hosts, details, scanId)
      == FoundPorts(rows, hosts[..|hosts| - 1], details, scanId) + HostPorts(rows, hosts[|hosts| - 1], details, scanId)
  {
  }

  /** Every row ends the second pass with the OS guess of the last
      successful detailed scan of it, and keeps its `os_info` when there
      is none. */
  lemma {:induction false} SecondPassOs(rows: seq<Device>, ports: seq<PortRow>, hosts: seq<Ip>, details: Ip -> Option<HostDetail>, scanId: nat)
    ensures var r := SecondPass(rows, ports, hosts, details, scanId);
      forall k :: 0 <= k < |rows| ==> r.0[k].osInfo == FinalOs(rows, hosts, details, scanId, rows[k].id, rows[k].osInfo)
    decreases |hosts|
  {
    if hosts != [] {
      var prefix := hosts[..|hosts| - 1];
      var host := hosts[|hosts| - 1];
      SecondPassOs(rows, ports, prefix, details, scanId);
      var prev := SecondPass(rows, ports, prefix, details, scanId);
      FindIgnoresOs(rows, prev.0, host, scanId);
      var r := SecondPass(rows, ports, hosts, details, scanId);
      var found := FindByIpAndScan(rows, host, scanId);
      if found.Some? && details(host).Some? {
        assert r.0 == SetOs(prev.0, found.value, OsInfoOf(details(host).value));
        forall k | 0 <= k < |rows|
          ensures r.0[k].osInfo == FinalOs(rows, hosts, details, scanId, rows[k].id, rows[k].osInfo)
        {
          assert prev.0[k].id == rows[k].id;
        }
      } else {
        assert r.0 == prev.0;
      }
    }
  }

  /** The last host whose row is `id` and whose detailed scan succeeded
      decides that row's OS. */
  lemma {:induction false} FinalOsIsLastScan(rows: seq<Device>, hosts: seq<Ip>, details: Ip -> Option<HostDetail>, scanId: nat, id: nat, os: string, i: nat)
    requires i < |hosts| && FindByIpAndScan(rows, hosts[i], scanId) == Some(id) && details(hosts[i]).Some?
    requires forall j :: i < j < |hosts| ==> FindByIpAndScan(rows, hosts[j], scanId) != Some(id) || details(hosts[j]).None?
    ensures FinalOs(rows, hosts, details, scanId, id, os) == OsInfoOf(details(hosts[i]).value)
    decreases |hosts|
  {
    if i < |hosts| - 1 {
      var prefix := hosts[..|hosts| - 1];
      assert prefix[i] == hosts[i];
      assert forall j :: i < j < |prefix| ==> prefix[j] == hosts[j];
      FinalOsIsLastScan(rows, prefix, details, scanId, id, os, i);
    }
  }

  /** A row no host's successful detailed scan reaches keeps its OS. */
  lemma {:induction false} FinalOsUntouched(rows: seq<Device>, hosts: seq<Ip>, details: Ip -> Option<HostDetail>, scanId: nat, id: nat, os: string)
    requires forall j :: 0 <= j < |hosts| ==> FindByIpAndScan(rows, hosts[j], scanId) != Some(id) || details(hosts[j]).None?
    ensures FinalOs(rows, hosts, details, scanId, id, os) == os
    decreases |hosts|
  {
    if hosts != [] {
      var prefix := hosts[..|hosts| - 1];
      assert forall j :: 0 <= j < |prefix| ==> prefix[j] == hosts[j];
      FinalOsUntouched(rows, prefix, details, scanId, id, os);
    }
  }

  // ---------------------------------------------------------------------
  // Marking inactive devices
  // ---------------------------------------------------------------------

  /** `UPDATE devices SET is_active = 0 WHERE last_scan_id != ? AND
      is_active = 1`: afterwards a row is active only if it was and this
      scan touched it; no other column changes and no row is deleted. */
  function MarkInactive(rows: seq<Device>, scanId: nat): (r: seq<Device>)
    ensures |r| == |rows|
    ensures forall k :: 0 <= k < |rows| ==> r[k].isActive == (rows[k].isActive && rows[k].lastScanId == scanId)
    ensures forall k :: 0 <= k < |rows| ==> r[k] == rows[k].(isActive := r[k].isActive)
  {
    seq(|rows|, k requires 0 <= k < |rows| =>
      if rows[k].lastScanId != scanId && rows[k].isActive then rows[k].(isActive := false) else rows[k])
  }

  // ---------------------------------------------------------------------
  // The database
  // ---------------------------------------------------------------------

  /** The scanner's SQLite database. */
  class Database {
    /** `devices`, in rowid order. */
    var devices: seq<Device>
    /** The next rowid AUTOINCREMENT gives a device. */
    var nextDeviceId: nat
    /** `port_scans`, in rowid order. */
    var ports: seq<PortRow>
    /** `network_scans`; scan `k + 1` is `scans[k]`. */
    var scans: seq<ScanRun>

    ghost predicate Valid()
      reads this
      ensures Valid() ==> DistinctRows(devices)
    {
      && MacsUnique(devices)
      && IdsIncreasing(devices)
      && IdsBelow(devices, nextDeviceId)
      && (forall k :: 0 <= k < |scans| ==> scans[k].id == k + 1)
      && (forall k :: 0 <= k < |devices| ==> 1 <= devices[k].lastScanId <= |scans|)
      && (forall k :: 0 <= k < |ports| ==> 1 <= ports[k].scanId <= |scans| && ports[k].deviceId in DeviceIds(devices))
    }

    /** The three `CREATE TABLE` statements on a fresh database. */
    constructor ()
      ensures Valid()
      ensures devices == [] && ports == [] && scans == [] && nextDeviceId == 1
    {
      devices := [];
      nextDeviceId := 1;
      ports := [];
      scans := [];
    }

    /** `INSERT INTO network_scans DEFAULT VALUES` and `lastrowid`. */
    method CreateScan(startedAt: Time) returns (scanId: nat)
      requires Valid()
      modifies this
      ensures Valid()
      ensures scanId == |old(scans)| + 1 && scans == old(scans) + [ScanRun(scanId, startedAt)]
      ensures devices == old(devices) && ports == old(ports) && nextDeviceId == old(nextDeviceId)
      ensures forall k :: 0 <= k < |devices| ==> devices[k].lastScanId != scanId
    {
      scanId := |scans| + 1;
      scans := scans + [ScanRun(scanId, startedAt)];
    }

    /** `detailed_device_scan` for the row `deviceId`: write the OS guess and
        append one port row per tcp entry, or change nothing when nmap
        raised. */
    method DetailedDeviceScan(deviceId: nat, scanId: nat, detail: Option<HostDetail>)
      requires Valid()
      requires deviceId in DeviceIds(devices) && 1 <= scanId <= |scans|
      modifies this
      ensures Valid()
      ensures (devices, ports) == DetailedScan(old(devices), old(ports), deviceId, scanId, detail)
      ensures scans == old(scans) && nextDeviceId == old(nextDeviceId)
    {
      if detail.None? {
        return;
      }
      var hostData := detail.value;
      UpdateOsInfo(deviceId, OsInfoOf(hostData));
      var i := 0;
      while i < |hostData.tcp|
        invariant 0 <= i <= |hostData.tcp|
        invariant Valid()
        invariant devices == SetOs(old(devices), deviceId, OsInfoOf(hostData))
        invariant ports == old(ports) + PortRowsOf(hostData, deviceId, scanId)[..i]
        invariant scans == old(scans) && nextDeviceId == old(nextDeviceId)
        invariant deviceId in DeviceIds(devices)
      {
        InsertPortRow(hostData.tcp[i], deviceId, scanId);
        assert PortRowsOf(hostData, deviceId, scanId)[..i + 1] == PortRowsOf(hostData, deviceId, scanId)[..i] + [PortRowOf(hostData.tcp[i], deviceId, scanId)];
        i := i + 1;
      }
      assert PortRowsOf(hostData, deviceId, scanId)[..i] == PortRowsOf(hostData, deviceId, scanId);
    }

    /** The detailed scan's `UPDATE devices SET os_info = ? WHERE id = ?`. */
    method UpdateOsInfo(deviceId: nat, os: string)
      requires Valid()
      modifies this
      ensures Valid()
      ensures devices == SetOs(old(devices), deviceId, os) && DeviceIds(devices) == DeviceIds(old(devices))
      ensures ports == old(ports) && scans == old(scans) && nextDeviceId == old(nextDeviceId)
    {
      devices := SetOs(devices, deviceId, os);
      assert DeviceIds(devices) == DeviceIds(old(devices)) by {
        assert forall k :: 0 <= k < |devices| ==> devices[k].id == old(devices)[k].id;
      }
    }

    /** One `INSERT INTO port_scans` of the detailed scan's port loop. */
    method InsertPortRow(entry: PortEntry, deviceId: nat, scanId: nat)
      requires Valid()
      requires deviceId in DeviceIds(devices) && 1 <= scanId <= |scans|
      modifies this
      ensures Valid()
      ensures ports == old(ports) + [PortRowOf(entry, deviceId, scanId)]
      ensures devices == old(devices) && scans == old(scans) && nextDeviceId == old(nextDeviceId)
    {
      ports := ports + [PortRow(deviceId, scanId, entry.port, "tcp", entry.name.GetOr(""), entry.version.GetOr(""))];
    }


    /** One iteration of the first pass: quick-scan `host` and store its basic
        info when it has a MAC; `stored` says whether it was stored. */
    method StoreHostOf(host: Ip, discovery: map<Ip, NmapHost>,
                       hostnameOf: Ip -> Option<string>, vendorOf: Mac -> Option<string>, now: Time, scanId: nat)
      returns (stored: bool)
      modifies this
      ensures (devices, nextDeviceId) == StoreHost(old(devices), old(nextDeviceId), host, discovery, hostnameOf, vendorOf, now, scanId)
      ensures stored == Storable(host, discovery, hostnameOf, vendorOf)
      ensures scans == old(scans) && ports == old(ports)
    {
      stored := false;
      if host in discovery {
        var info := QuickScan(host, discovery[host], hostnameOf, vendorOf);
        if HasMac(info) {
          var r := Upsert(devices, nextDeviceId, info, now, scanId);
          devices, nextDeviceId := r.0, r.1;
          stored := true;
        }
      }
    }

    /** One iteration of the second pass: find the row of `host` in this
        scan and run its detailed scan. */
    method ScanHostDetails(host: Ip, details: Ip -> Option<HostDetail>, scanId: nat)
      requires Valid() && 1 <= scanId <= |scans|
      modifies this
      ensures Valid()
      ensures (devices, ports) == ScanHost(old(devices), old(ports), host, details, scanId)
      ensures scans == old(scans) && nextDeviceId == old(nextDeviceId)
    {
      var found := FindByIpAndScan(devices, host, scanId);
      if found.Some? {
        DetailedDeviceScan(found.value, scanId, details(host));
      }
    }

    /** The first pass of `scan_network`: quick-scan every target and store
        the basic info of each one with a MAC, counting them. */
    method StoreHosts(targets: seq<Ip>, discovery: map<Ip, NmapHost>,
                      hostnameOf: Ip -> Option<string>, vendorOf: Mac -> Option<string>, now: Time, scanId: nat)
      returns (devicesAdded: nat)
      requires Valid() && 1 <= scanId <= |scans|
      modifies this
      ensures Valid()
      ensures (devices, nextDeviceId) == FirstPass(old(devices), old(nextDeviceId), targets, discovery, hostnameOf, vendorOf, now, scanId)
      ensures devicesAdded == StoredCount(targets, discovery, hostnameOf, vendorOf)
      ensures scans == old(scans) && ports == old(ports)
    {
      devicesAdded := 0;
      var i := 0;
      while i < |targets|
        invariant 0 <= i <= |targets|
        invariant (devices, nextDeviceId) == FirstPass(old(devices), old(nextDeviceId), targets[..i], discovery, hostnameOf, vendorOf, now, scanId)
        invariant devicesAdded == StoredCount(targets[..i], discovery, hostnameOf, vendorOf)
        invariant scans == old(scans) && ports == old(ports)
      {
        FirstPassStep(old(devices), old(nextDeviceId), targets, i, discovery, hostnameOf, vendorOf, now, scanId);
        var stored := StoreHostOf(targets[i], discovery, hostnameOf, vendorOf, now, scanId);
        if stored {
          devicesAdded := devicesAdded + 1;
        }
        i := i + 1;
      }
      assert targets[..i] == targets;
      FirstPassKeepsReferences(old(devices), old(nextDeviceId), targets, discovery, hostnameOf, vendorOf, now, scanId, |scans|);
    }

    /** The second pass of `scan_network`: look every target up by IP and
        this scan's id and run the detailed scan of the row found. */
    method ScanDetails(targets: seq<Ip>, details: Ip -> Option<HostDetail>, scanId: nat)
      requires Valid() && 1 <= scanId <= |scans|
      modifies this
      ensures Valid()
      ensures (devices, ports) == SecondPass(old(devices), old(ports), targets, details, scanId)
      ensures scans == old(scans) && nextDeviceId == old(nextDeviceId)
    {
      var i := 0;
      while i < |targets|
        invariant 0 <= i <= |targets|
        invariant Valid()
        invariant (devices, ports) == SecondPass(old(devices), old(ports), targets[..i], details, scanId)
        invariant scans == old(scans) && nextDeviceId == old(nextDeviceId)
      {
        ScanHostDetails(targets[i], details, scanId);
        assert targets[..i + 1][..i] == targets[..i];
        i := i + 1;
      }
      assert targets[..i] == targets;
    }

    /** The final `UPDATE` of `scan_network`: every active row this scan
        did not touch becomes inactive. */
    method MarkInactiveDevices(scanId: nat)
      requires Valid()
      modifies this
      ensures Valid()
      ensures devices == MarkInactive(old(devices), scanId)
      ensures scans == old(scans) && ports == old(ports) && nextDeviceId == old(nextDeviceId)
    {
      devices := MarkInactive(devices, scanId);
      assert DeviceIds(devices) == DeviceIds(old(devices)) by {
        assert forall k :: 0 <= k < |devices| ==> devices[k].id == old(devices)[k].id;
      }
    }

    /** `scan_network` after the sweep of `Subnet(localIp)`: record the scan,
        store every host with a MAC, run the detailed scan of every host whose
        row this scan touched, then mark every other row inactive.
        `discovered` is `nm.all_hosts()` and `discovery` the sweep's per-host
        data; the lookups and the detailed scans are parameters. */
    method ScanNetwork(localIp: Option<Ip>, discovered: seq<Ip>, discovery: map<Ip, NmapHost>,
                       hostnameOf: Ip -> Option<string>, vendorOf: Mac -> Option<string>,
                       details: Ip -> Option<HostDetail>, now: Time, startedAt: Time)
      returns (scanId: nat, subnet: string, devicesAdded: nat)
      requires Valid()
      modifies this
      ensures Valid()
      ensures subnet == Subnet(localIp)
      ensures scanId == |old(scans)| + 1 && scans == old(scans) + [ScanRun(scanId, startedAt)]
      ensures var targets := ScanTargets(discovered, localIp);
        var first := FirstPass(old(devices), old(nextDeviceId), targets, discovery, hostnameOf, vendorOf, now, scanId);
        var second := SecondPass(first.0, old(ports), targets, details, scanId);
        && devices == MarkInactive(second.0, scanId)
        && nextDeviceId == first.1
        && ports == second.1
        && devicesAdded == StoredCount(targets, discovery, hostnameOf, vendorOf)
      ensures Reconciled(old(devices), devices, old(ports), ports, now, scanId)
    {
      subnet := Subnet(localIp);
      scanId := CreateScan(startedAt);
      var targets := ScanTargets(discovered, localIp);
      devicesAdded := StoreHosts(targets, discovery, hostnameOf, vendorOf, now, scanId);
      ScanDetails(targets, details, scanId);
      MarkInactiveDevices(scanId);
      ScanOutcome(old(devices), old(nextDeviceId), old(ports), targets, discovery, hostnameOf, vendorOf, details, now, scanId);
    }
  }

  /** What one scan leaves behind: every earlier row is still there with its
      identity; a row is active exactly when this scan touched it, and then
      it was seen `now`; a row this scan did not touch is unchanged except
      that it is inactive; the port history only grows, by rows of this
      scan. */
  predicate Reconciled(before: seq<Device>, after: seq<Device>, portsBefore: seq<PortRow>, portsAfter: seq<PortRow>, now: Time, scanId: nat) {
    && Evolved(before, after)
    && (forall k :: 0 <= k < |after| ==> (after[k].isActive <==> after[k].lastScanId == scanId))
    && (forall k :: 0 <= k < |after| && after[k].lastScanId == scanId ==> after[k].lastSeen == now)
    && (forall k :: 0 <= k < |before| && after[k].lastScanId != scanId ==> after[k] == before[k].(isActive := false))
    && |portsBefore| <= |portsAfter| && portsAfter[..|portsBefore|] == portsBefore
    && (forall k :: |portsBefore| <= k < |portsAfter| ==> portsAfter[k].scanId == scanId)
  }

  /** The two passes and the inactive marking of a new scan reconcile the
      tables. */
  lemma ScanOutcome(rows: seq<Device>, nextId: nat, ports: seq<PortRow>, targets: seq<Ip>, discovery: map<Ip, NmapHost>,
                    hostnameOf: Ip -> Option<string>, vendorOf: Mac -> Option<string>,
                    details: Ip -> Option<HostDetail>, now: Time, scanId: nat)
    requires MacsUnique(rows) && IdsIncreasing(rows) && IdsBelow(rows, nextId)
    requires forall k :: 0 <= k < |rows| ==> rows[k].lastScanId != scanId
    ensures var first := FirstPass(rows, nextId, targets, discovery, hostnameOf, vendorOf, now, scanId);
      var second := SecondPass(first.0, ports, targets, details, scanId);
      Reconciled(rows, MarkInactive(second.0, scanId), ports, second.1, now, scanId)
  {
    var first := FirstPass(rows, nextId, targets, discovery, hostnameOf, vendorOf, now, scanId);
    FirstPassInvariant(rows, nextId, targets, discovery, hostnameOf, vendorOf, now, scanId);
    var second := SecondPass(first.0, ports, targets, details, scanId);
    SecondPassInvariant(first.0, ports, targets, details, scanId);
    var final := MarkInactive(second.0, scanId);
    forall k | 0 <= k < |final|
      ensures (final[k].isActive <==> final[k].lastScanId == scanId)
      ensures final[k].lastScanId == scanId ==> final[k].lastSeen == now
      ensures k < |rows| && final[k].lastScanId != scanId ==> final[k] == rows[k].(isActive := false)
    {
      assert second.0[k] == first.0[k].(osInfo := second.0[k].osInfo);
      assert final[k] == second.0[k].(isActive := final[k].isActive);
    }
    assert Evolved(first.0, final);
    EvolvedTransitive(rows, first.0, final);
  }

  /** A reconciled scan never moves `lastSeen` backwards, provided the clock
      has not gone back: a touched row is seen `now`, which is no earlier
      than any earlier sighting, and an untouched row keeps its time. */
  lemma LastSeenMonotone(before: seq<Device>, after: seq<Device>, portsBefore: seq<PortRow>, portsAfter: seq<PortRow>, now: Time, scanId: nat)
    requires Reconciled(before, after, portsBefore, portsAfter, now, scanId)
    requires forall k :: 0 <= k < |before| ==> before[k].lastSeen <= now
    ensures forall k :: 0 <= k < |before| ==> before[k].lastSeen <= after[k].lastSeen
  {
    forall k | 0 <= k < |before|
      ensures before[k].lastSeen <= after[k].lastSeen
    {
      if after[k].lastScanId != scanId {
        assert after[k] == before[k].(isActive := false);
      }
    }
  }

  /** A whole scan never moves any earlier row's `lastSeen` backwards, as
      long as `now` is no earlier than every recorded sighting. */
  lemma ScanKeepsLastSeenOrder(rows: seq<Device>, nextId: nat, ports: seq<PortRow>, targets: seq<Ip>, discovery: map<Ip, NmapHost>,
                               hostnameOf: Ip -> Option<string>, vendorOf: Mac -> Option<string>,
                               details: Ip -> Option<HostDetail>, now: Time, scanId: nat)
    requires MacsUnique(rows) && IdsIncreasing(rows) && IdsBelow(rows, nextId)
    requires forall k :: 0 <= k < |rows| ==> rows[k].lastScanId != scanId
    requires forall k :: 0 <= k < |rows| ==> rows[k].lastSeen <= now
    ensures var first := FirstPass(rows, nextId, targets, discovery, hostnameOf, vendorOf, now, scanId);
      var final := MarkInactive(SecondPass(first.0, ports, targets, details, scanId).0, scanId);
      |rows| <= |final| && forall k :: 0 <= k < |rows| ==> rows[k].lastSeen <= final[k].lastSeen
  {
    ScanOutcome(rows, nextId, ports, targets, discovery, hostnameOf, vendorOf, details, now, scanId);
    var first := FirstPass(rows, nextId, targets, discovery, hostnameOf, vendorOf, now, scanId);
    var second := SecondPass(first.0, ports, targets, details, scanId);
    LastSeenMonotone(rows, MarkInactive(second.0, scanId), ports, second.1, now, scanId);
  }

  /** Every target the first pass stores still has its row after the scan,
      and that row is active. */
  lemma ScanKeepsStoredHosts(rows: seq<Device>, nextId: nat, ports: seq<PortRow>, targets: seq<Ip>, discovery: map<Ip, NmapHost>,
                             hostnameOf: Ip -> Option<string>, vendorOf: Mac -> Option<string>,
                             details: Ip -> Option<HostDetail>, now: Time, scanId: nat, i: nat)
    requires MacsUnique(rows) && IdsIncreasing(rows) && IdsBelow(rows, nextId)
    requires i < |targets| && Storable(targets[i], discovery, hostnameOf, vendorOf)
    ensures var first := FirstPass(rows, nextId, targets, discovery, hostnameOf, vendorOf, now, scanId);
      var final := MarkInactive(SecondPass(first.0, ports, targets, details, scanId).0, scanId);
      var k := MacIndex(final, discovery[targets[i]].addresses.value["mac"]);
      k.Some? && final[k.value].isActive && final[k.value].lastSeen == now
  {
    var first := FirstPass(rows, nextId, targets, discovery, hostnameOf, vendorOf, now, scanId);
    FirstPassInvariant(rows, nextId, targets, discovery, hostnameOf, vendorOf, now, scanId);
    FirstPassStores(rows, nextId, targets, discovery, hostnameOf, vendorOf, now, scanId, i);
    var second := SecondPass(first.0, ports, targets, details, scanId);
    SecondPassInvariant(first.0, ports, targets, details, scanId);
    var final := MarkInactive(second.0, scanId);
    var mac := discovery[targets[i]].addresses.value["mac"];
    var k := MacIndex(first.0, mac).value;
    assert second.0[k] == first.0[k].(osInfo := second.0[k].osInfo);
    assert final[k].mac == mac;
    assert MacIndex(final, mac).Some?;
    assert MacIndex(final, mac).value == k by {
      assert forall j :: 0 <= j < |final| ==> final[j].mac == first.0[j].mac;
    }
  }
}
