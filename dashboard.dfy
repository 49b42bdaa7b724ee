/**
 * The dashboard's pure logic: the colour of a metric value, whether a
 * device is stale, and the sortable device table, that is, which column
 * is sorted and in which direction, the arrow shown in each header, the
 * row comparator, and the sorted copy of the device list.
 */
module Dashboard {
  import opened Wrappers
  import opened Text

  /** Milliseconds since the epoch, as `new Date(...)` measures them. */
  type Time = int

  // ---------------------------------------------------------------------
  // Metric colours
  // ---------------------------------------------------------------------

  const GoodColor: string := "var(--metric-good)"
  const NormalColor: string := "var(--metric-normal)"
  const WarningColor: string := "var(--metric-warning)"
  const CriticalColor: string := "var(--metric-critical)"

  /** The CSS colour of a utilisation percentage: good up to 30, normal up to
      60, warning up to 80, critical above. */
  function GetMetricColor(value: real): (color: string)
    ensures color == GoodColor <==> value <= 30.0
    ensures color == NormalColor <==> 30.0 < value <= 60.0
    ensures color == WarningColor <==> 60.0 < value <= 80.0
    ensures color == CriticalColor <==> 80.0 < value
  {
    if value <= 30.0 then GoodColor
    else if value <= 60.0 then NormalColor
    else if value <= 80.0 then WarningColor
    else CriticalColor
  }

  /** The rank of a metric colour, from good (0) to critical (3). */
  function Severity(color: string): nat {
    if color == GoodColor then 0
    else if color == NormalColor then 1
    else if color == WarningColor then 2
    else 3
  }

  /** A higher value never gets a milder colour. */
  lemma MetricColorMonotone(v: real, w: real)
    requires v <= w
    ensures Severity(GetMetricColor(v)) <= Severity(GetMetricColor(w))
  {
  }

  // ---------------------------------------------------------------------
  // Staleness
  // ---------------------------------------------------------------------

  /** A device not seen for more than this long is stale: two minutes. */
  const StaleAfter: int := 2 * 60 * 1000

  /** `isDeviceStale`: stale when `last_seen` is missing or more than two
      minutes before `now`. */
  function IsDeviceStale(lastSeen: Option<Time>, now: Time): (stale: bool)
    ensures lastSeen.None? ==> stale
    ensures lastSeen.Some? ==> (stale <==> now - lastSeen.value > StaleAfter)
  {
    match lastSeen
    case None => true
    case Some(t) => now - t > StaleAfter
  }

  /** Once stale, a device stays stale as time goes on. */
  lemma StaleStaysStale(lastSeen: Option<Time>, now: Time, later: Time)
    requires now <= later && IsDeviceStale(lastSeen, now)
    ensures IsDeviceStale(lastSeen, later)
  {
  }

  /** A device never seen is stale; a device seen at `t` is stale exactly
      when more than two minutes have passed, so at exactly two minutes it
      is still fresh. */
  lemma StaleAfterTwoMinutes(t: Time, now: Time)
    ensures IsDeviceStale(None, now)
    ensures IsDeviceStale(Some(t), now) <==> now > t + 120000
    ensures !IsDeviceStale(Some(t), t + 120000)
  {
  }

  // ---------------------------------------------------------------------
  // The sort configuration
  // ---------------------------------------------------------------------

  datatype Direction = Asc | Desc

  /** The sortable columns of the device table. */
  datatype SortKey = IpAddress | MacAddress | Manufacturer | Hostname | OsInfo | FirstSeen | LastSeen

  /** The row property each column sorts on. */
  function KeyName(key: SortKey): string {
    match key
    case IpAddress => "ip_address"
    case MacAddress => "mac_address"
    case Manufacturer => "manufacturer"
    case Hostname => "hostname"
    case OsInfo => "os_info"
    case FirstSeen => "first_seen"
    case LastSeen => "last_seen"
  }

  datatype SortConfig = SortConfig(key: SortKey, direction: Direction)

  /** The table starts sorted by IP address, descending, so the first click
      on the IP header sorts it ascending. */
  function DefaultSortConfig(): (config: SortConfig)
    ensures config.key == IpAddress && config.direction == Desc
    ensures RequestSort(config, IpAddress) == SortConfig(IpAddress, Asc)
  {
    SortConfig(IpAddress, Desc)
  }

  /** At first the IP column shows the descending arrow and every other
      column the neutral one. */
  lemma DefaultSortIcons(column: SortKey)
    ensures SortIcon(DefaultSortConfig(), column) == if column == IpAddress then DescIcon else UnsortedIcon
  {
  }

  /** `requestSort(key)`: sort on `key`, descending only when it was already
      the ascending sort column. */
  function RequestSort(prev: SortConfig, key: SortKey): (next: SortConfig)
    ensures next.key == key
    ensures next.direction == Desc <==> prev.key == key && prev.direction == Asc
  {
    SortConfig(key, if prev.key == key && prev.direction == Asc then Desc else Asc)
  }

  /** Clicking the same header twice in a row flips the direction both times. */
  lemma RequestSortToggles(prev: SortConfig, key: SortKey)
    ensures RequestSort(RequestSort(prev, key), key).direction != RequestSort(prev, key).direction
  {
  }

  const UnsortedIcon: string := "\U{2195}\U{FE0F}"
  const AscIcon: string := "\U{2191}"
  const DescIcon: string := "\U{2193}"

  /** `getSortIcon(key)`: the neutral arrow on every column but the sort
      column, which shows the direction. */
  function SortIcon(config: SortConfig, key: SortKey): (icon: string)
    ensures icon == UnsortedIcon <==> config.key != key
    ensures icon == AscIcon <==> config.key == key && config.direction == Asc
    ensures icon == DescIcon <==> config.key == key && config.direction.Desc?
  {
    assert |UnsortedIcon| == 2 && |AscIcon| == 1 && |DescIcon| == 1 && AscIcon[0] != DescIcon[0];
    if config.key != key then UnsortedIcon
    else if config.direction == Asc then AscIcon
    else DescIcon
  }

  /** After a click on `key`, only that column shows an arrow, and it points
      down exactly when the column was already sorted ascending. */
  lemma SortIconAfterRequest(prev: SortConfig, key: SortKey, column: SortKey)
    ensures SortIcon(RequestSort(prev, key), column) ==
      if column != key then UnsortedIcon
      else if prev.key == key && prev.direction == Asc then DescIcon
      else AscIcon
  {
  }

  // ---------------------------------------------------------------------
  // Device rows
  // ---------------------------------------------------------------------

  /** A device as the API sends it; `None` is a missing, null or empty value. */
  datatype DeviceRow = DeviceRow(
    ipAddress: Option<string>,
    macAddress: Option<string>,
    manufacturer: Option<string>,
    hostname: Option<string>,
    osInfo: Option<string>,
    firstSeen: Option<Time>,
    lastSeen: Option<Time>)

  /** The `devices` prop: an array of rows, or anything else. */
  datatype DevicesProp = Rows(rows: seq<DeviceRow>) | NotAnArray

  /** `Array.isArray(devices) ? devices : []`. */
  function SafeDevices(devices: DevicesProp): (rows: seq<DeviceRow>)
    ensures devices.Rows? ==> rows == devices.rows
    ensures devices.NotAnArray? ==> rows == []
  {
    match devices
    case Rows(rows) => rows
    case NotAnArray => []
  }

  /** `row[key]` for the text columns; `None` for the two date columns. */
  function TextValue(row: DeviceRow, key: SortKey): Option<string> {
    match key
    case IpAddress => row.ipAddress
    case MacAddress => row.macAddress
    case Manufacturer => row.manufacturer
    case Hostname => row.hostname
    case OsInfo => row.osInfo
    case FirstSeen => None
    case LastSeen => None
  }

  /** `row[key]` for the two date columns; `None` for the others. */
  function DateValue(row: DeviceRow, key: SortKey): Option<Time> {
    match key
    case FirstSeen => row.firstSeen
    case LastSeen => row.lastSeen
    case _ => None
  }

  /** `row[key] || ''`: the value, or the empty string when it is missing. */
  function TextField(row: DeviceRow, key: SortKey): (text: string)
    ensures TextValue(row, key).Some? ==> text == TextValue(row, key).value
    ensures TextValue(row, key).None? ==> text == ""
  {
    TextValue(row, key).GetOr("")
  }

  /** `new Date(row[key] || 0)`: the time, or the epoch when it is missing. */
  function SeenTime(row: DeviceRow, key: SortKey): (time: Time)
    ensures DateValue(row, key).Some? ==> time == DateValue(row, key).value
    ensures DateValue(row, key).None? ==> time == 0
  {
    DateValue(row, key).GetOr(0)
  }

  /** `key.includes('seen')` picks out exactly the two date columns. */
  lemma SeenKeys(key: SortKey)
    ensures Contains(KeyName(key), "seen") <==> key == FirstSeen || key == LastSeen
  {
    match key
    case FirstSeen =>
      assert KeyName(key)[6..] == "seen";
      assert Contains(KeyName(key)[6..], "seen");
      ContainsSuffix(KeyName(key), 6, "seen");
    case LastSeen =>
      assert KeyName(key)[5..] == "seen";
      assert Contains(KeyName(key)[5..], "seen");
      ContainsSuffix(KeyName(key), 5, "seen");
    case _ =>
      NoSeenInOtherKeys(key);
  }

  /** No other column name has two adjacent `e`s, so none contains `seen`. */
  lemma NoSeenInOtherKeys(key: SortKey)
    requires key != FirstSeen && key != LastSeen
    ensures !Contains(KeyName(key), "seen")
  {
    if Contains(KeyName(key), "seen") {
      ContainsDoubleE(KeyName(key));
      assert false;
    }
  }

  /** What occurs in a suffix occurs in the string. */
  lemma {:induction false} ContainsSuffix(s: string, i: nat, sub: string)
    requires i <= |s| && Contains(s[i..], sub)
    ensures Contains(s, sub)
    decreases i
  {
    if i > 0 {
      assert s[1..][i - 1..] == s[i..];
      ContainsSuffix(s[1..], i - 1, sub);
    }
  }

  /** A string containing `seen` has two adjacent `e`s. */
  lemma {:induction false} ContainsDoubleE(s: string)
    requires Contains(s, "seen")
    ensures exists k :: 0 <= k < |s| - 1 && s[k] == 'e' && s[k + 1] == 'e'
    decreases |s|
  {
    if StartsWith(s, "seen") {
      assert s[..4] == "seen";
      assert s[1] == 'e' && s[2] == 'e';
    } else {
      ContainsDoubleE(s[1..]);
      var k :| 0 <= k < |s[1..]| - 1 && s[1..][k] == 'e' && s[1..][k + 1] == 'e';
      assert s[k + 1] == 'e' && s[k + 2] == 'e';
    }
  }

  // ---------------------------------------------------------------------
  // IP addresses, octet by octet
  // ---------------------------------------------------------------------

  /** A JavaScript number as the comparator returns it. */
  datatype JsNumber = Num(value: int) | NaN

  /** `ipA[i]` after `.split('.').map(num => parseInt(num, 10))`: a number,
      NaN, or `undefined` past the end of the array. */
  datatype Octet = Number(n: int) | NotANumber | Undefined

  /** The white space `parseInt` skips before the digits. */
  predicate IsJsSpace(c: char) {
    c == '\t' || c == '\n' || c == '\U{0B}' || c == '\U{0C}' || c == '\r' || c == ' ' ||
    c == '\U{A0}' || c == '\U{1680}' || ('\U{2000}' <= c <= '\U{200A}') ||
    c == '\U{2028}' || c == '\U{2029}' || c == '\U{202F}' || c == '\U{205F}' ||
    c == '\U{3000}' || c == '\U{FEFF}'
  }

  predicate IsDigit(c: char) {
    '0' <= c <= '9'
  }

  /** The length of the run of decimal digits at the start of `s`. */
  function DigitRun(s: string): (n: nat)
    ensures n <= |s|
    ensures forall k :: 0 <= k < n ==> IsDigit(s[k])
    ensures n < |s| ==> !IsDigit(s[n])
    decreases |s|
  {
    if s != [] && IsDigit(s[0]) then 1 + DigitRun(s[1..]) else 0
  }

  /** The value of a string of decimal digits. */
  function DigitsValue(s: string): nat
    requires forall k :: 0 <= k < |s| ==> IsDigit(s[k])
    decreases |s|
  {
    if s == [] then 0
    else DigitsValue(s[..|s| - 1]) * 10 + DigitValue(s[|s| - 1])
  }

  function DigitValue(c: char): nat
    requires IsDigit(c)
  {
    c as int - '0' as int
  }

  /** `parseInt(s, 10)`: skip leading white space, read an optional sign and
      the longest run of digits after it; no digits is NaN. */
  function ParseInt(s: string): (r: Octet)
    ensures !r.Undefined?
    ensures s == [] ==> r == NotANumber
    ensures AllDigits(s) && s != [] ==> r == Number(DigitsValue(s))
    ensures |s| > 1 && s[0] == '-' && AllDigits(s[1..]) ==> r == Number(-(DigitsValue(s[1..]) as int))
  {
    ParseSignedDigits(s);
    ParseSigned(TrimJsSpace(s))
  }

  /** `s` without its leading white space: the suffix `parseInt` reads.
      This is `Text.TrimStart` over JavaScript's white space (the
      WhiteSpace and LineTerminator characters of ECMAScript, which
      include U+FEFF) rather than Python's `isspace`, which includes
      U+001C to U+001F and U+0085 instead. */
  function TrimJsSpace(s: string): (t: string)
    ensures t == [] || !IsJsSpace(t[0])
    decreases |s|
  {
    if s != [] && IsJsSpace(s[0]) then TrimJsSpace(s[1..]) else s
  }

  /** `TrimJsSpace` drops exactly the leading white space: what it returns
      is a suffix of `s`, and everything before that suffix is white space. */
  lemma {:induction false} TrimJsSpaceDropsSpace(s: string)
    ensures var t := TrimJsSpace(s);
      && |t| <= |s| && t == s[|s| - |t|..]
      && forall k :: 0 <= k < |s| - |t| ==> IsJsSpace(s[k])
    decreases |s|
  {
    if s != [] && IsJsSpace(s[0]) {
      TrimJsSpaceDropsSpace(s[1..]);
      var t := TrimJsSpace(s);
      assert s[1..][|s| - 1 - |t|..] == s[|s| - |t|..];
      forall k | 0 <= k < |s| - |t| ensures IsJsSpace(s[k]) {
        if k > 0 {
          assert s[k] == s[1..][k - 1];
        }
      }
    }
  }

  /** Leading white space does not change what `parseInt` reads. */
  lemma ParseIntSkipsSpace(c: char, s: string)
    requires IsJsSpace(c)
    ensures ParseInt([c] + s) == ParseInt(s)
  {
    assert ([c] + s)[1..] == s;
    assert TrimJsSpace([c] + s) == TrimJsSpace(s);
  }

  predicate AllDigits(s: string) {
    forall k :: 0 <= k < |s| ==> IsDigit(s[k])
  }

  /** `parseInt` once the leading white space is gone. */
  function ParseSigned(t: string): Octet {
    var negative := t != [] && t[0] == '-';
    var body := if t != [] && (t[0] == '-' || t[0] == '+') then t[1..] else t;
    var n := DigitRun(body);
    if n == 0 then NotANumber
    else
      var v: int := DigitsValue(body[..n]);
      Number(if negative then -v else v)
  }

  /** A numeral, with or without a minus sign, reads as its value. */
  lemma ParseSignedDigits(t: string)
    ensures AllDigits(t) && t != [] ==> ParseSigned(t) == Number(DigitsValue(t))
    ensures |t| > 1 && t[0] == '-' && AllDigits(t[1..]) ==> ParseSigned(t) == Number(-(DigitsValue(t[1..]) as int))
  {
    if AllDigits(t) && t != [] {
      ParseDigits(t);
    } else if |t| > 1 && t[0] == '-' && AllDigits(t[1..]) {
      ParseNegativeDigits(t);
    }
  }

  lemma ParseDigits(t: string)
    requires AllDigits(t) && t != []
    ensures ParseSigned(t) == Number(DigitsValue(t))
  {
    DigitRunAll(t);
    assert t[..|t|] == t;
  }

  lemma ParseNegativeDigits(t: string)
    requires |t| > 1 && t[0] == '-' && AllDigits(t[1..])
    ensures ParseSigned(t) == Number(-(DigitsValue(t[1..]) as int))
  {
    var body := t[1..];
    DigitRunAll(body);
    assert body[..|body|] == body;
  }

  /** The decimal numeral of `n`, as `String(n)` writes it. */
  function DecimalString(n: nat): (s: string)
    ensures |s| >= 1 && forall k :: 0 <= k < |s| ==> IsDigit(s[k])
    decreases n
  {
    if n < 10 then [('0' as int + n) as char]
    else DecimalString(n / 10) + [('0' as int + n % 10) as char]
  }

  /** `parseInt` reads back the numeral of every natural number. */
  lemma {:induction false} ParseIntDecimal(n: nat)
    ensures ParseInt(DecimalString(n)) == Number(n)
  {
    DecimalValue(n);
  }

  lemma {:induction false} DigitRunAll(s: string)
    requires forall k :: 0 <= k < |s| ==> IsDigit(s[k])
    ensures DigitRun(s) == |s|
    decreases |s|
  {
    if s != [] {
      DigitRunAll(s[1..]);
    }
  }

  lemma {:induction false} DecimalValue(n: nat)
    ensures DigitsValue(DecimalString(n)) == n
    decreases n
  {
    if n >= 10 {
      DecimalValue(n / 10);
      var s := DecimalString(n);
      assert s[..|s| - 1] == DecimalString(n / 10);
    }
  }

  /** The first four octets of an address, as the comparator reads them. */
  function Octets(ip: string): (octets: seq<Octet>)
    ensures |octets| == 4
  {
    var parts := Split(ip, '.');
    seq(4, i requires 0 <= i < 4 => if i < |parts| then ParseInt(parts[i]) else Undefined)
  }

  /** The octets of `a.b.c.d`, for dot-free `a`, `b`, `c`, `d`, are their
      four `parseInt` values. */
  lemma OctetsOfParts(sa: string, sb: string, sc: string, sd: string)
    requires '.' !in sa && '.' !in sb && '.' !in sc && '.' !in sd
    ensures Octets(sa + "." + sb + "." + sc + "." + sd) == [ParseInt(sa), ParseInt(sb), ParseInt(sc), ParseInt(sd)]
  {
    var ip := sa + "." + sb + "." + sc + "." + sd;
    SplitQuad(sa, sb, sc, sd);
    OctetsOfSplit(ip, [sa, sb, sc, sd]);
  }

  /** An address that splits into four parts has their `parseInt` values as
      its octets. */
  lemma OctetsOfSplit(ip: string, parts: seq<string>)
    requires Split(ip, '.') == parts && |parts| == 4
    ensures Octets(ip) == [ParseInt(parts[0]), ParseInt(parts[1]), ParseInt(parts[2]), ParseInt(parts[3])]
  {
    OctetSlot(ip, 0);
    OctetSlot(ip, 1);
    OctetSlot(ip, 2);
    OctetSlot(ip, 3);
    FourSlots(Octets(ip), ParseInt(parts[0]), ParseInt(parts[1]), ParseInt(parts[2]), ParseInt(parts[3]));
  }

  /** Slot `i` of the octets is `parseInt` of part `i`, when there is one. */
  lemma OctetSlot(ip: string, i: nat)
    requires i < 4 && i < |Split(ip, '.')|
    ensures Octets(ip)[i] == ParseInt(Split(ip, '.')[i])
  {
  }

  lemma FourSlots<T>(s: seq<T>, a: T, b: T, c: T, d: T)
    requires |s| == 4 && s[0] == a && s[1] == b && s[2] == c && s[3] == d
    ensures s == [a, b, c, d]
  {
  }

  /** `a.b.c.d`, for dot-free `a`, `b`, `c`, `d`, splits into those four. */
  lemma SplitQuad(sa: string, sb: string, sc: string, sd: string)
    requires '.' !in sa && '.' !in sb && '.' !in sc && '.' !in sd
    ensures Split(sa + "." + sb + "." + sc + "." + sd, '.') == [sa, sb, sc, sd]
  {
    var cd := sc + "." + sd;
    var bcd := sb + "." + cd;
    SplitNoSep(sd, '.');
    SplitCons(sc, sd, '.');
    SplitCons(sb, cd, '.');
    SplitCons(sa, bcd, '.');
    assert sa + "." + sb + "." + sc + "." + sd == sa + "." + bcd;
  }

  /** A numeral has no dot. */
  lemma DecimalStringHasNoDot(n: nat)
    ensures '.' !in DecimalString(n)
  {
  }

  /** The address `a.b.c.d` written in decimal. */
  function DottedQuad(a: nat, b: nat, c: nat, d: nat): string {
    DecimalString(a) + "." + DecimalString(b) + "." + DecimalString(c) + "." + DecimalString(d)
  }

  /** The numerals of a dotted quad read back as its four numbers. */
  lemma OctetsOfDottedQuad(a: nat, b: nat, c: nat, d: nat)
    ensures Octets(DottedQuad(a, b, c, d)) == [Number(a), Number(b), Number(c), Number(d)]
  {
    DecimalStringHasNoDot(a);
    DecimalStringHasNoDot(b);
    DecimalStringHasNoDot(c);
    DecimalStringHasNoDot(d);
    OctetsOfParts(DecimalString(a), DecimalString(b), DecimalString(c), DecimalString(d));
    ParseIntDecimal(a);
    ParseIntDecimal(b);
    ParseIntDecimal(c);
    ParseIntDecimal(d);
  }

  /** `ipA[i] !== ipB[i]`, negated. */
  predicate StrictlyEqual(x: Octet, y: Octet) {
    (x.Number? && y.Number? && x.n == y.n) || (x.Undefined? && y.Undefined?)
  }

  /** `x - y`: a number only when both octets are. */
  function Difference(x: Octet, y: Octet): JsNumber {
    if x.Number? && y.Number? then Num(x.n - y.n) else NaN
  }

  /** The octets from `i` on are strictly equal, pair by pair. */
  predicate SameOctetsFrom(a: seq<Octet>, b: seq<Octet>, i: nat)
    requires |a| == 4 && |b| == 4
    decreases 4 - i
  {
    i >= 4 || (StrictlyEqual(a[i], b[i]) && SameOctetsFrom(a, b, i + 1))
  }

  /** The octets from `i` on are all numbers. */
  predicate NumbersFrom(a: seq<Octet>, i: nat)
    requires |a| == 4
    decreases 4 - i
  {
    i >= 4 || (a[i].Number? && NumbersFrom(a, i + 1))
  }

  /** The comparator's IP loop from octet `i` on: the signed difference of
      the first octets that are not strictly equal, or 0. */
  function IpCompareFrom(a: seq<Octet>, b: seq<Octet>, i: nat, dir: Direction): (r: JsNumber)
    requires |a| == 4 && |b| == 4
    ensures r == Num(0) <==> SameOctetsFrom(a, b, i)
    ensures r.NaN? ==> !NumbersFrom(a, i) || !NumbersFrom(b, i)
    decreases 4 - i
  {
    if i >= 4 then Num(0)
    else if !StrictlyEqual(a[i], b[i]) then
      (if dir == Asc then Difference(a[i], b[i]) else Difference(b[i], a[i]))
    else IpCompareFrom(a, b, i + 1, dir)
  }

  /** The comparator on two IP addresses (an absent one is `''`). */
  function IpCompare(dir: Direction, ipA: string, ipB: string): (r: JsNumber)
    ensures r == Num(0) <==> SameOctetsFrom(Octets(ipA), Octets(ipB), 0)
    ensures r.NaN? ==> !NumbersFrom(Octets(ipA), 0) || !NumbersFrom(Octets(ipB), 0)
  {
    IpCompareFrom(Octets(ipA), Octets(ipB), 0, dir)
  }

  /** The comparator's `for (let i = 0; i < 4; i++)` loop over the octets. */
  method CompareIpAddresses(dir: Direction, ipA: string, ipB: string) returns (c: JsNumber)
    ensures c == IpCompare(dir, ipA, ipB)
  {
    var a := Octets(ipA);
    var b := Octets(ipB);
    for i := 0 to 4
      invariant IpCompareFrom(a, b, i, dir) == IpCompareFrom(a, b, 0, dir)
    {
      if !StrictlyEqual(a[i], b[i]) {
        c := if dir == Asc then Difference(a[i], b[i]) else Difference(b[i], a[i]);
        return;
      }
    }
    c := Num(0);
  }

  /** Lexicographic order on sequences of integers. */
  predicate NumericLess(x: seq<int>, y: seq<int>)
    requires |x| == |y|
    decreases |x|
  {
    |x| > 0 && (x[0] < y[0] || (x[0] == y[0] && NumericLess(x[1..], y[1..])))
  }

  /** On numeric octets the ascending comparator is negative exactly when
      the first is numerically before the second, octet by octet, and zero
      exactly when they are equal. */
  lemma {:induction false} IpCompareNumeric(x: seq<int>, y: seq<int>, i: nat)
    requires |x| == 4 && |y| == 4 && i <= 4
    ensures var a := seq(4, k requires 0 <= k < 4 => Number(x[k]));
      var b := seq(4, k requires 0 <= k < 4 => Number(y[k]));
      var r := IpCompareFrom(a, b, i, Asc);
      r.Num? && (r.value < 0 <==> NumericLess(x[i..], y[i..])) && (r.value == 0 <==> x[i..] == y[i..])
    decreases 4 - i
  {
    if i < 4 {
      IpCompareNumeric(x, y, i + 1);
      assert x[i..][1..] == x[i + 1..] && y[i..][1..] == y[i + 1..];
      assert x[i..] == [x[i]] + x[i + 1..] && y[i..] == [y[i]] + y[i + 1..];
    }
  }

  /** Two dotted quads compare ascending in numeric octet order, so
      `192.168.1.9` comes before `192.168.1.10`, as a string sort would not
      have it. */
  lemma IpOrderIsNumeric(a1: nat, b1: nat, c1: nat, d1: nat, a2: nat, b2: nat, c2: nat, d2: nat)
    ensures var r := IpCompare(Asc, DottedQuad(a1, b1, c1, d1), DottedQuad(a2, b2, c2, d2));
      r.Num? && (r.value < 0 <==> NumericLess([a1, b1, c1, d1], [a2, b2, c2, d2]))
  {
    var x: seq<int> := [a1, b1, c1, d1];
    var y: seq<int> := [a2, b2, c2, d2];
    var ox := seq(4, k requires 0 <= k < 4 => Number(x[k]));
    var oy := seq(4, k requires 0 <= k < 4 => Number(y[k]));
    assert ox == [Number(a1), Number(b1), Number(c1), Number(d1)];
    assert oy == [Number(a2), Number(b2), Number(c2), Number(d2)];
    OctetsOfDottedQuad(a1, b1, c1, d1);
    OctetsOfDottedQuad(a2, b2, c2, d2);
    assert IpCompare(Asc, DottedQuad(a1, b1, c1, d1), DottedQuad(a2, b2, c2, d2)) == IpCompareFrom(ox, oy, 0, Asc);
    IpCompareNumeric(x, y, 0);
    assert x[0..] == x && y[0..] == y;
  }

  lemma Numerals()
    ensures DecimalString(192) == "192" && DecimalString(168) == "168"
    ensures DecimalString(1) == "1" && DecimalString(9) == "9" && DecimalString(10) == "10"
  {
    assert DecimalString(19) == "19";
  }

  /** The two addresses of the example below, written out. */
  lemma NineAndTenText()
    ensures DottedQuad(192, 168, 1, 9) == "192.168.1.9"
    ensures DottedQuad(192, 168, 1, 10) == "192.168.1.10"
  {
    Numerals();
  }

  /** A common prefix does not change how two strings compare. */
  lemma {:induction false} LexLessCommonPrefix(p: string, a: string, b: string)
    requires LexLess(a, b)
    ensures LexLess(p + a, p + b)
    decreases |p|
  {
    if p != [] {
      LexLessCommonPrefix(p[1..], a, b);
      assert (p + a)[0] == (p + b)[0];
      assert (p + a)[1..] == p[1..] + a && (p + b)[1..] == p[1..] + b;
    } else {
      assert p + a == a && p + b == b;
    }
  }

  /** `192.168.1.9` comes before `192.168.1.10` ascending and after it
      descending, although it is after it as a string. */
  lemma NineBeforeTen()
    ensures var nine, ten := DottedQuad(192, 168, 1, 9), DottedQuad(192, 168, 1, 10);
      && IpCompare(Asc, nine, ten).Num? && IpCompare(Asc, nine, ten).value < 0
      && IpCompare(Desc, nine, ten).Num? && IpCompare(Desc, nine, ten).value > 0
      && LexLess(ten, nine)
  {
    var nine, ten := DottedQuad(192, 168, 1, 9), DottedQuad(192, 168, 1, 10);
    IpOrderIsNumeric(192, 168, 1, 9, 192, 168, 1, 10);
    var x: seq<int> := [192, 168, 1, 9];
    var y: seq<int> := [192, 168, 1, 10];
    assert x[1..] == [168, 1, 9] && y[1..] == [168, 1, 10];
    assert x[1..][1..] == [1, 9] && y[1..][1..] == [1, 10];
    assert x[1..][1..][1..] == [9] && y[1..][1..][1..] == [10];
    assert NumericLess(x, y);
    IpCompareFromFlip(Octets(nine), Octets(ten), 0);
    IpCompareFromFlip(Octets(ten), Octets(nine), 0);
    var p := DecimalString(192) + "." + DecimalString(168) + "." + DecimalString(1) + ".";
    Numerals();
    assert LexLess(DecimalString(10), DecimalString(9));
    LexLessCommonPrefix(p, DecimalString(10), DecimalString(9));
    assert ten == p + DecimalString(10) && nine == p + DecimalString(9);
  }

  // ---------------------------------------------------------------------
  // The row comparator
  // ---------------------------------------------------------------------

  /** The comparator `sortedItems.sort` is called with: by IP address octet
      by octet, by date for the `seen` columns, otherwise by string. */
  function Compare(config: SortConfig, x: DeviceRow, y: DeviceRow): (c: JsNumber)
    ensures config.key != IpAddress ==> c.Num?
  {
    var asc := config.direction == Asc;
    if config.key == IpAddress then
      IpCompare(config.direction, x.ipAddress.GetOr(""), y.ipAddress.GetOr(""))
    else if Contains(KeyName(config.key), "seen") then
      var dateA := SeenTime(x, config.key);
      var dateB := SeenTime(y, config.key);
      Num(if asc then dateA - dateB else dateB - dateA)
    else
      var valA := TextField(x, config.key);
      var valB := TextField(y, config.key);
      if LexLess(valA, valB) then Num(if asc then -1 else 1)
      else if LexLess(valB, valA) then Num(if asc then 1 else -1)
      else Num(0)
  }

  /** The two rows agree on the column `key`: the same date for the `seen`
      columns (a missing one counting as the epoch), otherwise the same text
      (a missing one counting as empty). */
  predicate SameSortValue(key: SortKey, x: DeviceRow, y: DeviceRow) {
    if key == FirstSeen || key == LastSeen then SeenTime(x, key) == SeenTime(y, key)
    else TextField(x, key) == TextField(y, key)
  }

  /** `x` comes first on the column `key` ascending: an earlier date, or a
      string that is smaller. */
  predicate SortsBefore(key: SortKey, x: DeviceRow, y: DeviceRow) {
    if key == FirstSeen || key == LastSeen then SeenTime(x, key) < SeenTime(y, key)
    else LexLess(TextField(x, key), TextField(y, key))
  }

  /** Off the IP column the comparator gives 0 exactly on rows that agree
      on the column, and ascending a negative number exactly when the first
      row sorts before the second. */
  lemma CompareByValue(config: SortConfig, x: DeviceRow, y: DeviceRow)
    requires config.key != IpAddress
    ensures var c := Compare(config, x, y);
      && (c.value == 0 <==> SameSortValue(config.key, x, y))
      && (config.direction == Asc ==> (c.value < 0 <==> SortsBefore(config.key, x, y)))
      && (config.direction == Desc ==> (c.value < 0 <==> SortsBefore(config.key, y, x)))
  {
    LexTrichotomy(TextField(x, config.key), TextField(y, config.key));
    SeenKeys(config.key);
  }

  /** Ascending, a row with no value in a text column sorts before every
      row, since `''` is before or equal to every string. */
  lemma MissingTextSortsFirst(key: SortKey, x: DeviceRow, y: DeviceRow)
    requires key in {MacAddress, Manufacturer, Hostname, OsInfo} && TextValue(x, key).None?
    ensures Precedes(SortConfig(key, Asc), x, y)
  {
    SeenKeys(key);
  }

  /** Ascending, a row with no date in a `seen` column sorts as the epoch:
      before every row seen since. */
  lemma MissingDateSortsFirst(key: SortKey, x: DeviceRow, y: DeviceRow)
    requires (key == FirstSeen || key == LastSeen) && DateValue(x, key).None? && SeenTime(y, key) >= 0
    ensures Precedes(SortConfig(key, Asc), x, y)
  {
    SeenKeys(key);
  }

  /** The comparator as the sort calls it. */
  method CompareRows(config: SortConfig, x: DeviceRow, y: DeviceRow) returns (c: JsNumber)
    ensures c == Compare(config, x, y)
  {
    if config.key == IpAddress {
      c := CompareIpAddresses(config.direction, x.ipAddress.GetOr(""), y.ipAddress.GetOr(""));
    } else {
      c := Compare(config, x, y);
    }
  }

  /** `x` may stay before `y`: the comparator gives a number no greater
      than 0. */
  predicate Precedes(config: SortConfig, x: DeviceRow, y: DeviceRow) {
    Compare(config, x, y).Num? && Compare(config, x, y).value <= 0
  }

  function Negate(n: JsNumber): JsNumber {
    match n
    case Num(v) => Num(-v)
    case NaN => NaN
  }

  lemma {:induction false} IpCompareFromFlip(a: seq<Octet>, b: seq<Octet>, i: nat)
    requires |a| == 4 && |b| == 4
    ensures IpCompareFrom(a, b, i, Desc) == IpCompareFrom(b, a, i, Asc)
    ensures IpCompareFrom(a, b, i, Asc) == Negate(IpCompareFrom(b, a, i, Asc))
    decreases 4 - i
  {
    if i < 4 && StrictlyEqual(a[i], b[i]) {
      IpCompareFromFlip(a, b, i + 1);
    }
  }

  /** Sorting descending is sorting ascending with the arguments swapped. */
  lemma CompareDescIsFlippedAsc(key: SortKey, x: DeviceRow, y: DeviceRow)
    ensures Compare(SortConfig(key, Desc), x, y) == Compare(SortConfig(key, Asc), y, x)
  {
    if key == IpAddress {
      IpCompareFromFlip(Octets(x.ipAddress.GetOr("")), Octets(y.ipAddress.GetOr("")), 0);
    } else if key == FirstSeen || key == LastSeen {
      SeenKeys(key);
    } else {
      SeenKeys(key);
      LexTrichotomy(TextField(x, key), TextField(y, key));
    }
  }

  /** Swapping the rows negates the comparator. */
  lemma CompareAntisymmetric(config: SortConfig, x: DeviceRow, y: DeviceRow)
    ensures Compare(config, x, y) == Negate(Compare(config, y, x))
  {
    if config.key == IpAddress {
      var a, b := Octets(x.ipAddress.GetOr("")), Octets(y.ipAddress.GetOr(""));
      IpCompareFromFlip(a, b, 0);
      IpCompareFromFlip(b, a, 0);
    } else {
      LexTrichotomy(TextField(x, config.key), TextField(y, config.key));
    }
  }

  lemma {:induction false} IpCompareFromTransitive(a: seq<Octet>, b: seq<Octet>, c: seq<Octet>, i: nat)
    requires |a| == 4 && |b| == 4 && |c| == 4
    requires IpCompareFrom(a, b, i, Asc).Num? && IpCompareFrom(a, b, i, Asc).value <= 0
    requires IpCompareFrom(b, c, i, Asc).Num? && IpCompareFrom(b, c, i, Asc).value <= 0
    ensures IpCompareFrom(a, c, i, Asc).Num? && IpCompareFrom(a, c, i, Asc).value <= 0
    decreases 4 - i
  {
    if i < 4 && StrictlyEqual(a[i], b[i]) && StrictlyEqual(b[i], c[i]) {
      IpCompareFromTransitive(a, b, c, i + 1);
    }
  }

  /** Ascending, `Precedes` is transitive. */
  lemma PrecedesTransitiveAsc(key: SortKey, x: DeviceRow, y: DeviceRow, z: DeviceRow)
    requires Precedes(SortConfig(key, Asc), x, y) && Precedes(SortConfig(key, Asc), y, z)
    ensures Precedes(SortConfig(key, Asc), x, z)
  {
    if key == IpAddress {
      IpCompareFromTransitive(Octets(x.ipAddress.GetOr("")), Octets(y.ipAddress.GetOr("")), Octets(z.ipAddress.GetOr("")), 0);
    } else {
      var a, b, c := TextField(x, key), TextField(y, key), TextField(z, key);
      LexTrichotomy(a, b);
      LexTrichotomy(b, c);
      LexTrichotomy(a, c);
      if LexLess(a, b) && LexLess(b, c) {
        LexTransitive(a, b, c);
      }
    }
  }

  /** In either direction, `Precedes` is transitive. */
  lemma PrecedesTransitive(config: SortConfig, x: DeviceRow, y: DeviceRow, z: DeviceRow)
    requires Precedes(config, x, y) && Precedes(config, y, z)
    ensures Precedes(config, x, z)
  {
    var asc := SortConfig(config.key, Asc);
    if config.direction == Asc {
      PrecedesTransitiveAsc(config.key, x, y, z);
    } else {
      CompareDescIsFlippedAsc(config.key, x, y);
      CompareDescIsFlippedAsc(config.key, y, z);
      CompareDescIsFlippedAsc(config.key, x, z);
      PrecedesTransitiveAsc(config.key, z, y, x);
    }
  }

  // ---------------------------------------------------------------------
  // Sorting
  // ---------------------------------------------------------------------

  /** The comparator gives a number on every pair of rows of `rows`; with a
      NaN somewhere JavaScript leaves the order of the sort undefined. */
  predicate Comparable(config: SortConfig, rows: seq<DeviceRow>) {
    forall x, y :: x in rows && y in rows ==> Compare(config, x, y).Num?
  }

  /** Every row may stay before every later row. */
  predicate Sorted(config: SortConfig, rows: seq<DeviceRow>) {
    forall i, j :: 0 <= i < j < |rows| ==> Precedes(config, rows[i], rows[j])
  }

  /** The first `n` rows are in order, neighbour by neighbour. */
  predicate AdjacentSortedTo(config: SortConfig, rows: seq<DeviceRow>, n: nat)
    requires n <= |rows|
  {
    forall k :: 0 < k < n ==> Precedes(config, rows[k - 1], rows[k])
  }

  predicate AdjacentSorted(config: SortConfig, rows: seq<DeviceRow>) {
    forall k :: 0 < k < |rows| ==> Precedes(config, rows[k - 1], rows[k])
  }

  lemma {:induction false} AdjacentToSorted(config: SortConfig, rows: seq<DeviceRow>)
    requires AdjacentSorted(config, rows)
    ensures Sorted(config, rows)
    decreases |rows|
  {
    if |rows| > 1 {
      var init := rows[..|rows| - 1];
      assert AdjacentSorted(config, init) by {
        forall k | 0 < k < |init| ensures Precedes(config, init[k - 1], init[k]) {
          assert init[k - 1] == rows[k - 1] && init[k] == rows[k];
        }
      }
      AdjacentToSorted(config, init);
      forall i, j | 0 <= i < j < |rows| ensures Precedes(config, rows[i], rows[j]) {
        if j < |rows| - 1 {
          assert init[i] == rows[i] && init[j] == rows[j];
        } else if i < j - 1 {
          assert init[i] == rows[i] && init[j - 1] == rows[j - 1];
          PrecedesTransitive(config, rows[i], rows[j - 1], rows[j]);
        }
      }
    }
  }

  /** Neighbours in a permutation of comparable rows are comparable. */
  lemma NeighboursComparable(config: SortConfig, orig: seq<DeviceRow>, rows: seq<DeviceRow>, k: nat)
    requires Comparable(config, orig) && multiset(rows) == multiset(orig) && 0 < k < |rows|
    ensures Compare(config, rows[k - 1], rows[k]).Num?
  {
    assert rows[k - 1] in multiset(rows) && rows[k] in multiset(rows);
    assert rows[k - 1] in orig && rows[k] in orig;
  }

  /** Swapping two elements keeps the multiset. */
  lemma SwapMultiset(s: seq<DeviceRow>, i: nat, j: nat)
    requires i < j < |s|
    ensures multiset(s[i := s[j]][j := s[i]]) == multiset(s)
  {
  }

  /** Halfway through inserting `rows[i]`, which now sits at `j`: every
      neighbouring pair up to `i` is in order except the one ending at `j`,
      and the rows either side of `j` are in order with each other. */
  predicate Inserting(config: SortConfig, rows: seq<DeviceRow>, i: nat, j: nat)
    requires j <= i < |rows|
  {
    && (forall k :: 0 < k <= i && k != j ==> Precedes(config, rows[k - 1], rows[k]))
    && (0 < j < i ==> Precedes(config, rows[j - 1], rows[j + 1]))
  }

  lemma InsertingStart(config: SortConfig, rows: seq<DeviceRow>, i: nat)
    requires i < |rows| && AdjacentSortedTo(config, rows, i)
    ensures Inserting(config, rows, i, i)
  {
  }

  /** Swapping the inserted row with a row that must come after it moves the
      insertion one place down. */
  lemma InsertingSwap(config: SortConfig, rows: seq<DeviceRow>, i: nat, j: nat)
    requires 0 < j <= i < |rows| && Inserting(config, rows, i, j)
    requires Compare(config, rows[j - 1], rows[j]).Num? && Compare(config, rows[j - 1], rows[j]).value > 0
    ensures Inserting(config, rows[j - 1 := rows[j]][j := rows[j - 1]], i, j - 1)
  {
    var s := rows[j - 1 := rows[j]][j := rows[j - 1]];
    CompareAntisymmetric(config, rows[j - 1], rows[j]);
    forall k | 0 < k <= i && k != j - 1 ensures Precedes(config, s[k - 1], s[k]) {
      if k == j {
        assert s[k - 1] == rows[j] && s[k] == rows[j - 1];
      } else if k == j + 1 {
        assert s[k - 1] == rows[j - 1] && s[k] == rows[j + 1];
      } else {
        assert s[k - 1] == rows[k - 1] && s[k] == rows[k];
      }
    }
    if 0 < j - 1 {
      assert s[j - 2] == rows[j - 2] && s[j] == rows[j - 1];
    }
  }

  /** Once the inserted row is in order with its predecessor, the prefix
      up to `i` is sorted. */
  lemma InsertingDone(config: SortConfig, rows: seq<DeviceRow>, i: nat, j: nat)
    requires j <= i < |rows| && Inserting(config, rows, i, j)
    requires j == 0 || Precedes(config, rows[j - 1], rows[j])
    ensures AdjacentSortedTo(config, rows, i + 1)
  {
  }

  /** One comparison of the insertion step: swap the inserted row, now at
      `j`, with its predecessor when that must come after it. */
  method SwapDown(a: array<DeviceRow>, i: nat, j: nat, config: SortConfig, ghost orig: seq<DeviceRow>) returns (moved: bool)
    requires 0 < j <= i < a.Length && Comparable(config, orig) && multiset(a[..]) == multiset(orig)
    requires Inserting(config, a[..], i, j)
    modifies a
    ensures multiset(a[..]) == multiset(orig)
    ensures moved ==> Inserting(config, a[..], i, j - 1)
    ensures !moved ==> a[..] == old(a[..]) && Precedes(config, a[j - 1], a[j])
  {
    var c := CompareRows(config, a[j - 1], a[j]);
    NeighboursComparable(config, orig, a[..], j);
    moved := c.value > 0;
    if moved {
      ghost var s := a[..];
      InsertingSwap(config, s, i, j);
      a[j - 1], a[j] := a[j], a[j - 1];
      assert a[..] == s[j - 1 := s[j]][j := s[j - 1]];
      SwapMultiset(s, j - 1, j);
    }
  }

  /** The insertion step: move `a[i]` down past every row that must come
      after it, so that the first `i + 1` rows are in order. */
  method InsertLast(a: array<DeviceRow>, i: nat, config: SortConfig, ghost orig: seq<DeviceRow>)
    requires i < a.Length && Comparable(config, orig) && multiset(a[..]) == multiset(orig)
    requires AdjacentSortedTo(config, a[..], i)
    modifies a
    ensures multiset(a[..]) == multiset(orig)
    ensures AdjacentSortedTo(config, a[..], i + 1)
  {
    InsertingStart(config, a[..], i);
    var j := i;
    var done := false;
    while j > 0 && !done
      invariant 0 <= j <= i
      invariant multiset(a[..]) == multiset(orig)
      invariant Inserting(config, a[..], i, j)
      invariant done ==> 0 < j && Precedes(config, a[j - 1], a[j])
      decreases j, !done
    {
      var moved := SwapDown(a, i, j, config, orig);
      if moved {
        j := j - 1;
      } else {
        done := true;
      }
    }
    InsertingDone(config, a[..], i, j);
  }

  /** `Array.prototype.sort` with the row comparator, in place, written as
      a stable insertion sort. */
  method SortInPlace(a: array<DeviceRow>, config: SortConfig)
    requires Comparable(config, a[..])
    modifies a
    ensures multiset(a[..]) == multiset(old(a[..]))
    ensures Sorted(config, a[..])
  {
    var i := 0;
    while i < a.Length
      invariant 0 <= i <= a.Length
      invariant multiset(a[..]) == multiset(old(a[..]))
      invariant AdjacentSortedTo(config, a[..], i)
    {
      InsertLast(a, i, config, old(a[..]));
      i := i + 1;
    }
    AdjacentToSorted(config, a[..]);
  }

  /** `[...safeDevices].sort(...)`: a sorted copy; the rows passed in are
      left as they were. */
  method SortDevices(devices: array<DeviceRow>, config: SortConfig) returns (sorted: array<DeviceRow>)
    requires Comparable(config, devices[..])
    ensures fresh(sorted)
    ensures devices[..] == old(devices[..])
    ensures multiset(sorted[..]) == multiset(devices[..])
    ensures Sorted(config, sorted[..])
  {
    sorted := new DeviceRow[devices.Length](k requires 0 <= k < devices.Length reads devices => devices[k]);
    assert sorted[..] == devices[..];
    SortInPlace(sorted, config);
  }

  /** The `sortedDevices` memo: the `devices` prop made safe with
      `Array.isArray`, then copied and sorted. */
  method SortedDevices(devices: DevicesProp, config: SortConfig) returns (sorted: array<DeviceRow>)
    requires Comparable(config, SafeDevices(devices))
    ensures fresh(sorted)
    ensures multiset(sorted[..]) == multiset(SafeDevices(devices))
    ensures Sorted(config, sorted[..])
  {
    var rows := SafeDevices(devices);
    var safeDevices := new DeviceRow[|rows|](k requires 0 <= k < |rows| => rows[k]);
    assert safeDevices[..] == rows;
    sorted := SortDevices(safeDevices, config);
  }
}
