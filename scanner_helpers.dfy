/**
 * The pure helpers of the network scanner: the /24 subnet swept around the
 * local address, the list of hosts to scan (discovered hosts plus the local
 * system), and the short host name read out of `nslookup` output.
 */
module ScannerHelpers {
  import opened Wrappers
  import opened Text

  /** The subnet swept when the local address is unknown. */
  const DefaultSubnet: string := "10.0.0.0/24"

  /** No element occurs twice. */
  predicate NoDuplicates(s: seq<string>) {
    forall i, j :: 0 <= i < j < |s| ==> s[i] != s[j]
  }

  /** Python truthiness of an optional string: present and non-empty. */
  predicate Truthy(s: Option<string>) {
    s.Some? && s.value != ""
  }

  /** The subnet to sweep: all but the last dot-separated field of the local
      address followed by `.0/24`, or the default subnet when there is no
      local address. */
  function Subnet(localIp: Option<string>): (subnet: string)
    ensures !Truthy(localIp) ==> subnet == DefaultSubnet
    ensures |subnet| >= 5 && subnet[|subnet| - 5..] == ".0/24"
  {
    if Truthy(localIp) then
      var parts := Split(localIp.value, '.');
      Join(parts[..|parts| - 1], '.') + ".0/24"
    else
      DefaultSubnet
  }

  /** For a dotted quad `a.b.c.d` the subnet is `a.b.c.0/24`. */
  lemma SubnetOfDottedQuad(a: string, b: string, c: string, d: string)
    requires '.' !in a && '.' !in b && '.' !in c && '.' !in d
    ensures Subnet(Some(a + "." + b + "." + c + "." + d)) == a + "." + b + "." + c + ".0/24"
  {
    var ip := a + "." + b + "." + c + "." + d;
    JoinFour(a, b, c, d);
    SplitJoin([a, b, c, d], '.');
    assert Split(ip, '.')[..3] == [a, b, c];
    JoinThree(a, b, c);
    assert ip != "" by { assert ip[|a|] == '.'; }
  }

  lemma JoinThree(a: string, b: string, c: string)
    ensures Join([a, b, c], '.') == a + "." + b + "." + c
  {
    assert [a, b, c][1..] == [b, c];
    assert [b, c][1..] == [c];
    assert Join([c], '.') == c;
    assert Join([b, c], '.') == b + "." + c;
  }

  lemma JoinFour(a: string, b: string, c: string, d: string)
    ensures Join([a, b, c, d], '.') == a + "." + b + "." + c + "." + d
  {
    JoinThree(b, c, d);
    assert [a, b, c, d][1..] == [b, c, d];
  }

  /** The hosts to scan: the discovered hosts, then the local address if it
      is known and was not discovered. */
  function ScanTargets(discovered: seq<string>, localIp: Option<string>): (targets: seq<string>)
    ensures |discovered| <= |targets| <= |discovered| + 1
    ensures targets[..|discovered|] == discovered
    ensures forall h :: h in targets ==> h in discovered || (Truthy(localIp) && h == localIp.value)
    ensures Truthy(localIp) ==> localIp.value in targets
  {
    if Truthy(localIp) && localIp.value !in discovered then discovered + [localIp.value]
    else discovered
  }

  /** Adding the local address never introduces a duplicate host. */
  lemma ScanTargetsNoDuplicates(discovered: seq<string>, localIp: Option<string>)
    requires NoDuplicates(discovered)
    ensures NoDuplicates(ScanTargets(discovered, localIp))
  {
    var targets := ScanTargets(discovered, localIp);
    forall i, j | 0 <= i < j < |targets| ensures targets[i] != targets[j] {
      if j == |discovered| {
        assert targets[i] == discovered[i];
        assert targets[j] == localIp.value && localIp.value !in discovered;
      }
    }
  }

  /** An `nslookup` answer line: one whose lower-cased text contains `name = `. */
  predicate IsNameLine(line: string)
    ensures IsNameLine(line) ==> '=' in line
  {
    LowerKeepsEquals(line);
    Contains(Lower(line), "name = ")
  }

  /** The only character that lower-cases to `=` is `=`. */
  lemma LowerKeepsEquals(line: string)
    ensures Contains(Lower(line), "name = ") ==> '=' in line
  {
    if Contains(Lower(line), "name = ") {
      ContainsChar(Lower(line), "name = ", '=');
      var k :| 0 <= k < |line| && Lower(line)[k] == '=';
      assert line[k] == '=';
    }
  }

  /** An answer line contains `=`, so `line.split('=')[1]` exists. */
  lemma NameLineHasField(line: string)
    requires IsNameLine(line)
    ensures |Split(line, '=')| >= 2
  {
    SplitHasSecond(line, '=');
  }

  /** The full name of an answer line: the text after the first `=`, with
      surrounding whitespace and trailing dots removed. */
  function FullName(line: string): (name: string)
    requires IsNameLine(line)
    ensures '=' !in name
    ensures name == [] || (!IsSpace(name[0]) && name[|name| - 1] != '.')
  {
    NameLineHasField(line);
    TrimEndChar(Strip(Split(line, '=')[1]), '.')
  }

  /** The short host name of an answer line: the first dot-separated label of
      its full name. */
  function ShortName(line: string): (name: string)
    requires IsNameLine(line)
    ensures '.' !in name
    ensures StartsWith(FullName(line), name)
    ensures |name| == |FullName(line)| || FullName(line)[|name|] == '.'
  {
    SplitFirst(FullName(line), '.');
    Split(FullName(line), '.')[0]
  }

  /** Line `k` is the first answer line of `lines`. */
  predicate IsFirstNameLine(lines: seq<string>, k: int) {
    0 <= k < |lines| && IsNameLine(lines[k]) && forall j :: 0 <= j < k ==> !IsNameLine(lines[j])
  }

  /** The short name of the first answer line at or after line `i`: the
      value the `for line in ...: if ...: return` loop returns. */
  function NslookupAnswer(lines: seq<string>, i: nat): (answer: Option<string>)
    ensures answer.Some? ==> '.' !in answer.value
    decreases |lines| - i
  {
    if i >= |lines| then None
    else if IsNameLine(lines[i]) then Some(ShortName(lines[i]))
    else NslookupAnswer(lines, i + 1)
  }

  /** There is an answer iff some line is an answer line, and it is the
      short name of the first one. */
  lemma {:induction false} NslookupAnswerIsFirst(lines: seq<string>, i: nat)
    requires forall j :: 0 <= j < i && j < |lines| ==> !IsNameLine(lines[j])
    ensures NslookupAnswer(lines, i).Some? <==> exists k :: 0 <= k < |lines| && IsNameLine(lines[k])
    ensures NslookupAnswer(lines, i).Some? ==> exists k :: IsFirstNameLine(lines, k) && NslookupAnswer(lines, i).value == ShortName(lines[k])
    decreases |lines| - i
  {
    if i < |lines| {
      if IsNameLine(lines[i]) {
        assert IsFirstNameLine(lines, i);
      } else {
        NslookupAnswerIsFirst(lines, i + 1);
      }
    }
  }

  /** The host name found in the output of `nslookup <ip> <dns>`. */
  method HostnameFromNslookup(stdout: string) returns (hostname: Option<string>)
    ensures hostname == NslookupAnswer(SplitLines(stdout), 0)
  {
    var lines := SplitLines(stdout);
    var i := 0;
    while i < |lines|
      invariant 0 <= i <= |lines|
      invariant NslookupAnswer(lines, i) == NslookupAnswer(lines, 0)
    {
      if IsNameLine(lines[i]) {
        hostname := Some(ShortName(lines[i]));
        return;
      }
      i := i + 1;
    }
    hostname := None;
  }

  /** `get_hostname`: the `nslookup` answer if it has one, else the first
      label of the reverse-DNS name; `None` when the lookup process fails
      (`nslookup` is `None`) or the reverse lookup raises (`reverseName` is
      `None`). */
  method GetHostname(nslookup: Option<string>, reverseName: Option<string>) returns (hostname: Option<string>)
    ensures nslookup.None? ==> hostname.None?
    ensures nslookup.Some? && NslookupAnswer(SplitLines(nslookup.value), 0).Some? ==>
      hostname == NslookupAnswer(SplitLines(nslookup.value), 0)
    ensures nslookup.Some? && NslookupAnswer(SplitLines(nslookup.value), 0).None? ==>
      hostname == if reverseName.Some? then Some(Split(reverseName.value, '.')[0]) else None
    ensures hostname.Some? ==> '.' !in hostname.value
  {
    if nslookup.None? {
      return None;
    }
    hostname := HostnameFromNslookup(nslookup.value);
    if hostname.None? {
      if reverseName.Some? {
        hostname := Some(Split(reverseName.value, '.')[0]);
      }
    }
  }
}
