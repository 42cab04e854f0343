/**
 * The text handling of wifi_blocker.py: the default-gateway search of
 * `_get_gateway_ip`, the whole-table read of `_read_arp_cache`, the listing
 * `scan_network` builds from it (subnet filter, notes, numeric sort), and
 * `parse_device_numbers`. Command output and file contents are inputs:
 * `None` where running the command or opening the file failed.
 */
module BlockerParse {
  import opened Wrappers
  import opened Text
  import SystemArp
  import BlockTable

  // ---------------------------------------------------------------------
  // Default gateway

  const DEFAULT_ROUTE := "00000000"
  const DEFAULT_GATEWAY := "192.168.1.1"

  /** What one line of `/proc/net/route` does to the search: pass, answer, or raise (which ends the search). */
  datatype RouteStep = Skip | Found(gateway: string) | Raise

  /** `f"{b[3]}.{b[2]}.{b[1]}.{b[0]}"`: the route file stores the address little-endian. */
  function ReversedQuad(b: seq<nat>): string
    requires |b| >= 4
  {
    NatToString(b[3]) + "." + NatToString(b[2]) + "." + NatToString(b[1]) + "." + NatToString(b[0])
  }

  /** One route line: the default route's gateway field decoded, or `Raise` where `bytes.fromhex` or the indexing would. */
  function RouteLine(line: string): RouteStep {
    var parts := Split(Strip(line));
    if |parts| >= 3 && parts[1] == DEFAULT_ROUTE then
      match FromHex(parts[2])
      case None => Raise
      case Some(bytes) => if |bytes| >= 4 then Found(ReversedQuad(bytes)) else Raise
    else Skip
  }

  /** The Linux search: the first line that answers or raises decides; `None` when none answers. */
  function RouteGateway(lines: seq<string>): Option<string>
    decreases |lines|
  {
    if lines == [] then None
    else match RouteLine(lines[0])
      case Skip => RouteGateway(lines[1..])
      case Found(g) => Some(g)
      case Raise => None
  }

  /** One `ipconfig` line: a "Default Gateway" line with a '.', the trimmed text after its first ':', when not empty. */
  function IpconfigLine(line: string): Option<string> {
    if Contains(line, "Default Gateway") && Contains(line, ".") then
      var parts := SplitOn(line, ":");
      if |parts| >= 2 && Strip(parts[1]) != "" then Some(Strip(parts[1])) else None
    else None
  }

  /** The Windows search: the first line that answers. */
  function IpconfigGateway(lines: seq<string>): Option<string>
    decreases |lines|
  {
    if lines == [] then None
    else if IpconfigLine(lines[0]).Some? then IpconfigLine(lines[0])
    else IpconfigGateway(lines[1..])
  }

  /** The fallback: ".1" in this host's /24, or "192.168.1.1"; `None` where an address of fewer than three parts makes it raise. */
  function FallbackGateway(myIp: Option<string>): Option<string> {
    if Truthy(myIp) then
      var parts := SplitOn(myIp.value, ".");
      if |parts| < 3 then None else Some(parts[0] + "." + parts[1] + "." + parts[2] + ".1")
    else Some(DEFAULT_GATEWAY)
  }

  /**
   * `_get_gateway_ip`: `output` is the text of `ipconfig` (Windows) or of
   * `/proc/net/route`, line by line. `None` where the source raises.
   */
  function GatewayIp(platform: SystemArp.Platform, output: Option<seq<string>>, myIp: Option<string>): (r: Option<string>)
    ensures r.Some? ==> r.value != ""
  {
    var found := match output
      case None => None
      case Some(lines) => if platform == SystemArp.Windows then IpconfigGateway(lines) else RouteGateway(lines);
    if found.Some? then
      assert found.value != "" by {
        if platform == SystemArp.Windows {
          IpconfigGatewayNonEmpty(output.value);
        } else {
          RouteGatewayNonEmpty(output.value);
        }
      }
      found
    else FallbackGateway(myIp)
  }

  lemma {:induction false} IpconfigGatewayNonEmpty(lines: seq<string>)
    ensures IpconfigGateway(lines).Some? ==> IpconfigGateway(lines).value != ""
    decreases |lines|
  {
    if lines != [] && IpconfigLine(lines[0]).None? {
      IpconfigGatewayNonEmpty(lines[1..]);
    }
  }

  /** An `ipconfig` line answers: it names "Default Gateway", holds a '.', and some text is left after its first ':' once stripped. */
  predicate IpconfigAnswers(line: string) {
    var parts := SplitOn(line, ":");
    Contains(line, "Default Gateway") && Contains(line, ".") && |parts| >= 2 && Strip(parts[1]) != ""
  }

  /**
   * The Windows search finds a gateway exactly when some line answers, and
   * then it is the stripped text after the first ':' of the first such line.
   */
  lemma {:induction false} IpconfigGatewayFirstMatch(lines: seq<string>)
    ensures IpconfigGateway(lines).Some? <==> exists k :: 0 <= k < |lines| && IpconfigAnswers(lines[k])
    ensures forall k :: 0 <= k < |lines| && IpconfigAnswers(lines[k])
                        && (forall j :: 0 <= j < k ==> !IpconfigAnswers(lines[j]))
                    ==> IpconfigGateway(lines) == Some(Strip(SplitOn(lines[k], ":")[1]))
    decreases |lines|
  {
    if lines != [] {
      IpconfigGatewayFirstMatch(lines[1..]);
      IpconfigGatewayCons(lines);
      if !IpconfigAnswers(lines[0]) {
        assert forall k :: 1 <= k < |lines| ==> lines[k] == lines[1..][k - 1];
        forall k | 0 <= k < |lines| && IpconfigAnswers(lines[k])
                   && (forall j :: 0 <= j < k ==> !IpconfigAnswers(lines[j]))
          ensures IpconfigGateway(lines) == Some(Strip(SplitOn(lines[k], ":")[1]))
        {
          assert k >= 1;
          assert forall j :: 0 <= j < k - 1 ==> lines[1..][j] == lines[j + 1];
        }
      }
    }
  }

  /** The Windows search looks at the first line, and at the rest only when it does not answer. */
  lemma IpconfigGatewayCons(lines: seq<string>)
    requires lines != []
    ensures IpconfigGateway(lines)
            == if IpconfigAnswers(lines[0]) then Some(Strip(SplitOn(lines[0], ":")[1])) else IpconfigGateway(lines[1..])
  {
  }

  lemma {:induction false} RouteGatewayNonEmpty(lines: seq<string>)
    ensures RouteGateway(lines).Some? ==> RouteGateway(lines).value != ""
    decreases |lines|
  {
    if lines != [] && RouteLine(lines[0]).Skip? {
      RouteGatewayNonEmpty(lines[1..]);
    }
  }

  /**
   * A default-route line whose gateway field holds bytes b0 b1 b2 b3 in hex
   * gives "b3.b2.b1.b0".
   */
  lemma RouteLineDecodes(iface: string, b: seq<nat>, rest: seq<string>)
    requires |b| == 4 && forall k :: 0 <= k < 4 ==> b[k] < 256
    requires iface != [] && NoSpace(iface)
    requires forall k :: 0 <= k < |rest| ==> rest[k] != [] && NoSpace(rest[k])
    ensures RouteLine(Join([iface, DEFAULT_ROUTE, HexBytes(b)] + rest, " ")) == Found(ReversedQuad(b))
  {
    var tokens := [iface, DEFAULT_ROUTE, HexBytes(b)] + rest;
    HexBytesNoSpace(b);
    assert NoSpace(DEFAULT_ROUTE);
    assert forall k :: 3 <= k < |tokens| ==> tokens[k] == rest[k - 3];
    assert forall k :: 0 <= k < |tokens| ==> tokens[k] != [] && NoSpace(tokens[k]);
    SplitStripJoin(tokens);
    var parts := Split(Strip(Join(tokens, " ")));
    assert parts == tokens;
    assert parts[1] == DEFAULT_ROUTE && parts[2] == HexBytes(b);
    FromHexOfHexBytes(b);
  }

  lemma HexBytesNoSpace(b: seq<nat>)
    requires forall k :: 0 <= k < |b| ==> b[k] < 256
    ensures NoSpace(HexBytes(b))
  {
    HexBytesAreHex(b);
  }

  /** The route file is searched in order: lines of other routes are passed over. */
  lemma {:induction false} RouteGatewaySkips(skipped: seq<string>, rest: seq<string>)
    requires forall k :: 0 <= k < |skipped| ==> RouteLine(skipped[k]).Skip?
    ensures RouteGateway(skipped + rest) == RouteGateway(rest)
    decreases |skipped|
  {
    if skipped == [] {
      assert skipped + rest == rest;
    } else {
      assert (skipped + rest)[0] == skipped[0];
      assert (skipped + rest)[1..] == skipped[1..] + rest;
      RouteGatewaySkips(skipped[1..], rest);
    }
  }

  /** With no usable system answer, this host's address "a.b.c.d" gives gateway "a.b.c.1". */
  lemma FallbackIsDotOne(a: string, b: string, c: string, d: string)
    requires '.' !in a && '.' !in b && '.' !in c && '.' !in d
    ensures FallbackGateway(Some(a + "." + b + "." + c + "." + d)) == Some(a + "." + b + "." + c + ".1")
  {
    var ip := a + "." + b + "." + c + "." + d;
    JoinCons(c, [d], ".");
    assert [c] + [d] == [c, d];
    JoinCons(b, [c, d], ".");
    assert [b] + [c, d] == [b, c, d];
    JoinCons(a, [b, c, d], ".");
    assert [a] + [b, c, d] == [a, b, c, d];
    assert Join([a, b, c, d], ".") == ip;
    SplitOnJoin([a, b, c, d], '.');
  }

  // ---------------------------------------------------------------------
  // The whole ARP table

  /**
   * A dictionary filled in insertion order, as Python keeps it: assigning
   * an existing key replaces its value in place, a new key goes at the end.
   */
  type Entries = seq<(string, string)>

  predicate DistinctKeys(e: Entries) {
    forall i, j :: 0 <= i < j < |e| ==> e[i].0 != e[j].0
  }

  function Keys(e: Entries): set<string> {
    set i | 0 <= i < |e| :: e[i].0
  }

  lemma KeysCons(p: (string, string), e: Entries)
    ensures Keys([p] + e) == {p.0} + Keys(e)
    ensures DistinctKeys([p] + e) <==> p.0 !in Keys(e) && DistinctKeys(e)
  {
    var pe := [p] + e;
    assert forall i :: 1 <= i < |pe| ==> pe[i] == e[i - 1];
    forall x | x in Keys(pe) ensures x in {p.0} + Keys(e) {
      var i :| 0 <= i < |pe| && pe[i].0 == x;
      if i > 0 {
        assert e[i - 1].0 == x;
      }
    }
    forall x | x in Keys(e) ensures x in Keys(pe) {
      var i :| 0 <= i < |e| && e[i].0 == x;
      assert pe[i + 1].0 == x;
    }
    assert pe[0].0 == p.0;
    if p.0 in Keys(e) {
      var i :| 0 <= i < |e| && e[i].0 == p.0;
      assert pe[0].0 == pe[i + 1].0;
    }
    if DistinctKeys(pe) {
      forall i, j | 0 <= i < j < |e| ensures e[i].0 != e[j].0 {
        assert pe[i + 1] == e[i] && pe[j + 1] == e[j];
      }
    }
    if p.0 !in Keys(e) && DistinctKeys(e) {
      forall i, j | 0 <= i < j < |pe| ensures pe[i].0 != pe[j].0 {
        if i == 0 {
          assert pe[j].0 == e[j - 1].0;
          assert e[j - 1].0 in Keys(e);
        } else {
          assert pe[i] == e[i - 1] && pe[j] == e[j - 1];
        }
      }
    }
  }

  /** `entries[k] = v`. */
  function Put(e: Entries, k: string, v: string): (r: Entries)
    ensures Keys(r) == Keys(e) + {k}
    ensures DistinctKeys(e) ==> DistinctKeys(r)
    ensures k !in Keys(e) ==> r == e + [(k, v)]
    ensures k in Keys(e) ==> |r| == |e|
    ensures forall p :: p in r ==> p == (k, v) || p in e
    decreases |e|
  {
    if e == [] then
      assert [(k, v)][0].0 == k;
      [(k, v)]
    else
      assert e == [e[0]] + e[1..];
      KeysCons(e[0], e[1..]);
      if e[0].0 == k then
        KeysCons((k, v), e[1..]);
        [(k, v)] + e[1..]
      else
        var tail := Put(e[1..], k, v);
        KeysCons(e[0], tail);
        [e[0]] + tail
  }

  /** `entries.get(k)`. */
  function Get(e: Entries, k: string): Option<string>
    decreases |e|
  {
    if e == [] then None else if e[0].0 == k then Some(e[0].1) else Get(e[1..], k)
  }

  /** After `entries[k] = v`, `k` reads `v` and every other key reads what it did. */
  lemma {:induction false} GetPut(e: Entries, k: string, v: string, other: string)
    ensures Get(Put(e, k, v), k) == Some(v)
    ensures other != k ==> Get(Put(e, k, v), other) == Get(e, other)
    decreases |e|
  {
    if e != [] && e[0].0 != k {
      GetPut(e[1..], k, v, other);
      assert ([e[0]] + Put(e[1..], k, v))[1..] == Put(e[1..], k, v);
    }
  }

  /** The Linux table: the header skipped, every complete row bound, a later row for the same address winning. */
  function LinuxEntries(e: Entries, rows: seq<string>): Entries
    decreases |rows|
  {
    if rows == [] then e
    else
      var before := LinuxEntries(e, rows[..|rows| - 1]);
      var parts := Split(rows[|rows| - 1]);
      if |parts| >= 4 && parts[3] != SystemArp.ZERO_MAC then Put(before, parts[0], Upper(parts[3])) else before
  }

  /**
   * One part of a dotted quad as `inet_aton` reads it: one to three digits
   * with value at most 255, where a part of two or more digits with a
   * leading '0' is octal and so admits no '8' or '9'.
   */
  predicate InetPart(p: string) {
    && 1 <= |p| <= 3 && AllDigits(p) && DigitsValue(p) <= 255
    && (|p| >= 2 && p[0] == '0' ==> '8' !in p && '9' !in p)
  }

  /** Python's `socket.inet_aton` on a dotted quad: four parts, each read as `InetPart` says. */
  predicate IsDottedQuad(s: string) {
    var parts := SplitOn(s, ".");
    |parts| == 4 && forall k :: 0 <= k < 4 ==> InetPart(parts[k])
  }

  /** `inet_aton` rejects a last part such as "08", so "a.b.c.08" is not a valid address. */
  lemma OctalPartRejected(a: string, b: string, c: string, d: string)
    requires '.' !in a && '.' !in b && '.' !in c && '.' !in d
    requires |d| >= 2 && d[0] == '0' && ('8' in d || '9' in d)
    ensures !IsDottedQuad(Join([a, b, c, d], "."))
  {
    SplitOnJoin([a, b, c, d], '.');
    assert SplitOn(Join([a, b, c, d], "."), ".")[3] == d;
  }

  /** What token `i` of an `arp -a` line adds: an address with three dots, valid, followed by a 17-character dashed address. */
  function WindowsToken(e: Entries, parts: seq<string>, i: nat): Entries
    requires i < |parts|
  {
    var part := parts[i];
    if CountChar(part, '.') == 3 && IsDottedQuad(part) && i + 1 < |parts| && SystemArp.IsDashMac(parts[i + 1]) then
      Put(e, part, SystemArp.ColonMac(parts[i + 1]))
    else e
  }

  /** The tokens `parts[..n]` of one line, read in order. */
  function WindowsTokens(e: Entries, parts: seq<string>, n: nat): Entries
    requires n <= |parts|
    decreases n
  {
    if n == 0 then e else WindowsToken(WindowsTokens(e, parts, n - 1), parts, n - 1)
  }

  /** One `arp -a` line: lines of fewer than two tokens are passed over. */
  function WindowsLine(e: Entries, line: string): Entries {
    var parts := Split(line);
    if |parts| >= 2 then WindowsTokens(e, parts, |parts|) else e
  }

  function WindowsEntries(e: Entries, lines: seq<string>): Entries
    decreases |lines|
  {
    if lines == [] then e else WindowsLine(WindowsEntries(e, lines[..|lines| - 1]), lines[|lines| - 1])
  }

  /** `_read_arp_cache`: empty when the table could not be read (or, on Linux, has not even a header). */
  function ArpCache(platform: SystemArp.Platform, output: Option<seq<string>>): Entries {
    match output
    case None => []
    case Some(lines) =>
      if platform == SystemArp.Windows then WindowsEntries([], lines)
      else if lines == [] then []
      else LinuxEntries([], lines[1..])
  }

  /** One `arp -a` line as the source reads it: token by token, filling the dictionary. */
  method ReadWindowsLine(e: Entries, line: string) returns (entries: Entries)
    ensures entries == WindowsLine(e, line)
  {
    entries := e;
    var parts := Split(line);
    if |parts| < 2 {
      return;
    }
    var j := 0;
    while j < |parts|
      invariant 0 <= j <= |parts|
      invariant entries == WindowsTokens(e, parts, j)
    {
      var part := parts[j];
      if CountChar(part, '.') == 3 && IsDottedQuad(part) && j + 1 < |parts| {
        var macPart := parts[j + 1];
        if SystemArp.IsDashMac(macPart) {
          entries := Put(entries, part, SystemArp.ColonMac(macPart));
        }
      }
      j := j + 1;
    }
  }

  /** The `arp -a` output, line by line. */
  method ReadWindowsTable(lines: seq<string>) returns (entries: Entries)
    ensures entries == WindowsEntries([], lines)
  {
    entries := [];
    var i := 0;
    while i < |lines|
      invariant 0 <= i <= |lines|
      invariant entries == WindowsEntries([], lines[..i])
    {
      assert lines[..i + 1][..i] == lines[..i];
      entries := ReadWindowsLine(entries, lines[i]);
      i := i + 1;
    }
    assert lines[..|lines|] == lines;
  }

  /** The rows of `/proc/net/arp` after its header, one by one. */
  method ReadLinuxTable(rows: seq<string>) returns (entries: Entries)
    ensures entries == LinuxEntries([], rows)
  {
    entries := [];
    var i := 0;
    while i < |rows|
      invariant 0 <= i <= |rows|
      invariant entries == LinuxEntries([], rows[..i])
    {
      assert rows[..i + 1][..i] == rows[..i];
      var parts := Split(rows[i]);
      if |parts| >= 4 {
        var ip := parts[0];
        var mac := parts[3];
        if mac != SystemArp.ZERO_MAC {
          entries := Put(entries, ip, Upper(mac));
        }
      }
      i := i + 1;
    }
    assert rows[..|rows|] == rows;
  }

  /** `_read_arp_cache` as the source runs it: empty without output, else the platform's table. */
  method ReadArpCache(platform: SystemArp.Platform, output: Option<seq<string>>) returns (entries: Entries)
    ensures entries == ArpCache(platform, output)
  {
    entries := [];
    if output.None? {
      return;
    }
    var lines := output.value;
    if platform == SystemArp.Windows {
      entries := ReadWindowsTable(lines);
    } else if |lines| > 0 {
      entries := ReadLinuxTable(lines[1..]);
    }
  }

  /** The table never binds an address twice. */
  lemma {:induction false} LinuxEntriesDistinct(e: Entries, rows: seq<string>)
    requires DistinctKeys(e)
    ensures DistinctKeys(LinuxEntries(e, rows))
    decreases |rows|
  {
    if rows != [] {
      LinuxEntriesDistinct(e, rows[..|rows| - 1]);
    }
  }

  lemma {:induction false} WindowsTokensDistinct(e: Entries, parts: seq<string>, n: nat)
    requires n <= |parts| && DistinctKeys(e)
    ensures DistinctKeys(WindowsTokens(e, parts, n))
    decreases n
  {
    if n > 0 {
      WindowsTokensDistinct(e, parts, n - 1);
    }
  }

  lemma {:induction false} WindowsEntriesDistinct(e: Entries, lines: seq<string>)
    requires DistinctKeys(e)
    ensures DistinctKeys(WindowsEntries(e, lines))
    decreases |lines|
  {
    if lines != [] {
      WindowsEntriesDistinct(e, lines[..|lines| - 1]);
      var parts := Split(lines[|lines| - 1]);
      if |parts| >= 2 {
        WindowsTokensDistinct(WindowsEntries(e, lines[..|lines| - 1]), parts, |parts|);
      }
    }
  }

  lemma ArpCacheDistinct(platform: SystemArp.Platform, output: Option<seq<string>>)
    ensures DistinctKeys(ArpCache(platform, output))
  {
    if output.Some? {
      if platform == SystemArp.Windows {
        WindowsEntriesDistinct([], output.value);
      } else if output.value != [] {
        LinuxEntriesDistinct([], output.value[1..]);
      }
    }
  }

  /**
   * Every Linux binding comes from a complete row of the file: an address
   * in field 0, a non-zero hardware address in field 3 (upper-cased).
   */
  lemma {:induction false} LinuxEntriesFromRows(rows: seq<string>)
    ensures forall p :: p in LinuxEntries([], rows) ==> exists r :: 0 <= r < |rows| && LinuxBinds(rows[r], p)
    decreases |rows|
  {
    if rows != [] {
      var init := rows[..|rows| - 1];
      LinuxEntriesFromRows(init);
      forall p | p in LinuxEntries([], rows) ensures exists r :: 0 <= r < |rows| && LinuxBinds(rows[r], p) {
        if p in LinuxEntries([], init) {
          var r :| 0 <= r < |init| && LinuxBinds(init[r], p);
          assert rows[r] == init[r];
        } else {
          assert LinuxBinds(rows[|rows| - 1], p);
        }
      }
    }
  }

  /** A row of `/proc/net/arp` binds `p.0` to `p.1`. */
  predicate LinuxBinds(row: string, p: (string, string)) {
    var parts := Split(row);
    |parts| >= 4 && parts[3] != SystemArp.ZERO_MAC && p == (parts[0], Upper(parts[3]))
  }

  /** Row `row` of `/proc/net/arp` is a complete row for `ip` with a non-zero hardware address. */
  predicate LinuxRowFor(row: string, ip: string) {
    var parts := Split(row);
    |parts| >= 4 && parts[3] != SystemArp.ZERO_MAC && parts[0] == ip
  }

  /**
   * Every complete row is bound: the address of the last complete row for it
   * reads that row's hardware address, upper-cased.
   */
  lemma {:induction false} LinuxEntriesLastWins(e: Entries, rows: seq<string>, ip: string, r: nat)
    requires r < |rows| && LinuxRowFor(rows[r], ip)
    requires forall s :: r < s < |rows| ==> !LinuxRowFor(rows[s], ip)
    ensures Get(LinuxEntries(e, rows), ip) == Some(Upper(Split(rows[r])[3]))
    decreases |rows|
  {
    var init := rows[..|rows| - 1];
    LinuxEntriesLast(e, rows, ip);
    if r < |rows| - 1 {
      forall s | r < s < |init| ensures !LinuxRowFor(init[s], ip) {
        assert init[s] == rows[s];
      }
      assert init[r] == rows[r];
      LinuxEntriesLastWins(e, init, ip, r);
    }
  }

  /** An address no complete row names reads what it read before. */
  lemma {:induction false} LinuxEntriesUntouched(e: Entries, rows: seq<string>, ip: string)
    requires forall r :: 0 <= r < |rows| ==> !LinuxRowFor(rows[r], ip)
    ensures Get(LinuxEntries(e, rows), ip) == Get(e, ip)
    decreases |rows|
  {
    if rows != [] {
      var init := rows[..|rows| - 1];
      forall r | 0 <= r < |init| ensures !LinuxRowFor(init[r], ip) {
        assert init[r] == rows[r];
      }
      LinuxEntriesUntouched(e, init, ip);
      LinuxEntriesLast(e, rows, ip);
    }
  }

  /** What the last row does to the entry of `ip`. */
  lemma LinuxEntriesLast(e: Entries, rows: seq<string>, ip: string)
    requires rows != []
    ensures var last := rows[|rows| - 1];
            Get(LinuxEntries(e, rows), ip)
            == if LinuxRowFor(last, ip) then Some(Upper(Split(last)[3])) else Get(LinuxEntries(e, rows[..|rows| - 1]), ip)
  {
    var parts := Split(rows[|rows| - 1]);
    var before := LinuxEntries(e, rows[..|rows| - 1]);
    if |parts| >= 4 && parts[3] != SystemArp.ZERO_MAC {
      GetPut(before, parts[0], Upper(parts[3]), ip);
    }
  }

  /** Token `i` of an `arp -a` line is a valid address `ip` followed by a 17-character dashed hardware address. */
  predicate WindowsTokenFor(parts: seq<string>, i: nat, ip: string) {
    && i + 1 < |parts| && parts[i] == ip
    && CountChar(ip, '.') == 3 && IsDottedQuad(ip) && SystemArp.IsDashMac(parts[i + 1])
  }

  /** Some token of `line` binds `ip`. */
  predicate WindowsLineBinds(line: string, ip: string) {
    exists i :: 0 <= i < |Split(line)| && WindowsTokenFor(Split(line), i, ip)
  }

  /** What token `n - 1` does to the entry of `ip`. */
  lemma WindowsTokensLast(e: Entries, parts: seq<string>, n: nat, ip: string)
    requires 0 < n <= |parts|
    ensures Get(WindowsTokens(e, parts, n), ip)
            == if WindowsTokenFor(parts, n - 1, ip) then Some(SystemArp.ColonMac(parts[n])) else Get(WindowsTokens(e, parts, n - 1), ip)
  {
    var part := parts[n - 1];
    if CountChar(part, '.') == 3 && IsDottedQuad(part) && n < |parts| && SystemArp.IsDashMac(parts[n]) {
      GetPut(WindowsTokens(e, parts, n - 1), part, SystemArp.ColonMac(parts[n]), ip);
    }
  }

  /** Within a line, the last token binding `ip` decides its hardware address. */
  lemma {:induction false} WindowsTokensLastWins(e: Entries, parts: seq<string>, n: nat, ip: string, i: nat)
    requires i < n <= |parts| && WindowsTokenFor(parts, i, ip)
    requires forall j :: i < j < n ==> !WindowsTokenFor(parts, j, ip)
    ensures Get(WindowsTokens(e, parts, n), ip) == Some(SystemArp.ColonMac(parts[i + 1]))
    decreases n
  {
    WindowsTokensLast(e, parts, n, ip);
    if i < n - 1 {
      WindowsTokensLastWins(e, parts, n - 1, ip, i);
    }
  }

  /** Tokens that bind other addresses leave `ip` as it was. */
  lemma {:induction false} WindowsTokensUntouched(e: Entries, parts: seq<string>, n: nat, ip: string)
    requires n <= |parts|
    requires forall j :: 0 <= j < n ==> !WindowsTokenFor(parts, j, ip)
    ensures Get(WindowsTokens(e, parts, n), ip) == Get(e, ip)
    decreases n
  {
    if n > 0 {
      WindowsTokensUntouched(e, parts, n - 1, ip);
      WindowsTokensLast(e, parts, n, ip);
    }
  }

  /** A line none of whose tokens binds `ip` leaves it as it was. */
  lemma WindowsLineUntouched(e: Entries, line: string, ip: string)
    requires !WindowsLineBinds(line, ip)
    ensures Get(WindowsLine(e, line), ip) == Get(e, ip)
  {
    var parts := Split(line);
    if |parts| >= 2 {
      WindowsTokensUntouched(e, parts, |parts|, ip);
    }
  }

  /**
   * Every valid address followed by a dashed hardware address is bound: the
   * last such token, on the last line that has one, decides the colon form,
   * upper-cased.
   */
  lemma {:induction false} WindowsEntriesLastWins(e: Entries, lines: seq<string>, ip: string, l: nat, i: nat)
    requires l < |lines| && WindowsTokenFor(Split(lines[l]), i, ip)
    requires forall j :: i < j < |Split(lines[l])| ==> !WindowsTokenFor(Split(lines[l]), j, ip)
    requires forall m :: l < m < |lines| ==> !WindowsLineBinds(lines[m], ip)
    ensures Get(WindowsEntries(e, lines), ip) == Some(SystemArp.ColonMac(Split(lines[l])[i + 1]))
    decreases |lines|
  {
    var init := lines[..|lines| - 1];
    var before := WindowsEntries(e, init);
    if l == |lines| - 1 {
      var parts := Split(lines[l]);
      WindowsTokensLastWins(before, parts, |parts|, ip, i);
    } else {
      assert init[l] == lines[l];
      forall m | l < m < |init| ensures !WindowsLineBinds(init[m], ip) {
        assert init[m] == lines[m];
      }
      WindowsEntriesLastWins(e, init, ip, l, i);
      WindowsLineUntouched(before, lines[|lines| - 1], ip);
    }
  }

  /** An address no line binds reads what it read before. */
  lemma {:induction false} WindowsEntriesUntouched(e: Entries, lines: seq<string>, ip: string)
    requires forall m :: 0 <= m < |lines| ==> !WindowsLineBinds(lines[m], ip)
    ensures Get(WindowsEntries(e, lines), ip) == Get(e, ip)
    decreases |lines|
  {
    if lines != [] {
      var init := lines[..|lines| - 1];
      forall m | 0 <= m < |init| ensures !WindowsLineBinds(init[m], ip) {
        assert init[m] == lines[m];
      }
      WindowsEntriesUntouched(e, init, ip);
      WindowsLineUntouched(WindowsEntries(e, init), lines[|lines| - 1], ip);
    }
  }

  // ---------------------------------------------------------------------
  // scan_network's listing

  /** One listed device: `{"ip", "mac", "note"}`. */
  datatype Listed = Listed(ip: string, mac: string, note: string)

  const GATEWAY_NOTE := " [GATEWAY]"
  const YOU_NOTE := " [YOU]"
  const BLOCKED_NOTE := " [BLOCKED]"

  /** The note: gateway first, then this host, then an active block. */
  function Note(ip: string, gatewayIp: string, myIp: string, t: BlockTable.Table): (r: string)
    ensures r == GATEWAY_NOTE <==> ip == gatewayIp
    ensures r == YOU_NOTE <==> ip != gatewayIp && ip == myIp
    ensures r == BLOCKED_NOTE <==> ip != gatewayIp && ip != myIp && BlockTable.IsActive(t, ip)
    ensures r == "" <==> ip != gatewayIp && ip != myIp && !BlockTable.IsActive(t, ip)
  {
    if ip == gatewayIp then GATEWAY_NOTE
    else if ip == myIp then YOU_NOTE
    else if BlockTable.IsActive(t, ip) then BLOCKED_NOTE
    else ""
  }

  /** The "a.b.c" prefix of this host's address; `None` where an address of fewer than three parts makes `scan_network` raise. */
  function SubnetPrefix(myIp: string): Option<string> {
    var parts := SplitOn(myIp, ".");
    if |parts| < 3 then None else Some(parts[0] + "." + parts[1] + "." + parts[2])
  }

  /** The filter as the source writes it: `ip.startswith(prefix)`. */
  predicate InSubnetAsWritten(ip: string, prefix: string) {
    StartsWith(ip, prefix)
  }

  /** The as-written filter lets in an address of another /24: "192.168.10.5" passes for the prefix "192.168.1". */
  lemma SubnetFilterAdmitsNeighbour()
    ensures InSubnetAsWritten("192.168.10.5", "192.168.1")
    ensures !InSubnet("192.168.10.5", "192.168.1")
  {
    assert "192.168.10.5"[..9] == "192.168.1";
    assert "192.168.10.5"[..10][9] == '0' && ("192.168.1" + ".")[9] == '.';
  }

  /** The filter as intended: the address's first three parts are the prefix, that is, it starts with the prefix and a '.'. */
  predicate InSubnet(ip: string, prefix: string) {
    StartsWith(ip, prefix + ".")
  }

  /** A string agrees with each of its prefixes position by position. */
  lemma SameAt(s: string, p: string, i: nat)
    requires StartsWith(s, p) && i < |p|
    ensures s[i] == p[i]
  {
    assert s[i] == s[..|p|][i];
  }

  /** Comparing dot-led strings: unequal heads without a '.' never share the prefix. */
  lemma {:induction false} DotPrefix(x: string, r: string, y: string, r2: string)
    requires '.' !in x && '.' !in y
    ensures StartsWith(x + "." + r, y + "." + r2) ==> x == y && StartsWith(r, r2)
    ensures x == y && StartsWith(r, r2) ==> StartsWith(x + "." + r, y + "." + r2)
  {
    var s := x + "." + r;
    var p := y + "." + r2;
    if StartsWith(s, p) {
      if |x| < |y| {
        SameAt(s, p, |x|);
        assert false;
      } else if |y| < |x| {
        SameAt(s, p, |y|);
        assert false;
      } else {
        assert x == s[..|p|][..|x|] == p[..|x|] == y;
        assert r[..|r2|] == s[..|p|][|x| + 1..];
      }
    }
    if x == y && StartsWith(r, r2) {
      var h := x + ".";
      assert s == h + r && p == h + r2;
      assert s[..|p|] == h + r[..|r2|];
    }
  }

  /**
   * The intended filter keeps "a.b.c.d" exactly when a, b and c are the
   * three parts of the prefix.
   */
  lemma InSubnetIff(a: string, b: string, c: string, d: string, p0: string, p1: string, p2: string)
    requires '.' !in a && '.' !in b && '.' !in c && '.' !in p0 && '.' !in p1 && '.' !in p2
    ensures InSubnet(a + "." + b + "." + c + "." + d, p0 + "." + p1 + "." + p2) <==> a == p0 && b == p1 && c == p2
  {
    var ip := a + "." + b + "." + c + "." + d;
    assert ip == a + "." + (b + "." + c + "." + d);
    assert p0 + "." + p1 + "." + p2 + "." == p0 + "." + (p1 + "." + p2 + ".");
    DotPrefix(a, b + "." + c + "." + d, p0, p1 + "." + p2 + ".");
    assert b + "." + c + "." + d == b + "." + (c + "." + d);
    assert p1 + "." + p2 + "." == p1 + "." + (p2 + ".");
    DotPrefix(b, c + "." + d, p1, p2 + ".");
    DotPrefix(c, d, p2, "");
    assert StartsWith(d, "");
  }

  /** Python's `int(p) for p in ip.split(".")`; `None` where a part is not an integer and the sort raises. */
  function AddressKey(ip: string): Option<seq<int>> {
    IntParts(SplitOn(ip, "."))
  }

  function IntParts(parts: seq<string>): (r: Option<seq<int>>)
    ensures r.Some? ==> |r.value| == |parts|
    decreases |parts|
  {
    if parts == [] then Some([])
    else match (ParseInt(parts[0]), IntParts(parts[1..]))
      case (Some(n), Some(rest)) => Some([n] + rest)
      case _ => None
  }

  /** Python's `<` on lists of integers. */
  predicate KeyLt(a: seq<int>, b: seq<int>)
    decreases |a|
  {
    if a == [] then b != []
    else if b == [] then false
    else if a[0] != b[0] then a[0] < b[0]
    else KeyLt(a[1..], b[1..])
  }

  predicate KeyLe(a: seq<int>, b: seq<int>) {
    a == b || KeyLt(a, b)
  }

  lemma {:induction false} KeyLtTransitive(a: seq<int>, b: seq<int>, c: seq<int>)
    requires KeyLt(a, b) && KeyLt(b, c)
    ensures KeyLt(a, c)
    decreases |a|
  {
    if a != [] && b != [] && c != [] && a[0] == b[0] && b[0] == c[0] {
      KeyLtTransitive(a[1..], b[1..], c[1..]);
    }
  }

  lemma {:induction false} KeyLtTotal(a: seq<int>, b: seq<int>)
    ensures a == b || KeyLt(a, b) || KeyLt(b, a)
    ensures !(KeyLt(a, b) && KeyLt(b, a))
    decreases |a|
  {
    if a != [] && b != [] && a[0] == b[0] {
      KeyLtTotal(a[1..], b[1..]);
      if a[1..] == b[1..] {
        assert a == [a[0]] + a[1..] && b == [b[0]] + b[1..];
      }
    }
  }

  lemma {:induction false} KeyLtIrreflexive(a: seq<int>)
    ensures !KeyLt(a, a)
    decreases |a|
  {
    if a != [] {
      KeyLtIrreflexive(a[1..]);
    }
  }

  lemma KeyLeTransitive(a: seq<int>, b: seq<int>, c: seq<int>)
    requires KeyLe(a, b) && KeyLe(b, c)
    ensures KeyLe(a, c)
  {
    if a != b && b != c {
      KeyLtTransitive(a, b, c);
    }
  }

  /** Every address of the listing has an integer key, so the sort does not raise. */
  predicate Keyed(ds: seq<Listed>) {
    forall i :: 0 <= i < |ds| ==> AddressKey(ds[i].ip).Some?
  }

  /** The sort key of a device; only consulted for a keyed listing. */
  function Key(d: Listed): seq<int> {
    AddressKey(d.ip).GetOr([])
  }

  predicate SortedByAddress(ds: seq<Listed>) {
    forall i, j :: 0 <= i < j < |ds| ==> KeyLe(Key(ds[i]), Key(ds[j]))
  }

  /** A device paired with its sort key: `list.sort(key=...)` computes each key once. */
  type Decorated = (seq<int>, Listed)

  function Decorate(ds: seq<Listed>): (r: seq<Decorated>)
    ensures |r| == |ds|
    ensures forall i :: 0 <= i < |r| ==> r[i].0 == Key(r[i].1)
    decreases |ds|
  {
    if ds == [] then [] else Decorate(ds[..|ds| - 1]) + [(Key(ds[|ds| - 1]), ds[|ds| - 1])]
  }

  function Undecorate(ps: seq<Decorated>): (r: seq<Listed>)
    ensures |r| == |ps|
    ensures forall i :: 0 <= i < |ps| ==> r[i] == ps[i].1
  {
    seq(|ps|, i requires 0 <= i < |ps| => ps[i].1)
  }

  predicate SortedPairs(ps: seq<Decorated>) {
    forall i, j :: 0 <= i < j < |ps| ==> KeyLe(ps[i].0, ps[j].0)
  }

  /** Inserting after every pair whose key is not above `p`'s, which keeps equal keys in arrival order. */
  function Insert(p: Decorated, sorted: seq<Decorated>): (r: seq<Decorated>)
    ensures multiset(r) == multiset(sorted) + multiset{p}
    decreases |sorted|
  {
    if sorted == [] then [p]
    else if KeyLt(p.0, sorted[0].0) then [p] + sorted
    else
      var rest := Insert(p, sorted[1..]);
      assert sorted == [sorted[0]] + sorted[1..];
      [sorted[0]] + rest
  }

  /** The stable sort of the decorated list, written as insertion in list order. */
  function SortPairs(ps: seq<Decorated>): (r: seq<Decorated>)
    ensures multiset(r) == multiset(ps)
    decreases |ps|
  {
    if ps == [] then []
    else
      var init := ps[..|ps| - 1];
      assert ps == init + [ps[|ps| - 1]];
      Insert(ps[|ps| - 1], SortPairs(init))
  }

  /** `list.sort(key=...)` on the listing: decorate, sort stably, undecorate. */
  function SortByAddress(ds: seq<Listed>): seq<Listed> {
    Undecorate(SortPairs(Decorate(ds)))
  }

  /** A pair whose key is below the first of a sorted list can go in front of it. */
  lemma InsertFront(p: Decorated, sorted: seq<Decorated>)
    requires SortedPairs(sorted)
    requires sorted != [] && KeyLt(p.0, sorted[0].0)
    ensures SortedPairs([p] + sorted)
  {
    var r := [p] + sorted;
    forall i, j | 0 <= i < j < |r| ensures KeyLe(r[i].0, r[j].0) {
      if i == 0 {
        assert r[j] == sorted[j - 1];
        KeyLeTransitive(p.0, sorted[0].0, sorted[j - 1].0);
      } else {
        assert r[i] == sorted[i - 1] && r[j] == sorted[j - 1];
      }
    }
  }

  /** A pair whose key is at most every key of a sorted list can go in front of it. */
  lemma InsertBehind(h: Decorated, rest: seq<Decorated>)
    requires SortedPairs(rest)
    requires forall k :: 0 <= k < |rest| ==> KeyLe(h.0, rest[k].0)
    ensures SortedPairs([h] + rest)
  {
    var r := [h] + rest;
    forall i, j | 0 <= i < j < |r| ensures KeyLe(r[i].0, r[j].0) {
      assert r[j] == rest[j - 1];
      if i > 0 {
        assert r[i] == rest[i - 1];
      }
    }
  }

  /** Inserting into a sorted list keeps it sorted. */
  lemma {:induction false} InsertSorted(p: Decorated, sorted: seq<Decorated>)
    requires SortedPairs(sorted)
    ensures SortedPairs(Insert(p, sorted))
    decreases |sorted|
  {
    if sorted != [] {
      if KeyLt(p.0, sorted[0].0) {
        InsertFront(p, sorted);
      } else {
        KeyLtTotal(p.0, sorted[0].0);
        var tail := sorted[1..];
        assert SortedPairs(tail) by {
          forall i, j | 0 <= i < j < |tail| ensures KeyLe(tail[i].0, tail[j].0) {
            assert tail[i] == sorted[i + 1] && tail[j] == sorted[j + 1];
          }
        }
        var rest := Insert(p, tail);
        InsertSorted(p, tail);
        forall k | 0 <= k < |rest| ensures KeyLe(sorted[0].0, rest[k].0) {
          var x := rest[k];
          assert x in multiset(rest);
          if x != p {
            assert x in multiset(tail);
            var k :| 0 <= k < |tail| && tail[k] == x;
            assert sorted[k + 1] == x;
          }
        }
        InsertBehind(sorted[0], rest);
      }
    }
  }

  lemma {:induction false} SortPairsSorted(ps: seq<Decorated>)
    ensures SortedPairs(SortPairs(ps))
    decreases |ps|
  {
    if ps != [] {
      var init := ps[..|ps| - 1];
      SortPairsSorted(init);
      InsertSorted(ps[|ps| - 1], SortPairs(init));
    }
  }

  lemma UndecorateCons(p: Decorated, ps: seq<Decorated>)
    ensures Undecorate([p] + ps) == [p.1] + Undecorate(ps)
  {
    var a := Undecorate([p] + ps);
    var b := [p.1] + Undecorate(ps);
    forall i | 0 <= i < |a| ensures a[i] == b[i] {
      if i > 0 {
        assert ([p] + ps)[i] == ps[i - 1];
      }
    }
  }

  /** Undecorating the insertion adds the inserted device and nothing else. */
  lemma {:induction false} UndecorateInsert(p: Decorated, sorted: seq<Decorated>)
    ensures multiset(Undecorate(Insert(p, sorted))) == multiset(Undecorate(sorted)) + multiset{p.1}
    decreases |sorted|
  {
    if sorted == [] {
      assert Undecorate([p]) == [p.1];
    } else {
      assert sorted == [sorted[0]] + sorted[1..];
      UndecorateCons(sorted[0], sorted[1..]);
      if KeyLt(p.0, sorted[0].0) {
        UndecorateCons(p, sorted);
      } else {
        var rest := Insert(p, sorted[1..]);
        UndecorateInsert(p, sorted[1..]);
        UndecorateCons(sorted[0], rest);
      }
    }
  }

  lemma UndecorateSnoc(ps: seq<Decorated>, p: Decorated)
    ensures Undecorate(ps + [p]) == Undecorate(ps) + [p.1]
  {
    var a := Undecorate(ps + [p]);
    var b := Undecorate(ps) + [p.1];
    forall i | 0 <= i < |a| ensures a[i] == b[i] {
      if i < |ps| {
        assert (ps + [p])[i] == ps[i];
      }
    }
  }

  /** Sorting the pairs keeps the devices they carry. */
  lemma {:induction false} UndecorateSortPairs(ps: seq<Decorated>)
    ensures multiset(Undecorate(SortPairs(ps))) == multiset(Undecorate(ps))
    decreases |ps|
  {
    if ps != [] {
      var init := ps[..|ps| - 1];
      var p := ps[|ps| - 1];
      assert ps == init + [p];
      assert SortPairs(ps) == Insert(p, SortPairs(init));
      UndecorateSortPairs(init);
      UndecorateInsert(p, SortPairs(init));
      UndecorateSnoc(init, p);
      calc {
        multiset(Undecorate(SortPairs(ps)));
        multiset(Undecorate(SortPairs(init))) + multiset{p.1};
        multiset(Undecorate(init)) + multiset{p.1};
        multiset(Undecorate(init) + [p.1]);
      }
    }
  }

  lemma {:induction false} UndecorateDecorate(ds: seq<Listed>)
    ensures Undecorate(Decorate(ds)) == ds
    decreases |ds|
  {
    if ds != [] {
      var init := ds[..|ds| - 1];
      var d := ds[|ds| - 1];
      assert ds == init + [d];
      assert Decorate(ds) == Decorate(init) + [(Key(d), d)];
      UndecorateDecorate(init);
      UndecorateSnoc(Decorate(init), (Key(d), d));
    }
  }

  /** The sorted listing is ordered by the numeric address key and holds exactly the listed devices. */
  lemma SortByAddressSorted(ds: seq<Listed>)
    ensures SortedByAddress(SortByAddress(ds))
    ensures multiset(SortByAddress(ds)) == multiset(ds)
  {
    var ps := SortPairs(Decorate(ds));
    SortPairsSorted(Decorate(ds));
    UndecorateSortPairs(Decorate(ds));
    UndecorateDecorate(ds);
    forall i | 0 <= i < |ps| ensures ps[i].0 == Key(ps[i].1) {
      assert ps[i] in multiset(Decorate(ds));
    }
  }

  /** The devices of the table that `ip.startswith(prefix)` keeps, in table order, each with its note. */
  function Listing(e: Entries, prefix: string, gatewayIp: string, myIp: string, t: BlockTable.Table): (r: seq<Listed>)
    ensures forall i :: 0 <= i < |r| ==> InSubnetAsWritten(r[i].ip, prefix)
    decreases |e|
  {
    if e == [] then []
    else
      var rest := Listing(e[1..], prefix, gatewayIp, myIp, t);
      if InSubnetAsWritten(e[0].0, prefix) then [Listed(e[0].0, e[0].1, Note(e[0].0, gatewayIp, myIp, t))] + rest else rest
  }

  /** A table entry is listed exactly when it passes `ip.startswith(prefix)`, with its own address and note. */
  lemma {:induction false} ListingMembers(e: Entries, prefix: string, gatewayIp: string, myIp: string, t: BlockTable.Table)
    ensures forall d :: d in Listing(e, prefix, gatewayIp, myIp, t) <==>
              exists i :: 0 <= i < |e| && InSubnetAsWritten(e[i].0, prefix) && d == Listed(e[i].0, e[i].1, Note(e[i].0, gatewayIp, myIp, t))
    decreases |e|
  {
    if e != [] {
      ListingMembers(e[1..], prefix, gatewayIp, myIp, t);
      forall d ensures d in Listing(e, prefix, gatewayIp, myIp, t) <==>
              exists i :: 0 <= i < |e| && InSubnetAsWritten(e[i].0, prefix) && d == Listed(e[i].0, e[i].1, Note(e[i].0, gatewayIp, myIp, t))
      {
        if exists i :: 0 <= i < |e| && InSubnetAsWritten(e[i].0, prefix) && d == Listed(e[i].0, e[i].1, Note(e[i].0, gatewayIp, myIp, t)) {
          var i :| 0 <= i < |e| && InSubnetAsWritten(e[i].0, prefix) && d == Listed(e[i].0, e[i].1, Note(e[i].0, gatewayIp, myIp, t));
          if i > 0 {
            assert e[1..][i - 1] == e[i];
          }
        }
        if d in Listing(e[1..], prefix, gatewayIp, myIp, t) {
          var i :| 0 <= i < |e[1..]| && InSubnetAsWritten(e[1..][i].0, prefix)
                   && d == Listed(e[1..][i].0, e[1..][i].1, Note(e[1..][i].0, gatewayIp, myIp, t));
          assert e[1..][i] == e[i + 1];
        }
      }
    }
  }

  /** The listing keeps a device of the neighbouring /24: "192.168.10.5" is listed under the prefix "192.168.1". */
  lemma ListingKeepsNeighbour(mac: string, gatewayIp: string, myIp: string, t: BlockTable.Table)
    ensures Listing([("192.168.10.5", mac)], "192.168.1", gatewayIp, myIp, t)
            == [Listed("192.168.10.5", mac, Note("192.168.10.5", gatewayIp, myIp, t))]
  {
  }

  /** An address that passes the intended filter passes the written one. */
  lemma InSubnetIsAsWritten(ip: string, prefix: string)
    requires InSubnet(ip, prefix)
    ensures InSubnetAsWritten(ip, prefix)
  {
  }

  /** The devices of a listing whose address passes the intended filter, in order. */
  function KeepSubnet(ds: seq<Listed>, prefix: string): (r: seq<Listed>)
    ensures |r| <= |ds|
    ensures forall d :: d in r <==> d in ds && InSubnet(d.ip, prefix)
    decreases |ds|
  {
    if ds == [] then []
    else
      var rest := KeepSubnet(ds[1..], prefix);
      if InSubnet(ds[0].ip, prefix) then [ds[0]] + rest else rest
  }

  /** The listing under the intended filter: the written listing without the devices of other subnets. */
  function IntendedListing(e: Entries, prefix: string, gatewayIp: string, myIp: string, t: BlockTable.Table): seq<Listed> {
    KeepSubnet(Listing(e, prefix, gatewayIp, myIp, t), prefix)
  }

  /** Under the intended filter a table entry is listed exactly when its address is in the prefix's /24. */
  lemma IntendedListingMembers(e: Entries, prefix: string, gatewayIp: string, myIp: string, t: BlockTable.Table)
    ensures forall d :: d in IntendedListing(e, prefix, gatewayIp, myIp, t) <==>
              exists i :: 0 <= i < |e| && InSubnet(e[i].0, prefix) && d == Listed(e[i].0, e[i].1, Note(e[i].0, gatewayIp, myIp, t))
  {
    ListingMembers(e, prefix, gatewayIp, myIp, t);
    forall i | 0 <= i < |e| && InSubnet(e[i].0, prefix) ensures InSubnetAsWritten(e[i].0, prefix) {
      InSubnetIsAsWritten(e[i].0, prefix);
    }
  }

  /** The intended listing drops the neighbouring device that the written one keeps. */
  lemma IntendedListingDropsNeighbour(mac: string, gatewayIp: string, myIp: string, t: BlockTable.Table)
    ensures IntendedListing([("192.168.10.5", mac)], "192.168.1", gatewayIp, myIp, t) == []
  {
    ListingKeepsNeighbour(mac, gatewayIp, myIp, t);
    SubnetFilterAdmitsNeighbour();
    var ds := [Listed("192.168.10.5", mac, Note("192.168.10.5", gatewayIp, myIp, t))];
    assert ds[1..] == [];
  }

  /** What `scan_network` returns, and whether it replaces `cached_devices` with it. */
  datatype ScanOutcome = ScanOutcome(devices: seq<Listed>, updatesCache: bool)

  /**
   * `scan_network` after the sweep: nothing when the prefix cannot be
   * formed; otherwise the filtered, annotated table, sorted by address, or
   * left unsorted and not cached when some address has a non-integer part
   * (the sort raises before it reorders anything).
   */
  function ScanListing(myIp: string, gatewayIp: string, t: BlockTable.Table, e: Entries): ScanOutcome {
    match SubnetPrefix(myIp)
    case None => ScanOutcome([], false)
    case Some(prefix) =>
      var listed := Listing(e, prefix, gatewayIp, myIp, t);
      if Keyed(listed) then ScanOutcome(SortByAddress(listed), true) else ScanOutcome(listed, false)
  }

  /** A listing that reaches the cache is sorted by address and lists each kept table entry once per binding. */
  lemma ScanListingCached(myIp: string, gatewayIp: string, t: BlockTable.Table, e: Entries)
    requires ScanListing(myIp, gatewayIp, t, e).updatesCache
    ensures var prefix := SubnetPrefix(myIp).value;
            var r := ScanListing(myIp, gatewayIp, t, e).devices;
            Keyed(r) && SortedByAddress(r)
            && multiset(r) == multiset(Listing(e, prefix, gatewayIp, myIp, t))
            && forall d :: d in r ==> InSubnetAsWritten(d.ip, prefix)
  {
    var prefix := SubnetPrefix(myIp).value;
    var listed := Listing(e, prefix, gatewayIp, myIp, t);
    SortByAddressSorted(listed);
    var r := SortByAddress(listed);
    forall i | 0 <= i < |r| ensures InSubnetAsWritten(r[i].ip, prefix) && AddressKey(r[i].ip).Some? {
      assert r[i] in multiset(listed);
      var j :| 0 <= j < |listed| && listed[j] == r[i];
    }
  }

  // ---------------------------------------------------------------------
  // parse_device_numbers

  /** What one token contributes: its integer minus one, or nothing when it does not read as an integer. */
  function TokenIndex(part: string): (r: seq<int>)
    ensures |r| <= 1
    ensures r != [] <==> ParseInt(Strip(part)).Some?
  {
    match ParseInt(Strip(part))
    case Some(n) => [n - 1]
    case None => []
  }

  /** The zero-based indices of the tokens that read as integers, in order. */
  function DeviceNumbers(parts: seq<string>): (r: seq<int>)
    ensures |r| <= |parts|
    decreases |parts|
  {
    if parts == [] then []
    else DeviceNumbers(parts[..|parts| - 1]) + TokenIndex(parts[|parts| - 1])
  }

  lemma DeviceNumbersSnoc(parts: seq<string>, part: string)
    ensures DeviceNumbers(parts + [part]) == DeviceNumbers(parts) + TokenIndex(part)
  {
    assert (parts + [part])[..|parts|] == parts;
  }

  lemma DeviceNumbersPrefix(parts: seq<string>, i: nat)
    requires i < |parts|
    ensures DeviceNumbers(parts[..i + 1]) == DeviceNumbers(parts[..i]) + TokenIndex(parts[i])
  {
    assert parts[..i + 1][..i] == parts[..i];
  }

  /** The loop of `parse_device_numbers` over the tokens. */
  method IndicesOfTokens(parts: seq<string>) returns (indices: seq<int>)
    ensures indices == DeviceNumbers(parts)
  {
    indices := [];
    var i := 0;
    while i < |parts|
      invariant 0 <= i <= |parts|
      invariant indices == DeviceNumbers(parts[..i])
    {
      DeviceNumbersPrefix(parts, i);
      indices := indices + TokenIndex(parts[i]);
      i := i + 1;
    }
    assert parts[..|parts|] == parts;
  }

  /** `parse_device_numbers`: commas count as spaces, tokens that are not integers are dropped, each number n gives n - 1. */
  method ParseDeviceNumbers(input: string) returns (indices: seq<int>)
    ensures indices == DeviceNumbers(Split(Replace(input, ',', ' ')))
  {
    var parts := Split(Replace(input, ',', ' '));
    indices := IndicesOfTokens(parts);
  }

  /** The decimal renderings of the positive numbers `ns`, as a user types them. */
  function Rendered(ns: seq<nat>): (r: seq<string>)
    ensures |r| == |ns|
  {
    seq(|ns|, k requires 0 <= k < |ns| => NatToString(ns[k] + 1))
  }

  /** The rendering of a positive number n contributes the index n - 1. */
  lemma TokenIndexOfNatToString(n: nat)
    ensures TokenIndex(NatToString(n)) == [n - 1]
  {
    StripNoSpace(NatToString(n));
    ParseIntOfNatToString(n);
  }

  lemma RenderedSnoc(ns: seq<nat>, n: nat)
    ensures Rendered(ns + [n]) == Rendered(ns) + [NatToString(n + 1)]
  {
  }

  lemma {:induction false} DeviceNumbersOfRendered(ns: seq<nat>)
    ensures DeviceNumbers(Rendered(ns)) == ns
    decreases |ns|
  {
    if ns != [] {
      var init := ns[..|ns| - 1];
      var n := ns[|ns| - 1];
      assert ns == init + [n];
      RenderedSnoc(init, n);
      DeviceNumbersSnoc(Rendered(init), NatToString(n + 1));
      TokenIndexOfNatToString(n + 1);
      DeviceNumbersOfRendered(init);
    }
  }

  /**
   * Typing the device numbers separated by commas, or by spaces, gives back
   * their zero-based indices, in the order typed.
   */
  lemma ParseRendered(ns: seq<nat>)
    ensures DeviceNumbers(Split(Replace(Join(Rendered(ns), ","), ',', ' '))) == ns
    ensures DeviceNumbers(Split(Join(Rendered(ns), " "))) == ns
  {
    var tokens := Rendered(ns);
    forall k | 0 <= k < |tokens| ensures ',' !in tokens[k] && tokens[k] != [] && NoSpace(tokens[k]) {
      assert AllDigits(tokens[k]);
    }
    ReplaceJoin(tokens, ',', ' ');
    SplitJoin(tokens);
    DeviceNumbersOfRendered(ns);
  }
}
