/**
 * Discovery (wifi_scanner.py, class `NetworkScanner`): vendor lookup, the
 * self-MAC rendering, OUI line parsing, the /24 range and the ping-sweep
 * candidates, and the merge of the ARP-probe stage, the ping stage and the
 * system-cache fallback in `scan`. The probes themselves are inputs: the ARP
 * replies received, the set of addresses that answer a ping, and the text of
 * the system ARP table for each address.
 */
module Scanner {
  import opened Wrappers
  import opened Text
  import SystemArp

  const UNKNOWN := "Unknown"
  const THIS_COMPUTER := "THIS COMPUTER"
  const ICMP_ONLY := "Unknown (ICMP Response)"
  const DEFAULT_RANGE := "192.168.1.0/24"

  /** One discovered host: `{"ip", "mac", "vendor"}`. */
  datatype Device = Device(ip: string, mac: string, vendor: string)

  /** One answered ARP request: the sender's protocol and hardware address. */
  datatype ArpReply = ArpReply(psrc: string, hwsrc: string)

  function Min(a: nat, b: nat): nat {
    if a < b then a else b
  }

  // ---------------------------------------------------------------------
  // Vendor lookup

  /** `mac` is this host's own address, compared ignoring case. */
  predicate IsSelfMac(mac: string, myMac: Option<string>) {
    Truthy(myMac) && EqualIgnoringCase(mac, myMac.value)
  }

  /** The table key for `mac`: its first eight characters, upper-cased. */
  function VendorKey(mac: string): string {
    Upper(mac[..Min(8, |mac|)])
  }

  /**
   * `_get_vendor`: "Unknown" for an empty address or the "Unknown"
   * placeholder, "THIS COMPUTER" for this host's own address, and otherwise
   * the table's entry for the address prefix, defaulting to "Unknown".
   */
  function GetVendor(mac: string, myMac: Option<string>, vendors: map<string, string>): (r: string)
    ensures r == UNKNOWN || r == THIS_COMPUTER || r in vendors.Values
    ensures mac == "" || mac == UNKNOWN ==> r == UNKNOWN
    ensures mac != "" && mac != UNKNOWN && IsSelfMac(mac, myMac) ==> r == THIS_COMPUTER
    ensures mac != "" && mac != UNKNOWN && !IsSelfMac(mac, myMac) && VendorKey(mac) !in vendors ==> r == UNKNOWN
    ensures r == THIS_COMPUTER && THIS_COMPUTER !in vendors.Values ==> IsSelfMac(mac, myMac)
  {
    if mac == "" || mac == UNKNOWN then UNKNOWN
    else if IsSelfMac(mac, myMac) then THIS_COMPUTER
    else
      var key := VendorKey(mac);
      if key in vendors then vendors[key] else UNKNOWN
  }

  /** Whatever the vendor table holds, this host's own address is labelled "THIS COMPUTER". */
  lemma SelfVendorIgnoresTable(mac: string, myMac: Option<string>, v1: map<string, string>, v2: map<string, string>)
    requires mac != "" && mac != UNKNOWN && IsSelfMac(mac, myMac)
    ensures GetVendor(mac, myMac, v1) == GetVendor(mac, myMac, v2) == THIS_COMPUTER
  {
  }

  /**
   * Upper-casing the address first does not change the vendor found: the ARP
   * stage stores the upper-cased address while it looks the vendor up with
   * the address as received.
   */
  lemma VendorIgnoresCase(mac: string, myMac: Option<string>, vendors: map<string, string>)
    requires mac != UNKNOWN
    ensures GetVendor(Upper(mac), myMac, vendors) == GetVendor(mac, myMac, vendors)
  {
    var u := Upper(mac);
    UpperIdempotent(mac);
    if |u| == |UNKNOWN| {
      assert u[1] == UpperChar(mac[1]) != 'n';
    }
    if mac != "" {
      UpperPrefix(mac, Min(8, |mac|));
      UpperPrefix(u, Min(8, |u|));
    }
  }

  // ---------------------------------------------------------------------
  // The self address

  /** `"{:x}".format(n)`: the lower-case hexadecimal digits of `n`, without leading zeros. */
  function HexString(n: nat): (r: string)
    ensures r != []
    decreases n
  {
    if n < 16 then [HexDigit(n)] else HexString(n / 16) + [HexDigit(n % 16)]
  }

  /** `"{:012x}".format(n)`: padded on the left with zeros to at least twelve digits. */
  function Hex012(n: nat): (r: string)
    ensures |r| >= 12
  {
    var h := HexString(n);
    if |h| < 12 then seq(12 - |h|, _ => '0') + h else h
  }

  /** The `k` two-character pieces of `h` starting at `start`: `h[start:start+2]`, `h[start+2:start+4]`, ... */
  function Pairs(h: string, start: nat, k: nat): (r: seq<string>)
    requires start + 2 * k <= |h|
    ensures |r| == k
  {
    seq(k, j requires 0 <= j < k => h[start + 2 * j..start + 2 * j + 2])
  }

  /**
   * The self-MAC rendering of `_detect_self`: the first twelve digits of
   * `"{:012x}"`, cut into six pairs, joined with ':' and upper-cased.
   */
  function FormatMac(macInt: nat): string {
    Upper(Join(Pairs(Hex012(macInt), 0, 6), ":"))
  }

  predicate IsUpperHexDigit(c: char) {
    ('0' <= c <= '9') || ('A' <= c <= 'F')
  }

  /** Six pairs of upper-case hexadecimal digits separated by ':'. */
  predicate IsCanonicalMac(s: string) {
    && |s| == 17
    && (forall i :: 0 <= i < 17 && i % 3 == 2 ==> s[i] == ':')
    && (forall i :: 0 <= i < 17 && i % 3 != 2 ==> IsUpperHexDigit(s[i]))
  }

  /** The value of a string of hexadecimal digits (either case). */
  function HexValueOf(s: string): Option<nat>
    decreases |s|
  {
    if s == [] then Some(0)
    else
      match (HexValueOf(s[..|s| - 1]), HexValue(s[|s| - 1]))
      case (Some(hi), Some(d)) => Some(hi * 16 + d)
      case _ => None
  }

  /** The twelve digit positions of a 17-character address, dropping every third character. */
  function MacDigits(s: string): (r: string)
    requires |s| == 17
    ensures |r| == 12
  {
    seq(12, i requires 0 <= i < 12 => s[i + i / 2])
  }

  /** Reads a canonical address back into the 48-bit number it stands for. */
  function ParseMac(s: string): Option<nat> {
    if |s| == 17 && (forall i :: 0 <= i < 17 && i % 3 == 2 ==> s[i] == ':') then HexValueOf(MacDigits(s))
    else None
  }

  function Pow16(w: nat): nat {
    if w == 0 then 1 else 16 * Pow16(w - 1)
  }

  /** The `w` lowest hexadecimal digits of `n`, most significant first. */
  function FixedHex(n: nat, w: nat): (r: string)
    ensures |r| == w
    decreases w
  {
    if w == 0 then [] else FixedHex(n / 16, w - 1) + [HexDigit(n % 16)]
  }

  lemma {:induction false} FixedHexZero(w: nat)
    ensures FixedHex(0, w) == seq(w, _ => '0')
  {
    if w > 0 {
      FixedHexZero(w - 1);
    }
  }

  /** For `n < 16^w`, zero-padding the minimal rendering to `w` digits gives the fixed-width one. */
  lemma {:induction false} PaddedHexIsFixed(n: nat, w: nat)
    requires w >= 1 && n < Pow16(w)
    ensures |HexString(n)| <= w
    ensures seq(w - |HexString(n)|, _ => '0') + HexString(n) == FixedHex(n, w)
    decreases w
  {
    if n < 16 {
      FixedHexZero(w - 1);
      assert FixedHex(n, w) == FixedHex(0, w - 1) + [HexDigit(n)];
    } else {
      PaddedHexIsFixed(n / 16, w - 1);
    }
  }

  lemma {:induction false} HexValueOfFixedHex(n: nat, w: nat)
    requires n < Pow16(w)
    ensures HexValueOf(FixedHex(n, w)) == Some(n)
    ensures HexValueOf(Upper(FixedHex(n, w))) == Some(n)
    decreases w
  {
    if w > 0 {
      var f := FixedHex(n, w);
      HexValueOfFixedHex(n / 16, w - 1);
      assert f[..|f| - 1] == FixedHex(n / 16, w - 1);
      HexValueOfHexDigit(n % 16);
      var u := Upper(f);
      assert u[..|u| - 1] == Upper(FixedHex(n / 16, w - 1));
    }
  }

  /** Any lower-case hexadecimal string of at least twelve digits. */
  predicate IsLowerHexString(h: string) {
    forall i :: 0 <= i < |h| ==> IsLowerHexChar(h[i])
  }

  lemma {:induction false} HexStringIsLowerHex(n: nat)
    ensures IsLowerHexString(HexString(n))
    decreases n
  {
    if n >= 16 {
      HexStringIsLowerHex(n / 16);
    }
  }

  /** Joining `k` pairs with ':' puts a ':' at every third position and the digits of `h` in order elsewhere. */
  lemma {:induction false} JoinPairsLayout(h: string, start: nat, k: nat)
    requires k >= 1 && start + 2 * k <= |h|
    ensures var s := Join(Pairs(h, start, k), ":");
            |s| == 3 * k - 1
            && (forall i :: 0 <= i < |s| && i % 3 == 2 ==> s[i] == ':')
            && (forall i :: 0 <= i < |s| && i % 3 != 2 ==> s[i] == h[start + i - i / 3])
    decreases k
  {
    var p := Pairs(h, start, k);
    var s := Join(p, ":");
    if k > 1 {
      var rest := Pairs(h, start + 2, k - 1);
      JoinPairsLayout(h, start + 2, k - 1);
      assert p[1..] == rest;
      var t := Join(rest, ":");
      assert s == h[start..start + 2] + ":" + t;
      forall i | 3 <= i < |s| ensures s[i] == (if i % 3 == 2 then ':' else h[start + i - i / 3]) {
        assert s[i] == t[i - 3];
        assert (i - 3) % 3 == i % 3 && (i - 3) / 3 == i / 3 - 1;
      }
    }
  }

  /** The self address is always six upper-case hexadecimal pairs separated by ':'. */
  lemma FormatMacIsCanonical(macInt: nat)
    ensures IsCanonicalMac(FormatMac(macInt))
  {
    var h := Hex012(macInt);
    HexStringIsLowerHex(macInt);
    assert IsLowerHexString(h);
    JoinPairsLayout(h, 0, 6);
  }

  lemma Pow16Of12()
    ensures Pow16(12) == 0x1_0000_0000_0000
  {
  }

  /** The twelve digits of the rendered self address are the fixed-width upper-case rendering of the number. */
  lemma FormatMacDigits(macInt: nat)
    requires macInt < 0x1_0000_0000_0000
    ensures |FormatMac(macInt)| == 17
    ensures forall i :: 0 <= i < 17 && i % 3 == 2 ==> FormatMac(macInt)[i] == ':'
    ensures MacDigits(FormatMac(macInt)) == Upper(FixedHex(macInt, 12))
  {
    var h := Hex012(macInt);
    assert h == FixedHex(macInt, 12) by {
      Pow16Of12();
      PaddedHexIsFixed(macInt, 12);
    }
    var j := Join(Pairs(h, 0, 6), ":");
    JoinPairsLayout(h, 0, 6);
    assert FormatMac(macInt) == Upper(j);
    DigitsOfLayout(h, j);
  }

  /** Twelve digits laid out as six ':'-separated pairs read back, upper-cased, as the digits. */
  lemma DigitsOfLayout(h: string, j: string)
    requires |h| == 12 && |j| == 17
    requires forall p :: 0 <= p < 17 && p % 3 != 2 ==> j[p] == h[p - p / 3]
    ensures MacDigits(Upper(j)) == Upper(h)
  {
    forall i | 0 <= i < 12 ensures MacDigits(Upper(j))[i] == Upper(h)[i] {
      MacDigitPosition(i);
    }
  }

  /** Reading the rendered self address back gives the 48-bit number it came from. */
  lemma FormatMacRoundTrip(macInt: nat)
    requires macInt < 0x1_0000_0000_0000
    ensures ParseMac(FormatMac(macInt)) == Some(macInt)
  {
    Pow16Of12();
    FormatMacDigits(macInt);
    HexValueOfFixedHex(macInt, 12);
  }

  lemma MacDigitPosition(i: nat)
    requires i < 12
    ensures var p := i + i / 2; p < 17 && p % 3 != 2 && p - p / 3 == i
  {
  }

  // ---------------------------------------------------------------------
  // OUI file

  const HEX_MARK := "(hex)"

  /**
   * One line of `_load_oui`: a line containing "(hex)" gives the text before
   * it, trimmed and with '-' turned into ':', bound to the trimmed vendor
   * text after it; other lines give nothing.
   */
  function ParseOuiLine(line: string): (r: Option<(string, string)>)
    ensures r.Some? <==> Contains(line, HEX_MARK)
  {
    if !Contains(line, HEX_MARK) then None
    else
      var parts := SplitOn(line, HEX_MARK);
      SplitOnContains(line, HEX_MARK);
      Some((Replace(Strip(parts[0]), '-', ':'), Strip(parts[1])))
  }

  /** A line whose separator occurs splits into at least two parts. */
  lemma SplitOnContains(s: string, sep: string)
    requires sep != [] && Contains(s, sep)
    ensures |SplitOn(s, sep)| >= 2
  {
  }

  /** A text without '(' holds no "(hex)". */
  lemma NoParenNoMark(s: string)
    requires '(' !in s
    ensures !Contains(s, HEX_MARK)
  {
    ContainsIff(s, HEX_MARK);
    forall j: nat | j + |HEX_MARK| <= |s| ensures !OccursAt(s, HEX_MARK, j) {
      assert s[j..j + |HEX_MARK|][0] == s[j];
    }
  }

  /** The first "(hex)" of `h + "(hex)" + v` is the one after `h` when `h` holds none: the mark cannot overlap itself. */
  lemma FindMark(h: string, v: string)
    requires !Contains(h, HEX_MARK)
    ensures Find(h + HEX_MARK + v, HEX_MARK) == Some(|h|)
  {
    var s := h + HEX_MARK + v;
    var m := HEX_MARK;
    assert s[|h|..|h| + |m|] == m;
    assert OccursAt(s, m, |h|);
    ContainsIff(h, m);
    assert forall k :: 1 <= k < |m| ==> m[k] != '(';
    forall j: nat | j < |h| ensures !OccursAt(s, m, j) {
      if j + |m| <= |h| {
        assert h[j..j + |m|] == s[j..j + |m|];
        assert !OccursAt(h, m, j);
      } else if j + |m| <= |s| {
        assert s[j..j + |m|][|h| - j] == s[|h|] == '(';
      }
    }
    var r := Find(s, m);
    assert r.Some?;
    assert r.value == |h|;
  }

  /**
   * A line "h(hex)v" whose two sides hold no further "(hex)" binds the
   * stripped `h`, with '-' turned into ':', to the stripped `v`.
   */
  lemma ParseOuiLineOf(h: string, v: string)
    requires !Contains(h, HEX_MARK) && !Contains(v, HEX_MARK)
    ensures ParseOuiLine(h + HEX_MARK + v) == Some((Replace(Strip(h), '-', ':'), Strip(v)))
  {
    var line := h + HEX_MARK + v;
    FindMark(h, v);
    assert line[..|h|] == h;
    assert line[|h| + |HEX_MARK|..] == v;
    assert SplitOn(line, HEX_MARK) == [h] + SplitOn(v, HEX_MARK);
    assert SplitOn(v, HEX_MARK) == [v];
  }

  /** The IEEE registry line of VMware gives "00:50:56" and "VMware, Inc.". */
  lemma ParseOuiRegistryLine()
    ensures ParseOuiLine("00-50-56   (hex)\tVMware, Inc.\n") == Some(("00:50:56", "VMware, Inc."))
  {
    var h := "00-50-56   ";
    var v := "\tVMware, Inc.\n";
    assert "00-50-56   (hex)\tVMware, Inc.\n" == h + HEX_MARK + v;
    RegistryPrefix(h);
    RegistryVendor(v);
    ParseOuiLineOf(h, v);
  }

  /** The prefix side of the VMware line: no mark, and "00:50:56" once stripped and converted. */
  lemma RegistryPrefix(h: string)
    requires h == "00-50-56   "
    ensures !Contains(h, HEX_MARK)
    ensures Replace(Strip(h), '-', ':') == "00:50:56"
  {
    assert forall i :: 0 <= i < |h| ==> h[i] != '(';
    NoParenNoMark(h);
    var core := h[..8];
    assert h == "" + core + h[8..];
    StripPadded("", core, h[8..]);
    var r := Replace(core, '-', ':');
    assert forall i :: 0 <= i < 8 ==> r[i] == "00:50:56"[i];
  }

  /** The vendor side of the VMware line: no mark, and "VMware, Inc." once stripped. */
  lemma RegistryVendor(v: string)
    requires v == "\tVMware, Inc.\n"
    ensures !Contains(v, HEX_MARK)
    ensures Strip(v) == "VMware, Inc."
  {
    assert forall i :: 0 <= i < |v| ==> v[i] != '(';
    NoParenNoMark(v);
    var core := v[1..|v| - 1];
    assert v == v[..1] + core + v[|v| - 1..];
    StripPadded(v[..1], core, v[|v| - 1..]);
  }

  /** The vendor table after reading `lines` into `table`: lines are read in order, a later line overriding an earlier one. */
  function OuiTable(table: map<string, string>, lines: seq<string>): map<string, string>
    decreases |lines|
  {
    if lines == [] then table
    else
      var before := OuiTable(table, lines[..|lines| - 1]);
      match ParseOuiLine(lines[|lines| - 1])
      case None => before
      case Some(entry) => before[entry.0 := entry.1]
  }

  /** Loading the one-line registry file of VMware makes "00:50:56" read "VMware, Inc.". */
  lemma OuiTableRegistryLine(table: map<string, string>, line: string)
    requires line == "00-50-56   (hex)\tVMware, Inc.\n"
    ensures OuiTable(table, [line]) == table["00:50:56" := "VMware, Inc."]
  {
    ParseOuiRegistryLine();
    assert [line][..0] == [];
  }

  /** Line `k` of `lines` is an OUI line for `prefix`. */
  predicate DefinesPrefix(lines: seq<string>, k: int, prefix: string) {
    0 <= k < |lines| && ParseOuiLine(lines[k]).Some? && ParseOuiLine(lines[k]).value.0 == prefix
  }

  /** A prefix is in the loaded table exactly when it was there before or some line defines it. */
  lemma {:induction false} OuiTableKeys(table: map<string, string>, lines: seq<string>, prefix: string)
    ensures prefix in OuiTable(table, lines) <==> prefix in table || exists k :: DefinesPrefix(lines, k, prefix)
    decreases |lines|
  {
    if lines != [] {
      var init := lines[..|lines| - 1];
      OuiTableKeys(table, init, prefix);
      forall k | 0 <= k < |init| ensures DefinesPrefix(init, k, prefix) == DefinesPrefix(lines, k, prefix) {
        assert init[k] == lines[k];
      }
      var entry := ParseOuiLine(lines[|lines| - 1]);
      if entry.Some? && entry.value.0 == prefix {
        assert DefinesPrefix(lines, |lines| - 1, prefix);
      } else {
        assert !DefinesPrefix(lines, |lines| - 1, prefix);
      }
    }
  }

  /** The vendor of a prefix is the one on the last line defining it. */
  lemma {:induction false} OuiTableLastWins(table: map<string, string>, lines: seq<string>, prefix: string, k: nat)
    requires DefinesPrefix(lines, k, prefix)
    requires forall j :: k < j < |lines| ==> !DefinesPrefix(lines, j, prefix)
    ensures prefix in OuiTable(table, lines)
    ensures OuiTable(table, lines)[prefix] == ParseOuiLine(lines[k]).value.1
    decreases |lines|
  {
    var init := lines[..|lines| - 1];
    if k < |lines| - 1 {
      assert !DefinesPrefix(lines, |lines| - 1, prefix);
      assert DefinesPrefix(init, k, prefix);
      forall j | k < j < |init| ensures !DefinesPrefix(init, j, prefix) {
        assert !DefinesPrefix(lines, j, prefix);
      }
      OuiTableLastWins(table, init, prefix, k);
    }
  }

  /** A prefix no line defines keeps the vendor it had. */
  lemma {:induction false} OuiTableUntouched(table: map<string, string>, lines: seq<string>, prefix: string)
    requires prefix in table
    requires forall k :: 0 <= k < |lines| ==> !DefinesPrefix(lines, k, prefix)
    ensures prefix in OuiTable(table, lines) && OuiTable(table, lines)[prefix] == table[prefix]
    decreases |lines|
  {
    if lines != [] {
      var init := lines[..|lines| - 1];
      assert !DefinesPrefix(lines, |lines| - 1, prefix);
      forall k | 0 <= k < |init| ensures !DefinesPrefix(init, k, prefix) {
        assert !DefinesPrefix(lines, k, prefix);
      }
      OuiTableUntouched(table, init, prefix);
    }
  }

  /** A loaded prefix gives its vendor to every address starting with it, when that address is not this host's own. */
  lemma VendorFromTable(mac: string, myMac: Option<string>, vendors: map<string, string>)
    requires mac != "" && mac != UNKNOWN && !IsSelfMac(mac, myMac)
    requires VendorKey(mac) in vendors
    ensures GetVendor(mac, myMac, vendors) == vendors[VendorKey(mac)]
  {
  }

  // ---------------------------------------------------------------------
  // Range and sweep candidates

  /**
   * `_get_local_ip_range`: "a.b.c.0/24" from the first three dot-separated
   * parts of this host's address, "192.168.1.0/24" when that address is
   * unknown, and `None` where an address with fewer than three parts makes
   * the source raise.
   */
  function LocalIpRange(myIp: Option<string>): Option<string> {
    if Truthy(myIp) then
      var parts := SplitOn(myIp.value, ".");
      if |parts| < 3 then None else Some(parts[0] + "." + parts[1] + "." + parts[2] + ".0/24")
    else Some(DEFAULT_RANGE)
  }

  /** The "a.b.c" prefix `_ping_sweep` takes from a range; `None` where the source's slicing raises and nothing is swept. */
  function SweepPrefix(range: string): Option<string> {
    var parts := SplitOn(SplitOn(range, "/")[0], ".");
    if |parts| < 3 then None else Some(parts[0] + "." + parts[1] + "." + parts[2])
  }

  /** The sweep's candidates: prefix.1 up to prefix.254, in that order. */
  function SweepCandidates(prefix: string): (r: seq<string>)
    ensures |r| == 254
    ensures forall k :: 0 <= k < 254 ==> r[k] == prefix + "." + NatToString(k + 1)
  {
    seq(254, k requires 0 <= k < 254 => prefix + "." + NatToString(k + 1))
  }

  /** No address is probed twice. */
  lemma SweepCandidatesDistinct(prefix: string)
    ensures Distinct(SweepCandidates(prefix))
  {
    var c := SweepCandidates(prefix);
    forall i, j | 0 <= i < j < |c| ensures c[i] != c[j] {
      if c[i] == c[j] {
        var p := prefix + ".";
        assert c[i] == p + NatToString(i + 1) && c[j] == p + NatToString(j + 1);
        assert NatToString(i + 1) == c[i][|p|..] == c[j][|p|..] == NatToString(j + 1);
        NatToStringInjective(i + 1, j + 1);
      }
    }
  }

  predicate Distinct<T(==)>(s: seq<T>) {
    forall i, j :: 0 <= i < j < |s| ==> s[i] != s[j]
  }

  /**
   * For an address of at least three dot-separated parts, none of the first
   * three holding '/', the sweep covers "a.b.c.1" to "a.b.c.254" of that address.
   */
  lemma RangeSweepsOwnSubnet(ip: string)
    requires ip != ""
    requires |SplitOn(ip, ".")| >= 3
    requires forall k :: 0 <= k < 3 ==> '/' !in SplitOn(ip, ".")[k]
    ensures var parts := SplitOn(ip, ".");
            LocalIpRange(Some(ip)).Some?
            && SweepPrefix(LocalIpRange(Some(ip)).value) == Some(parts[0] + "." + parts[1] + "." + parts[2])
  {
    var parts := SplitOn(ip, ".");
    SplitOnPartsLackChar(ip, '.');
    SweepPrefixOfRange(parts[0], parts[1], parts[2]);
  }

  /** Without a known address the range is "192.168.1.0/24", and the sweep covers 192.168.1.1 to 192.168.1.254. */
  lemma DefaultRangeSweep(myIp: Option<string>)
    requires !Truthy(myIp)
    ensures LocalIpRange(myIp) == Some(DEFAULT_RANGE)
    ensures SweepPrefix(LocalIpRange(myIp).value) == Some("192.168.1")
  {
    DefaultRangeParts(DEFAULT_RANGE, "192.168.1");
  }

  lemma DefaultRangeParts(range: string, prefix: string)
    requires range == "192" + "." + "168" + "." + "1" + ".0/24"
    requires prefix == "192" + "." + "168" + "." + "1"
    ensures SweepPrefix(range) == Some(prefix)
  {
    SweepPrefixOfRange("192", "168", "1");
  }

  /** The sweep prefix of "a.b.c.0/24" is "a.b.c", for parts holding neither '.' nor '/'. */
  lemma SweepPrefixOfRange(a: string, b: string, c: string)
    requires '.' !in a && '.' !in b && '.' !in c
    requires '/' !in a && '/' !in b && '/' !in c
    ensures SweepPrefix(a + "." + b + "." + c + ".0/24") == Some(a + "." + b + "." + c)
  {
    var base := [a, b, c, "0"];
    var joined := a + "." + b + "." + c + ".0";
    JoinFour(a, b, c, "0", ".");
    JoinCons(joined, ["24"], "/");
    assert [joined] + ["24"] == [joined, "24"];
    assert a + "." + b + "." + c + ".0/24" == Join([joined, "24"], "/");
    assert '/' !in joined;
    SplitOnJoin([joined, "24"], '/');
    assert SplitOn(a + "." + b + "." + c + ".0/24", "/")[0] == joined;
    assert '.' !in "0";
    assert "." + "0" == ".0";
    assert Join(base, ".") == joined;
    SplitOnJoin(base, '.');
    assert SplitOn(joined, ".") == base;
  }

  lemma JoinFour(a: string, b: string, c: string, d: string, sep: string)
    ensures Join([a, b, c, d], sep) == a + sep + b + sep + c + sep + d
  {
    JoinCons(c, [d], sep);
    assert [c] + [d] == [c, d];
    JoinCons(b, [c, d], sep);
    assert [b] + [c, d] == [b, c, d];
    JoinCons(a, [b, c, d], sep);
    assert [a] + [b, c, d] == [a, b, c, d];
  }

  // ---------------------------------------------------------------------
  // The merge of the three stages

  /** The records `_arp_scan` builds from the replies: upper-cased address, vendor of the address as received. */
  function ArpDevices(replies: seq<ArpReply>, myMac: Option<string>, vendors: map<string, string>): (r: seq<Device>)
    ensures |r| == |replies|
  {
    seq(|replies|, k requires 0 <= k < |replies| =>
      Device(replies[k].psrc, Upper(replies[k].hwsrc), GetVendor(replies[k].hwsrc, myMac, vendors)))
  }

  function IpsOf(devices: seq<Device>): set<string> {
    set d | d in devices :: d.ip
  }

  /** The candidates that answered the sweep, in candidate order. */
  function Responding(candidates: seq<string>, responders: set<string>): seq<string>
    decreases |candidates|
  {
    if candidates == [] then []
    else
      var init := Responding(candidates[..|candidates| - 1], responders);
      if candidates[|candidates| - 1] in responders then init + [candidates[|candidates| - 1]] else init
  }

  /** The answering candidates keep their order and are exactly those in the responder set. */
  lemma {:induction false} RespondingMembers(candidates: seq<string>, responders: set<string>)
    ensures forall ip :: ip in Responding(candidates, responders) <==> ip in candidates && ip in responders
    ensures Distinct(candidates) ==> Distinct(Responding(candidates, responders))
    decreases |candidates|
  {
    if candidates != [] {
      var init := candidates[..|candidates| - 1];
      RespondingMembers(init, responders);
      assert candidates == init + [candidates[|candidates| - 1]];
      if Distinct(candidates) {
        assert Distinct(init);
        assert candidates[|candidates| - 1] !in init;
      }
    }
  }

  /**
   * The device recorded for an address found only by the sweep: the system
   * cache's address, else this host's own address if it is this host, else
   * the "Unknown" placeholder with vendor "Unknown (ICMP Response)".
   */
  function FallbackDevice(ip: string, cacheMac: Option<string>, myIp: Option<string>, myMac: Option<string>,
                          vendors: map<string, string>): Device
  {
    var mac := if Truthy(cacheMac) then cacheMac
               else if myIp.Some? && ip == myIp.value then myMac
               else cacheMac;
    if Truthy(mac) then Device(ip, mac.value, GetVendor(mac.value, myMac, vendors))
    else Device(ip, UNKNOWN, ICMP_ONLY)
  }

  /** Stage 3 over the swept addresses: one fallback record per address the ARP stage did not report. */
  function Augment(arpIps: set<string>, pingIps: seq<string>, cache: string -> Option<string>,
                   myIp: Option<string>, myMac: Option<string>, vendors: map<string, string>): seq<Device>
    decreases |pingIps|
  {
    if pingIps == [] then []
    else
      var init := Augment(arpIps, pingIps[..|pingIps| - 1], cache, myIp, myMac, vendors);
      var ip := pingIps[|pingIps| - 1];
      if ip in arpIps then init else init + [FallbackDevice(ip, cache(ip), myIp, myMac, vendors)]
  }

  /** The result of `scan`: the ARP-stage records first, then the fallback records in sweep order. */
  function Merge(arp: seq<Device>, pingIps: seq<string>, cache: string -> Option<string>,
                 myIp: Option<string>, myMac: Option<string>, vendors: map<string, string>): seq<Device>
  {
    arp + Augment(IpsOf(arp), pingIps, cache, myIp, myMac, vendors)
  }

  /** The swept addresses that the ARP stage did not report, in order. */
  function NotReported(arpIps: set<string>, pingIps: seq<string>): seq<string>
    decreases |pingIps|
  {
    if pingIps == [] then []
    else
      var init := NotReported(arpIps, pingIps[..|pingIps| - 1]);
      if pingIps[|pingIps| - 1] in arpIps then init else init + [pingIps[|pingIps| - 1]]
  }

  /**
   * The fallback records are, one for one and in order, the swept addresses
   * the ARP stage did not report, each built by `FallbackDevice`.
   */
  lemma {:induction false} AugmentIsFallbacks(arpIps: set<string>, pingIps: seq<string>, cache: string -> Option<string>,
                                              myIp: Option<string>, myMac: Option<string>, vendors: map<string, string>)
    ensures var aug := Augment(arpIps, pingIps, cache, myIp, myMac, vendors);
            var rest := NotReported(arpIps, pingIps);
            |aug| == |rest|
            && forall k :: 0 <= k < |aug| ==> aug[k] == FallbackDevice(rest[k], cache(rest[k]), myIp, myMac, vendors)
    decreases |pingIps|
  {
    if pingIps != [] {
      AugmentIsFallbacks(arpIps, pingIps[..|pingIps| - 1], cache, myIp, myMac, vendors);
    }
  }

  /** The addresses not reported by the ARP stage are exactly the swept ones outside its address set. */
  lemma {:induction false} NotReportedMembers(arpIps: set<string>, pingIps: seq<string>)
    ensures forall ip :: ip in NotReported(arpIps, pingIps) <==> ip in pingIps && ip !in arpIps
    ensures Distinct(pingIps) ==> Distinct(NotReported(arpIps, pingIps))
    decreases |pingIps|
  {
    if pingIps != [] {
      var init := pingIps[..|pingIps| - 1];
      NotReportedMembers(arpIps, init);
      assert pingIps == init + [pingIps[|pingIps| - 1]];
      if Distinct(pingIps) {
        assert Distinct(init);
        assert pingIps[|pingIps| - 1] !in init;
      }
    }
  }

  /**
   * What `scan` promises: the ARP-stage records come first and unchanged;
   * every swept address appears; the length is |arp| plus the number of
   * swept addresses the ARP stage missed; and with a duplicate-free ARP
   * stage and sweep, no address is reported twice.
   */
  lemma MergeProperties(arp: seq<Device>, pingIps: seq<string>, cache: string -> Option<string>,
                        myIp: Option<string>, myMac: Option<string>, vendors: map<string, string>)
    ensures var r := Merge(arp, pingIps, cache, myIp, myMac, vendors);
            && r[..|arp|] == arp
            && |r| == |arp| + |NotReported(IpsOf(arp), pingIps)|
            && (forall ip :: ip in pingIps ==> exists d :: d in r && d.ip == ip)
            && (forall k :: |arp| <= k < |r| ==> r[k].ip !in IpsOf(arp))
    ensures var r := Merge(arp, pingIps, cache, myIp, myMac, vendors);
            Distinct(pingIps) && (forall i, j :: 0 <= i < j < |arp| ==> arp[i].ip != arp[j].ip)
            ==> forall i, j :: 0 <= i < j < |r| ==> r[i].ip != r[j].ip
  {
    var r := Merge(arp, pingIps, cache, myIp, myMac, vendors);
    var aug := Augment(IpsOf(arp), pingIps, cache, myIp, myMac, vendors);
    var rest := NotReported(IpsOf(arp), pingIps);
    AugmentIsFallbacks(IpsOf(arp), pingIps, cache, myIp, myMac, vendors);
    NotReportedMembers(IpsOf(arp), pingIps);
    assert r == arp + aug;
    assert forall k :: 0 <= k < |aug| ==> aug[k].ip == rest[k];
    forall k | |arp| <= k < |r| ensures r[k].ip !in IpsOf(arp) {
      assert r[k] == aug[k - |arp|];
      assert rest[k - |arp|] in rest;
    }
    forall ip | ip in pingIps ensures exists d :: d in r && d.ip == ip {
      if ip in IpsOf(arp) {
        var d :| d in arp && d.ip == ip;
        assert d in r;
      } else {
        assert ip in rest;
        var k :| 0 <= k < |rest| && rest[k] == ip;
        assert r[|arp| + k] == aug[k];
      }
    }
    if Distinct(pingIps) && (forall i, j :: 0 <= i < j < |arp| ==> arp[i].ip != arp[j].ip) {
      forall i, j | 0 <= i < j < |r| ensures r[i].ip != r[j].ip {
        if j >= |arp| {
          assert r[j].ip == rest[j - |arp|];
          if i >= |arp| {
            assert r[i].ip == rest[i - |arp|];
          } else {
            assert r[i] in arp;
          }
        }
      }
    }
  }

  /**
   * A swept address the ARP stage missed, for which neither the system cache
   * nor the self check gives an address, is kept, with the "Unknown"
   * placeholder address and vendor "Unknown (ICMP Response)".
   */
  lemma UnresolvedKept(ip: string, cacheMac: Option<string>, myIp: Option<string>, myMac: Option<string>,
                       vendors: map<string, string>)
    requires !Truthy(cacheMac)
    requires !(myIp.Some? && ip == myIp.value && Truthy(myMac))
    ensures FallbackDevice(ip, cacheMac, myIp, myMac, vendors) == Device(ip, UNKNOWN, ICMP_ONLY)
  {
  }

  /** This host, found only by the sweep and absent from the system cache, is recorded with its own address as "THIS COMPUTER". */
  lemma SelfFoundBySweep(ip: string, cacheMac: Option<string>, myIp: Option<string>, macInt: nat,
                         vendors: map<string, string>)
    requires !Truthy(cacheMac)
    requires myIp == Some(ip)
    ensures FallbackDevice(ip, cacheMac, myIp, Some(FormatMac(macInt)), vendors)
            == Device(ip, FormatMac(macInt), THIS_COMPUTER)
  {
    var m := FormatMac(macInt);
    FormatMacIsCanonical(macInt);
    assert m[2] == ':';
    assert m != UNKNOWN by {
      assert UNKNOWN[2] == 'k';
    }
  }

  // ---------------------------------------------------------------------
  // The scanner object

  /** The system-cache answer for each address, given the table text read for it. */
  function SystemCache(platform: SystemArp.Platform, arpOutput: string -> Option<seq<string>>): string -> Option<string> {
    ip => SystemArp.SystemLookup(platform, arpOutput(ip), ip)
  }

  class NetworkScanner {
    var vendors: map<string, string>
    var myIp: Option<string>
    var myMac: Option<string>

    /**
     * `__init__`: `_detect_self`, then `_load_oui` over the lines of the OUI
     * file. `localIp` is the socket's local address (`None` when that step
     * raised, which leaves both fields unset) and `node` the result of
     * `uuid.getnode()` (`None` when it raised after the address was set).
     */
    constructor (localIp: Option<string>, node: Option<nat>, ouiLines: seq<string>)
      ensures myIp == localIp
      ensures myMac == (if localIp.Some? && node.Some? then Some(FormatMac(node.value)) else None)
      ensures vendors == OuiTable(map[], ouiLines)
    {
      vendors := map[];
      myIp := localIp;
      if localIp.Some? && node.Some? {
        myMac := Some(FormatMac(node.value));
      } else {
        myMac := None;
      }
      new;
      LoadOui(ouiLines);
    }

    /** `_load_oui`: each line holding "(hex)" binds its prefix to its vendor. */
    method LoadOui(lines: seq<string>)
      modifies this
      ensures vendors == OuiTable(old(vendors), lines)
      ensures myIp == old(myIp) && myMac == old(myMac)
    {
      ghost var start := vendors;
      var i := 0;
      while i < |lines|
        invariant 0 <= i <= |lines|
        invariant vendors == OuiTable(start, lines[..i])
        invariant myIp == old(myIp) && myMac == old(myMac)
      {
        assert lines[..i + 1][..i] == lines[..i];
        var entry := ParseOuiLine(lines[i]);
        if entry.Some? {
          vendors := vendors[entry.value.0 := entry.value.1];
        }
        i := i + 1;
      }
      assert lines[..|lines|] == lines;
    }

    /** Stage 3 for one address the ARP stage missed: the system cache, then the self check. */
    method Fallback(ip: string, platform: SystemArp.Platform, output: Option<seq<string>>) returns (d: Device)
      ensures d == FallbackDevice(ip, SystemArp.SystemLookup(platform, output, ip), myIp, myMac, vendors)
    {
      var mac := SystemArp.GetMacFromSystem(platform, output, ip);
      if !Truthy(mac) && myIp.Some? && ip == myIp.value {
        mac := myMac;
      }
      var vendor := ICMP_ONLY;
      var recorded := UNKNOWN;
      if Truthy(mac) {
        vendor := GetVendor(mac.value, myMac, vendors);
        recorded := mac.value;
      }
      d := Device(ip, recorded, vendor);
    }

    /** The loop of `scan`: a fallback record appended for each swept address the ARP stage did not report. */
    method AddSweepOnly(arpDevices: seq<Device>, pingIps: seq<string>, platform: SystemArp.Platform,
                        arpOutput: string -> Option<seq<string>>) returns (finalResults: seq<Device>)
      ensures finalResults == Merge(arpDevices, pingIps, SystemCache(platform, arpOutput), myIp, myMac, vendors)
    {
      var arpIps := IpsOf(arpDevices);
      ghost var cache := SystemCache(platform, arpOutput);
      finalResults := arpDevices;
      var i := 0;
      while i < |pingIps|
        invariant 0 <= i <= |pingIps|
        invariant finalResults == arpDevices + Augment(arpIps, pingIps[..i], cache, myIp, myMac, vendors)
      {
        assert pingIps[..i + 1][..i] == pingIps[..i];
        var ip := pingIps[i];
        if ip !in arpIps {
          var d := Fallback(ip, platform, arpOutput(ip));
          assert cache(ip) == SystemArp.SystemLookup(platform, arpOutput(ip), ip);
          finalResults := finalResults + [d];
        }
        i := i + 1;
      }
      assert pingIps[..|pingIps|] == pingIps;
    }

    /**
     * `scan`. `replies` are the answers to the ARP probe (empty when it
     * failed), `responders` the addresses that answer a ping, and
     * `arpOutput(ip)` the system ARP table text read for `ip`. `None` where
     * the range computation raises.
     */
    method Scan(replies: seq<ArpReply>, responders: set<string>, platform: SystemArp.Platform,
                arpOutput: string -> Option<seq<string>>) returns (result: Option<seq<Device>>)
      ensures LocalIpRange(myIp).None? ==> result.None?
      ensures LocalIpRange(myIp).Some? ==>
        result == Some(Merge(ArpDevices(replies, myMac, vendors), PingIps(LocalIpRange(myIp).value, responders),
                             SystemCache(platform, arpOutput), myIp, myMac, vendors))
    {
      var range := LocalIpRange(myIp);
      if range.None? {
        return None;
      }
      var arpDevices := ArpDevices(replies, myMac, vendors);
      var pingIps := PingSweep(range.value, responders);
      var finalResults := AddSweepOnly(arpDevices, pingIps, platform, arpOutput);
      return Some(finalResults);
    }
  }

  /** The addresses the sweep of `range` finds: `_ping_sweep`'s result. */
  function PingIps(range: string, responders: set<string>): seq<string> {
    match SweepPrefix(range)
    case None => []
    case Some(prefix) => Responding(SweepCandidates(prefix), responders)
  }

  /** The sweep never reports an address twice, and reports exactly the candidates that answer. */
  lemma PingIpsDistinct(range: string, responders: set<string>)
    ensures Distinct(PingIps(range, responders))
    ensures SweepPrefix(range).Some? ==>
            forall ip :: ip in PingIps(range, responders) <==> ip in SweepCandidates(SweepPrefix(range).value) && ip in responders
  {
    if SweepPrefix(range).Some? {
      SweepCandidatesDistinct(SweepPrefix(range).value);
      RespondingMembers(SweepCandidates(SweepPrefix(range).value), responders);
    }
  }

  /**
   * `_ping_sweep`: probe every candidate and keep those that answer, in
   * candidate order; nothing when the range cannot be cut into a prefix.
   */
  method PingSweep(range: string, responders: set<string>) returns (activeIps: seq<string>)
    ensures activeIps == PingIps(range, responders)
  {
    activeIps := [];
    var prefix := SweepPrefix(range);
    if prefix.None? {
      return;
    }
    var ips := SweepCandidates(prefix.value);
    var i := 0;
    while i < |ips|
      invariant 0 <= i <= |ips|
      invariant activeIps == Responding(ips[..i], responders)
    {
      assert ips[..i + 1][..i] == ips[..i];
      if ips[i] in responders {
        activeIps := activeIps + [ips[i]];
      }
      i := i + 1;
    }
    assert ips[..|ips|] == ips;
  }
}
