/**
 * Reading a hardware address out of the operating system's ARP table, as
 * `NetworkScanner._get_mac_from_system` and `WiFiBlocker._get_mac_from_arp_cache`
 * both do (the two are the same code). The text the system prints is an
 * input: the lines of `/proc/net/arp` on Linux, the lines of `arp -a <ip>`
 * on Windows, or `None` when reading it failed.
 */
module SystemArp {
  import opened Wrappers
  import opened Text

  /** Python's `os.name == 'nt'` (Windows) or not. */
  datatype Platform = Windows | Posix

  /** The hardware address of an incomplete `/proc/net/arp` entry. */
  const ZERO_MAC := "00:00:00:00:00:00"

  // ---------------------------------------------------------------------
  // Linux: /proc/net/arp

  /** A `/proc/net/arp` row answers for `ip`: `ip` in field 0 and a non-zero address in field 3. */
  predicate LinuxRowMatches(row: string, ip: string) {
    var parts := Split(row);
    |parts| >= 4 && parts[0] == ip && parts[3] != ZERO_MAC
  }

  /** The upper-cased address of the first row that answers for `ip`. */
  function LinuxRowsLookup(rows: seq<string>, ip: string): Option<string>
    decreases |rows|
  {
    if rows == [] then None
    else if LinuxRowMatches(rows[0], ip) then Some(Upper(Split(rows[0])[3]))
    else LinuxRowsLookup(rows[1..], ip)
  }

  /**
   * The Linux answer: the header line is skipped, and a file without even a
   * header (where `next(f)` raises) answers `None`.
   */
  function LinuxLookup(lines: seq<string>, ip: string): Option<string> {
    if lines == [] then None else LinuxRowsLookup(lines[1..], ip)
  }

  /** The Linux answer is the upper-cased address of the first data row that answers for `ip`, and `None` when there is none. */
  lemma {:induction false} LinuxRowsLookupFirstMatch(rows: seq<string>, ip: string)
    ensures LinuxRowsLookup(rows, ip).Some? <==> exists k :: 0 <= k < |rows| && LinuxRowMatches(rows[k], ip)
    ensures forall k :: 0 <= k < |rows| && LinuxRowMatches(rows[k], ip)
                        && (forall j :: 0 <= j < k ==> !LinuxRowMatches(rows[j], ip))
                    ==> LinuxRowsLookup(rows, ip) == Some(Upper(Split(rows[k])[3]))
    decreases |rows|
  {
    if rows != [] {
      LinuxRowsLookupFirstMatch(rows[1..], ip);
      if !LinuxRowMatches(rows[0], ip) {
        assert forall k :: 1 <= k < |rows| ==> rows[k] == rows[1..][k - 1];
        forall k | 0 <= k < |rows| && LinuxRowMatches(rows[k], ip)
                   && (forall j :: 0 <= j < k ==> !LinuxRowMatches(rows[j], ip))
          ensures LinuxRowsLookup(rows, ip) == Some(Upper(Split(rows[k])[3]))
        {
          assert k >= 1;
          assert forall j :: 0 <= j < k - 1 ==> rows[1..][j] == rows[j + 1];
        }
      }
    }
  }

  /** The Linux branch, as the source scans the file: line by line, returning at the first match. */
  method LinuxArpLookup(lines: seq<string>, ip: string) returns (mac: Option<string>)
    ensures mac == LinuxLookup(lines, ip)
  {
    if |lines| == 0 {
      return None;
    }
    var i := 1;
    while i < |lines|
      invariant 1 <= i <= |lines|
      invariant LinuxRowsLookup(lines[i..], ip) == LinuxRowsLookup(lines[1..], ip)
    {
      assert lines[i..][1..] == lines[i + 1..];
      var parts := Split(lines[i]);
      if |parts| >= 4 && parts[0] == ip {
        var m := parts[3];
        if m != ZERO_MAC {
          return Some(Upper(m));
        }
      }
      i := i + 1;
    }
    return None;
  }

  // ---------------------------------------------------------------------
  // Windows: arp -a <ip>

  /** A token that looks like a Windows hardware address: 17 characters, one of them '-'. */
  predicate IsDashMac(part: string) {
    Contains(part, "-") && |part| == 17
  }

  /** The first token of `parts` that looks like a Windows hardware address. */
  function DashToken(parts: seq<string>): Option<string>
    decreases |parts|
  {
    if parts == [] then None
    else if IsDashMac(parts[0]) then Some(parts[0])
    else DashToken(parts[1..])
  }

  /** A line of `arp -a` answers for `ip`: it contains `ip` and an address-like token. */
  predicate WindowsLineMatches(line: string, ip: string) {
    Contains(line, ip) && DashToken(Split(line)).Some?
  }

  /** `00-11-22-33-44-55` becomes `00:11:22:33:44:55`, upper-cased. */
  function ColonMac(dashMac: string): string {
    Upper(Replace(dashMac, '-', ':'))
  }

  /** The Windows answer: the first address-like token of the first line that answers for `ip`. */
  function WindowsLookup(lines: seq<string>, ip: string): Option<string>
    decreases |lines|
  {
    if lines == [] then None
    else if WindowsLineMatches(lines[0], ip) then Some(ColonMac(DashToken(Split(lines[0])).value))
    else WindowsLookup(lines[1..], ip)
  }

  /** The Windows answer is taken from the first line that contains `ip` and an address-like token, and is `None` when there is none. */
  lemma {:induction false} WindowsLookupFirstMatch(lines: seq<string>, ip: string)
    ensures WindowsLookup(lines, ip).Some? <==> exists k :: 0 <= k < |lines| && WindowsLineMatches(lines[k], ip)
    ensures forall k :: 0 <= k < |lines| && WindowsLineMatches(lines[k], ip)
                        && (forall j :: 0 <= j < k ==> !WindowsLineMatches(lines[j], ip))
                    ==> WindowsLookup(lines, ip) == Some(ColonMac(DashToken(Split(lines[k])).value))
    decreases |lines|
  {
    if lines != [] {
      WindowsLookupFirstMatch(lines[1..], ip);
      if !WindowsLineMatches(lines[0], ip) {
        assert forall k :: 1 <= k < |lines| ==> lines[k] == lines[1..][k - 1];
        forall k | 0 <= k < |lines| && WindowsLineMatches(lines[k], ip)
                   && (forall j :: 0 <= j < k ==> !WindowsLineMatches(lines[j], ip))
          ensures WindowsLookup(lines, ip) == Some(ColonMac(DashToken(Split(lines[k])).value))
        {
          assert k >= 1;
          assert forall j :: 0 <= j < k - 1 ==> lines[1..][j] == lines[j + 1];
        }
      }
    }
  }

  /** The Windows branch, as the source scans the output: line by line and token by token, returning at the first match. */
  method WindowsArpLookup(lines: seq<string>, ip: string) returns (mac: Option<string>)
    ensures mac == WindowsLookup(lines, ip)
  {
    var i := 0;
    while i < |lines|
      invariant 0 <= i <= |lines|
      invariant WindowsLookup(lines[i..], ip) == WindowsLookup(lines, ip)
    {
      assert lines[i..][1..] == lines[i + 1..];
      if Contains(lines[i], ip) {
        var parts := Split(lines[i]);
        var j := 0;
        while j < |parts|
          invariant 0 <= j <= |parts|
          invariant DashToken(parts[j..]) == DashToken(parts)
        {
          assert parts[j..][1..] == parts[j + 1..];
          if Contains(parts[j], "-") && |parts[j]| == 17 {
            return Some(ColonMac(parts[j]));
          }
          j := j + 1;
        }
      }
      i := i + 1;
    }
    return None;
  }

  // ---------------------------------------------------------------------
  // Both platforms

  /** `_get_mac_from_system(ip)` / `_get_mac_from_arp_cache(ip)`: `None` when the table could not be read. */
  function SystemLookup(platform: Platform, output: Option<seq<string>>, ip: string): Option<string> {
    match output
    case None => None
    case Some(lines) => if platform == Windows then WindowsLookup(lines, ip) else LinuxLookup(lines, ip)
  }

  method GetMacFromSystem(platform: Platform, output: Option<seq<string>>, ip: string) returns (mac: Option<string>)
    ensures mac == SystemLookup(platform, output, ip)
  {
    if output.None? {
      return None;
    }
    if platform == Windows {
      mac := WindowsArpLookup(output.value, ip);
    } else {
      mac := LinuxArpLookup(output.value, ip);
    }
  }
}
