/**
 * `WiFiBlocker` of wifi_blocker.py as a class: the network facts found at
 * start-up are constants, the block table, the listing cache and the ARP
 * frames sent so far are the mutable state. The system ARP table and the
 * outcome of every `send` are inputs; one pass of the spoofing thread is a
 * step method the environment calls between the other operations.
 */
module Blocker {
  import opened Wrappers
  import opened Text
  import opened SystemArp
  import opened BlockTable
  import opened BlockerParse
  import Scanner

  /** What `_detect_network` finds: this host's address and hardware address, the gateway and its hardware address. */
  datatype NetworkInfo = NetworkInfo(myIp: string, myMac: string, gatewayIp: string, gatewayMac: Option<string>)

  /**
   * `_detect_network`. `localIp` is the address the socket trick reports
   * (`None` where it raises), `node` is `uuid.getnode()`, `routeOutput` the
   * text `_get_gateway_ip` reads and `arpOutput` the ARP table read for the
   * gateway. `None` is the `sys.exit(1)` of the source: no address, or a
   * fallback gateway that cannot be formed.
   */
  function DetectNetwork(platform: Platform, localIp: Option<string>, node: nat,
                         routeOutput: Option<seq<string>>, arpOutput: Option<seq<string>>): (r: Option<NetworkInfo>)
    ensures r.Some? <==> localIp.Some? && GatewayIp(platform, routeOutput, localIp).Some?
    ensures r.Some? ==> r.value.myIp == localIp.value && r.value.gatewayIp != ""
  {
    match localIp
    case None => None
    case Some(ip) =>
      match GatewayIp(platform, routeOutput, localIp)
      case None => None
      case Some(gateway) => Some(NetworkInfo(ip, Scanner.FormatMac(node), gateway, SystemLookup(platform, arpOutput, gateway)))
  }

  /**
   * The detected network: the own hardware address is canonical, the
   * gateway's is what the ARP table says for the gateway, and without a
   * route answer the gateway is ".1" in this host's /24.
   */
  lemma DetectedNetwork(platform: Platform, a: string, b: string, c: string, d: string, node: nat,
                        arpOutput: Option<seq<string>>)
    requires '.' !in a && '.' !in b && '.' !in c && '.' !in d
    ensures var info := DetectNetwork(platform, Some(a + "." + b + "." + c + "." + d), node, None, arpOutput);
            info.Some?
            && info.value.gatewayIp == a + "." + b + "." + c + ".1"
            && Scanner.IsCanonicalMac(info.value.myMac)
            && info.value.gatewayMac == SystemLookup(platform, arpOutput, a + "." + b + "." + c + ".1")
  {
    FallbackIsDotOne(a, b, c, d);
    Scanner.FormatMacIsCanonical(node);
  }

  /** One row of `block_multiple`'s summary: `{num, ip, mac, success, message}`. */
  datatype Report = Report(num: int, ip: string, mac: string, ok: bool, message: string)

  const NOT_AVAILABLE := "N/A"
  const INVALID_NUMBER := "Invalid number"

  /** The block table and the summary rows after handling some of the indices. */
  datatype Run = Run(table: Table, reports: seq<Report>)

  /**
   * `block_multiple`'s loop: each index in range blocks the listed device
   * (as `block_device` does, against the table left by the indices before
   * it), each index out of range gives an "Invalid number" row.
   */
  function BlockRun(t: Table, cached: seq<Listed>, indices: seq<int>, gatewayIp: string, myIp: string, npcap: bool,
                    platform: Platform, arpOutput: Option<seq<string>>): (r: Run)
    ensures |r.reports| == |indices|
    decreases |indices|
  {
    if indices == [] then Run(t, [])
    else
      var before := BlockRun(t, cached, indices[..|indices| - 1], gatewayIp, myIp, npcap, platform, arpOutput);
      var idx := indices[|indices| - 1];
      if 0 <= idx < |cached| then
        var ip := cached[idx].ip;
        var mac := SystemLookup(platform, arpOutput, ip);
        var res := BlockOutcome(before.table, ip, gatewayIp, myIp, npcap, mac);
        Run(BlockedTable(before.table, ip, gatewayIp, myIp, npcap, mac),
            before.reports + [Report(idx + 1, ip, cached[idx].mac, res.ok, res.message)])
      else
        Run(before.table, before.reports + [Report(idx + 1, NOT_AVAILABLE, NOT_AVAILABLE, false, INVALID_NUMBER)])
  }

  /** The table stays well formed and keeps its addresses; without the capture driver nothing is blocked. */
  lemma {:induction false} BlockRunTable(t: Table, cached: seq<Listed>, indices: seq<int>, gatewayIp: string, myIp: string,
                                         npcap: bool, platform: Platform, arpOutput: Option<seq<string>>)
    requires WellFormed(t, gatewayIp, myIp)
    ensures var r := BlockRun(t, cached, indices, gatewayIp, myIp, npcap, platform, arpOutput);
            WellFormed(r.table, gatewayIp, myIp)
            && t.Keys <= r.table.Keys
            && (!npcap ==> r.table == t && forall k :: 0 <= k < |indices| ==> !r.reports[k].ok)
    decreases |indices|
  {
    if indices != [] {
      var init := indices[..|indices| - 1];
      BlockRunTable(t, cached, init, gatewayIp, myIp, npcap, platform, arpOutput);
      var before := BlockRun(t, cached, init, gatewayIp, myIp, npcap, platform, arpOutput);
      var idx := indices[|indices| - 1];
      if 0 <= idx < |cached| {
        BlockKeepsWellFormed(before.table, cached[idx].ip, gatewayIp, myIp, npcap,
                             SystemLookup(platform, arpOutput, cached[idx].ip));
      }
    }
  }

  /**
   * Row k of the summary is numbered as typed (index + 1); it names the
   * listed device for an index in range and is an "Invalid number" failure
   * otherwise.
   */
  lemma {:induction false} BlockRunRows(t: Table, cached: seq<Listed>, indices: seq<int>, gatewayIp: string, myIp: string,
                                        npcap: bool, platform: Platform, arpOutput: Option<seq<string>>)
    ensures var r := BlockRun(t, cached, indices, gatewayIp, myIp, npcap, platform, arpOutput);
            (forall k :: 0 <= k < |indices| ==> r.reports[k].num == indices[k] + 1)
            && (forall k :: 0 <= k < |indices| && 0 <= indices[k] < |cached| ==>
                  r.reports[k].ip == cached[indices[k]].ip && r.reports[k].mac == cached[indices[k]].mac)
            && (forall k :: 0 <= k < |indices| && !(0 <= indices[k] < |cached|) ==>
                  r.reports[k] == Report(indices[k] + 1, NOT_AVAILABLE, NOT_AVAILABLE, false, INVALID_NUMBER))
    decreases |indices|
  {
    if indices != [] {
      BlockRunRows(t, cached, indices[..|indices| - 1], gatewayIp, myIp, npcap, platform, arpOutput);
    }
  }

  /** Every row that reports success names an actively blocked device. */
  predicate SuccessesActive(r: Run) {
    forall k :: 0 <= k < |r.reports| && r.reports[k].ok ==> IsActive(r.table, r.reports[k].ip)
  }

  /** A row that reports success leaves its device actively blocked: later blocks do not undo an earlier one. */
  lemma {:induction false} BlockRunSuccess(t: Table, cached: seq<Listed>, indices: seq<int>, gatewayIp: string, myIp: string,
                                           npcap: bool, platform: Platform, arpOutput: Option<seq<string>>)
    ensures SuccessesActive(BlockRun(t, cached, indices, gatewayIp, myIp, npcap, platform, arpOutput))
    decreases |indices|
  {
    if indices != [] {
      var init := indices[..|indices| - 1];
      BlockRunSuccess(t, cached, init, gatewayIp, myIp, npcap, platform, arpOutput);
      var before := BlockRun(t, cached, init, gatewayIp, myIp, npcap, platform, arpOutput);
      var r := BlockRun(t, cached, indices, gatewayIp, myIp, npcap, platform, arpOutput);
      forall k | 0 <= k < |r.reports| && r.reports[k].ok ensures IsActive(r.table, r.reports[k].ip) {
        if k < |before.reports| {
          assert r.reports[k] == before.reports[k];
        }
      }
    }
  }

  /** Typing the numbers of listed devices gives summary rows numbered as typed, in the order typed. */
  lemma TypedNumbersReported(t: Table, cached: seq<Listed>, ns: seq<nat>, gatewayIp: string, myIp: string,
                             npcap: bool, platform: Platform, arpOutput: Option<seq<string>>)
    requires WellFormed(t, gatewayIp, myIp)
    ensures var indices := DeviceNumbers(Split(Replace(Join(Rendered(ns), ","), ',', ' ')));
            var r := BlockRun(t, cached, indices, gatewayIp, myIp, npcap, platform, arpOutput);
            |r.reports| == |ns| && forall k :: 0 <= k < |ns| ==> r.reports[k].num == ns[k] + 1
  {
    ParseRendered(ns);
    BlockRunRows(t, cached, ns, gatewayIp, myIp, npcap, platform, arpOutput);
  }

  /** Unblocking one more address of the snapshot adds its restore frames at the end. */
  lemma AllRestoresSnoc(t: Table, ips: seq<string>, i: nat, gatewayIp: string, gatewayMac: Option<string>, npcap: bool,
                        raises: map<string, nat>)
    requires i < |ips|
    ensures AllRestores(t, ips[..i + 1], gatewayIp, gatewayMac, npcap, raises)
            == AllRestores(t, ips[..i], gatewayIp, gatewayMac, npcap, raises)
               + RestoreSent(t, ips[i], gatewayIp, gatewayMac, npcap, RaisePoint(raises, ips[i]))
  {
    assert ips[..i + 1][..i] == ips[..i];
  }

  lemma RestoreSentSame(t1: Table, t2: Table, ip: string, gatewayIp: string, gatewayMac: Option<string>, npcap: bool,
                        raisesAt: Option<nat>)
    requires ip in t1 <==> ip in t2
    requires ip in t1 ==> t1[ip] == t2[ip]
    ensures RestoreSent(t1, ip, gatewayIp, gatewayMac, npcap, raisesAt) == RestoreSent(t2, ip, gatewayIp, gatewayMac, npcap, raisesAt)
  {
  }

  /**
   * One more pass of `unblock_all`'s loop, on a snapshot whose addresses are
   * distinct: the table loses `ips[i]` and the frames gain its restores,
   * as read from the table before the loop.
   */
  lemma UnblockEachStep(t: Table, ips: seq<string>, i: nat, gatewayIp: string, gatewayMac: Option<string>, npcap: bool,
                        raises: map<string, nat>, o: seq<ArpPacket>, before: seq<ArpPacket>, after: seq<ArpPacket>)
    requires i < |ips| && Scanner.Distinct(ips)
    requires before == o + AllRestores(t, ips[..i], gatewayIp, gatewayMac, npcap, raises)
    requires after == before + RestoreSent(Without(t, ips[..i]), ips[i], gatewayIp, gatewayMac, npcap, RaisePoint(raises, ips[i]))
    ensures after == o + AllRestores(t, ips[..i + 1], gatewayIp, gatewayMac, npcap, raises)
    ensures UnblockedTable(Without(t, ips[..i]), ips[i]) == Without(t, ips[..i + 1])
  {
    var ip := ips[i];
    assert ips[..i + 1][..i] == ips[..i];
    WithoutUntouched(t, ips[..i], ip);
    AllRestoresSnoc(t, ips, i, gatewayIp, gatewayMac, npcap, raises);
    RestoreSentSame(Without(t, ips[..i]), t, ip, gatewayIp, gatewayMac, npcap, RaisePoint(raises, ip));
  }

  /** The table after unblocking the addresses `ips` one after the other. */
  function Without(t: Table, ips: seq<string>): Table
    decreases |ips|
  {
    if ips == [] then t else UnblockedTable(Without(t, ips[..|ips| - 1]), ips[|ips| - 1])
  }

  /** Unblocking other addresses leaves an address's entry as it was. */
  lemma {:induction false} WithoutUntouched(t: Table, ips: seq<string>, ip: string)
    requires ip !in ips
    ensures ip in Without(t, ips) <==> ip in t
    ensures ip in t ==> Without(t, ips)[ip] == t[ip]
    decreases |ips|
  {
    if ips != [] {
      WithoutUntouched(t, ips[..|ips| - 1], ip);
    }
  }

  /** Unblocking the addresses `ips` removes exactly them. */
  lemma {:induction false} WithoutKeys(t: Table, ips: seq<string>)
    ensures Without(t, ips).Keys == t.Keys - set j | 0 <= j < |ips| :: ips[j]
    decreases |ips|
  {
    if ips != [] {
      var init := ips[..|ips| - 1];
      WithoutKeys(t, init);
      var s0 := set j | 0 <= j < |init| :: init[j];
      var s1 := set j | 0 <= j < |ips| :: ips[j];
      assert s1 == s0 + {ips[|ips| - 1]} by {
        forall x | x in s1 ensures x in s0 + {ips[|ips| - 1]} {
          var j :| 0 <= j < |ips| && ips[j] == x;
          if j < |ips| - 1 {
            assert init[j] == x;
          }
        }
        forall x | x in s0 ensures x in s1 {
          var j :| 0 <= j < |init| && init[j] == x;
          assert ips[j] == x;
        }
      }
    }
  }

  /** The "Total: n/m" count of the summary. */
  function CountOk(reports: seq<Report>): (n: nat)
    ensures n <= |reports|
    decreases |reports|
  {
    if reports == [] then 0
    else CountOk(reports[..|reports| - 1]) + (if reports[|reports| - 1].ok then 1 else 0)
  }

  /** The summary loop of `block_multiple`: counts the rows that report success. */
  method CountSuccesses(results: seq<Report>) returns (blocked: nat)
    ensures blocked == CountOk(results)
  {
    var j := 0;
    blocked := 0;
    while j < |results|
      invariant 0 <= j <= |results|
      invariant blocked == CountOk(results[..j])
    {
      assert results[..j + 1][..j] == results[..j];
      if results[j].ok {
        blocked := blocked + 1;
      }
      j := j + 1;
    }
    assert results[..|results|] == results;
  }

  class WiFiBlocker {
    const platform: Platform
    const gatewayIp: string
    const gatewayMac: Option<string>
    const myIp: string
    const myMac: string
    const npcapAvailable: bool
    const hasAdmin: bool

    /** `blocked_devices`. */
    var blockedDevices: Table
    /** `cached_devices`, the last listing `scan_network` kept. */
    var cachedDevices: seq<Listed>
    /** Every ARP frame handed to `send` so far, in order. */
    var outbox: seq<ArpPacket>

    /** The block table never holds the gateway or this host, and always has an address per entry. */
    predicate Valid()
      reads this
    {
      WellFormed(blockedDevices, gatewayIp, myIp)
    }

    /**
     * `__init__` once `_detect_network` succeeded; `hasAdmin` is only
     * looked up when `checkPrivileges` asks for it.
     */
    constructor (info: NetworkInfo, platform: Platform, npcap: bool, checkPrivileges: bool, isAdmin: bool)
      ensures Valid()
      ensures this.platform == platform && gatewayIp == info.gatewayIp && gatewayMac == info.gatewayMac
      ensures myIp == info.myIp && myMac == info.myMac && npcapAvailable == npcap
      ensures hasAdmin == (checkPrivileges && isAdmin)
      ensures blockedDevices == map[] && cachedDevices == [] && outbox == []
    {
      this.platform := platform;
      gatewayIp := info.gatewayIp;
      gatewayMac := info.gatewayMac;
      myIp := info.myIp;
      myMac := info.myMac;
      npcapAvailable := npcap;
      hasAdmin := checkPrivileges && isAdmin;
      blockedDevices := map[];
      cachedDevices := [];
      outbox := [];
    }

    /**
     * `block_device`: the ordered guards, then the ARP table lookup, then
     * the fresh active entry. `arpOutput` is the ARP table the lookup reads.
     */
    method BlockDevice(targetIp: string, arpOutput: Option<seq<string>>) returns (r: BlockResult)
      requires Valid()
      modifies this`blockedDevices
      ensures Valid()
      ensures var mac := SystemLookup(platform, arpOutput, targetIp);
              r == BlockOutcome(old(blockedDevices), targetIp, gatewayIp, myIp, npcapAvailable, mac)
              && blockedDevices == BlockedTable(old(blockedDevices), targetIp, gatewayIp, myIp, npcapAvailable, mac)
    {
      ghost var mac0 := SystemLookup(platform, arpOutput, targetIp);
      BlockKeepsWellFormed(blockedDevices, targetIp, gatewayIp, myIp, npcapAvailable, mac0);
      if !npcapAvailable {
        return BlockResult(false, NPCAP_MISSING);
      }
      if targetIp == gatewayIp {
        return BlockResult(false, IS_GATEWAY);
      }
      if targetIp == myIp {
        return BlockResult(false, IS_SELF);
      }
      if targetIp in blockedDevices && blockedDevices[targetIp].active {
        return BlockResult(false, ALREADY_BLOCKED);
      }
      var targetMac := GetMacFromSystem(platform, arpOutput, targetIp);
      if !Truthy(targetMac) {
        return BlockResult(false, NO_MAC);
      }
      blockedDevices := blockedDevices[targetIp := BlockEntry(targetMac.value, true, false)];
      return BlockResult(true, BLOCKING + targetMac.value);
    }

    /** `_send_arp_spoof`: nothing without Npcap; otherwise the frame goes out unless `send` raises. */
    method SendArpSpoof(targetIp: string, targetMac: string, spoofIp: string, sendSucceeds: bool) returns (ok: bool)
      modifies this`outbox
      ensures ok == (npcapAvailable && sendSucceeds)
      ensures outbox == old(outbox) + (if ok then [Spoof(targetIp, targetMac, spoofIp)] else [])
    {
      if !npcapAvailable {
        return false;
      }
      if !sendSucceeds {
        return false;
      }
      outbox := outbox + [Spoof(targetIp, targetMac, spoofIp)];
      return true;
    }

    /**
     * One pass of `_block_thread` with counters `c`: while the entry is
     * active, spoof the target and (with a known gateway address) the
     * gateway, and count; once it is not, write `success` and stop.
     */
    method BlockThreadStep(targetIp: string, targetMac: string, c: Counts, spoofSent: bool, gatewaySent: bool)
      returns (next: Counts, running: bool)
      requires Valid()
      modifies this`blockedDevices, this`outbox
      ensures Valid()
      ensures running == KeepsRunning(old(blockedDevices), targetIp)
      ensures running ==> next == CountStep(c, npcapAvailable && spoofSent) && blockedDevices == old(blockedDevices)
                          && outbox == old(outbox) + SpoofFrames(targetIp, targetMac, gatewayIp, gatewayMac,
                                                                 npcapAvailable, spoofSent, gatewaySent)
      ensures !running ==> next == c && blockedDevices == FinishedTable(old(blockedDevices), targetIp, c)
                           && outbox == old(outbox)
    {
      if !(targetIp in blockedDevices && blockedDevices[targetIp].active) {
        FinishedKeepsWellFormed(blockedDevices, targetIp, c, gatewayIp, myIp);
        if targetIp in blockedDevices {
          blockedDevices := blockedDevices[targetIp := blockedDevices[targetIp].(success := c.success > 0)];
        }
        return c, false;
      }
      var delivered := SendArpSpoof(targetIp, targetMac, gatewayIp, spoofSent);
      if delivered {
        next := Counts(c.success + 1, c.fail);
      } else {
        next := Counts(c.success, c.fail + 1);
      }
      if Truthy(gatewayMac) {
        var _ := SendArpSpoof(gatewayIp, gatewayMac.value, targetIp, gatewaySent);
      }
      running := true;
    }

    /**
     * `unblock_device`: `false` and nothing done for an untracked address;
     * otherwise the restore frames (three rounds of two, with Npcap and a
     * known gateway address, up to the send numbered `raisesAt` if one
     * raises), then the entry is deleted and the result is `true`.
     */
    method UnblockDevice(targetIp: string, raisesAt: Option<nat>) returns (ok: bool)
      modifies this`blockedDevices, this`outbox
      ensures old(Valid()) ==> Valid()
      ensures ok <==> targetIp in old(blockedDevices)
      ensures blockedDevices == UnblockedTable(old(blockedDevices), targetIp)
      ensures outbox == old(outbox) + RestoreSent(old(blockedDevices), targetIp, gatewayIp, gatewayMac,
                                                  npcapAvailable, raisesAt)
    {
      if targetIp !in blockedDevices {
        assert blockedDevices == UnblockedTable(blockedDevices, targetIp);
        return false;
      }
      if Valid() {
        UnblockKeepsWellFormed(blockedDevices, targetIp, gatewayIp, myIp);
      }
      ghost var t0 := blockedDevices;
      blockedDevices := blockedDevices[targetIp := blockedDevices[targetIp].(active := false)];
      if npcapAvailable && Truthy(gatewayMac) {
        var targetMac := blockedDevices[targetIp].mac;
        SendRestores(targetIp, targetMac, raisesAt);
      }
      blockedDevices := blockedDevices - {targetIp};
      assert blockedDevices.Keys == t0.Keys - {targetIp};
      assert blockedDevices == UnblockedTable(t0, targetIp);
      return true;
    }

    /**
     * The restore block of `unblock_device`: three rounds, each telling the
     * target the gateway's true address and the gateway the target's,
     * stopping at the send numbered `raisesAt` if that one raises.
     */
    method SendRestores(targetIp: string, targetMac: string, raisesAt: Option<nat>)
      requires npcapAvailable && Truthy(gatewayMac)
      modifies this`outbox
      ensures outbox == old(outbox) + RestoreFrames(targetIp, targetMac, gatewayIp, gatewayMac.value)
                                        [..RestoreCount(npcapAvailable, gatewayMac, raisesAt)]
    {
      var gm := gatewayMac.value;
      ghost var frames := RestoreFrames(targetIp, targetMac, gatewayIp, gm);
      ghost var n := RestoreCount(npcapAvailable, gatewayMac, raisesAt);
      ghost var o := outbox;
      var round := 0;
      var stopped := false;
      while round < 3 && !stopped
        invariant 0 <= round <= 3
        invariant !stopped ==> 2 * round <= n && outbox == o + frames[..2 * round]
        invariant stopped ==> outbox == o + frames[..n]
        decreases 3 - round, if stopped then 0 else 1
      {
        if raisesAt == Some(2 * round) {
          stopped := true;
        } else {
          outbox := outbox + [ArpPacket(targetIp, targetMac, gatewayIp, Some(gm))];
          assert frames[..2 * round + 1] == frames[..2 * round] + [frames[2 * round]];
          if raisesAt == Some(2 * round + 1) {
            stopped := true;
          } else {
            outbox := outbox + [ArpPacket(gatewayIp, gm, targetIp, Some(targetMac))];
            assert frames[..2 * round + 2] == frames[..2 * round + 1] + [frames[2 * round + 1]];
            round := round + 1;
          }
        }
      }
      assert frames[..6] == frames;
    }

    /** `list(self.blocked_devices.keys())`: the addresses of the table, each once, in some order. */
    method KeySnapshot() returns (ips: seq<string>)
      ensures Scanner.Distinct(ips) && |ips| == |blockedDevices|
      ensures forall ip :: ip in ips <==> ip in blockedDevices
    {
      ips := [];
      var rest := blockedDevices.Keys;
      while rest != {}
        invariant rest <= blockedDevices.Keys
        invariant Scanner.Distinct(ips)
        invariant forall ip :: ip in ips <==> ip in blockedDevices && ip !in rest
        invariant |ips| + |rest| == |blockedDevices|
        decreases |rest|
      {
        var ip :| ip in rest;
        ips := ips + [ip];
        rest := rest - {ip};
      }
    }

    /**
     * `unblock_all`: unblocks every address of a snapshot of the table's
     * keys, in the snapshot's order, and leaves the table empty. `raises`
     * says, per address, which restore send raises. The snapshot is returned.
     */
    method UnblockAll(raises: map<string, nat>) returns (ips: seq<string>)
      requires Valid()
      modifies this`blockedDevices, this`outbox
      ensures Valid()
      ensures blockedDevices == map[]
      ensures Scanner.Distinct(ips) && |ips| == |old(blockedDevices)|
      ensures forall ip :: ip in ips <==> ip in old(blockedDevices)
      ensures outbox == old(outbox) + AllRestores(old(blockedDevices), ips, gatewayIp, gatewayMac, npcapAvailable, raises)
    {
      if |blockedDevices| == 0 {
        return [];
      }
      ips := KeySnapshot();
      ghost var t := blockedDevices;
      UnblockEach(ips, raises);
      WithoutKeys(t, ips);
      forall x | x in t ensures x in set j | 0 <= j < |ips| :: ips[j] {
        var j :| 0 <= j < |ips| && ips[j] == x;
      }
      assert blockedDevices.Keys == {};
    }

    /** The loop of `unblock_all`: `unblock_device` on each address of the snapshot, in order. */
    method UnblockEach(ips: seq<string>, raises: map<string, nat>)
      requires Scanner.Distinct(ips)
      modifies this`blockedDevices, this`outbox
      ensures blockedDevices == Without(old(blockedDevices), ips)
      ensures outbox == old(outbox) + AllRestores(old(blockedDevices), ips, gatewayIp, gatewayMac, npcapAvailable, raises)
    {
      ghost var t := blockedDevices;
      ghost var o := outbox;
      var i := 0;
      while i < |ips|
        invariant 0 <= i <= |ips|
        invariant blockedDevices == Without(t, ips[..i])
        invariant outbox == o + AllRestores(t, ips[..i], gatewayIp, gatewayMac, npcapAvailable, raises)
      {
        var ip := ips[i];
        ghost var prev := blockedDevices;
        ghost var before := outbox;
        var _ := UnblockDevice(ip, RaisePoint(raises, ip));
        UnblockEachStep(t, ips, i, gatewayIp, gatewayMac, npcapAvailable, raises, o, before, outbox);
        i := i + 1;
      }
      assert ips[..|ips|] == ips;
    }

    /**
     * `scan_network` after its ping sweep: the ARP table read in full, then
     * the filtered, annotated and sorted listing, which replaces
     * `cached_devices` unless the scan raised part-way.
     */
    method ScanNetwork(arpOutput: Option<seq<string>>) returns (devices: seq<Listed>)
      modifies this`cachedDevices
      ensures var out := ScanListing(myIp, gatewayIp, blockedDevices, ArpCache(platform, arpOutput));
              devices == out.devices && cachedDevices == (if out.updatesCache then out.devices else old(cachedDevices))
    {
      var prefix := SubnetPrefix(myIp);
      if prefix.None? {
        return [];
      }
      var entries := ReadArpCache(platform, arpOutput);
      var out := ScanListing(myIp, gatewayIp, blockedDevices, entries);
      devices := out.devices;
      if out.updatesCache {
        cachedDevices := devices;
      }
    }

    /**
     * `block_multiple`: nothing without a listing or without Npcap;
     * otherwise one summary row per index, blocking in index order, and the
     * count of rows that succeeded.
     */
    method BlockMultiple(indices: seq<int>, arpOutput: Option<seq<string>>) returns (reports: Option<seq<Report>>, blocked: nat)
      requires Valid()
      modifies this`blockedDevices
      ensures Valid()
      ensures cachedDevices == [] || !npcapAvailable ==> reports.None? && blockedDevices == old(blockedDevices) && blocked == 0
      ensures cachedDevices != [] && npcapAvailable ==>
                var run := BlockRun(old(blockedDevices), cachedDevices, indices, gatewayIp, myIp, npcapAvailable, platform, arpOutput);
                reports == Some(run.reports) && blockedDevices == run.table && blocked == CountOk(run.reports)
    {
      if |cachedDevices| == 0 {
        return None, 0;
      }
      if !npcapAvailable {
        return None, 0;
      }
      ghost var t := blockedDevices;
      var results: seq<Report> := [];
      var k := 0;
      while k < |indices|
        invariant Valid()
        invariant 0 <= k <= |indices|
        invariant var run := BlockRun(t, cachedDevices, indices[..k], gatewayIp, myIp, npcapAvailable, platform, arpOutput);
                  results == run.reports && blockedDevices == run.table
      {
        assert indices[..k + 1][..k] == indices[..k];
        var idx := indices[k];
        if 0 <= idx < |cachedDevices| {
          var device := cachedDevices[idx];
          var res := BlockDevice(device.ip, arpOutput);
          results := results + [Report(idx + 1, device.ip, device.mac, res.ok, res.message)];
        } else {
          results := results + [Report(idx + 1, NOT_AVAILABLE, NOT_AVAILABLE, false, INVALID_NUMBER)];
        }
        k := k + 1;
      }
      assert indices[..|indices|] == indices;
      blocked := CountSuccesses(results);
      return Some(results), blocked;
    }
  }

  /**
   * Creating a `WiFiBlocker`: `None` where `_detect_network` makes the
   * program exit, otherwise a blocker holding the detected network and an
   * empty table.
   */
  method NewWiFiBlocker(platform: Platform, npcap: bool, checkPrivileges: bool, isAdmin: bool, localIp: Option<string>,
                        node: nat, routeOutput: Option<seq<string>>, arpOutput: Option<seq<string>>)
    returns (b: Option<WiFiBlocker>)
    ensures b.None? <==> DetectNetwork(platform, localIp, node, routeOutput, arpOutput).None?
    ensures b.Some? ==>
              var info := DetectNetwork(platform, localIp, node, routeOutput, arpOutput).value;
              fresh(b.value) && b.value.Valid()
              && b.value.myIp == info.myIp && b.value.myMac == info.myMac
              && b.value.gatewayIp == info.gatewayIp && b.value.gatewayMac == info.gatewayMac
              && b.value.platform == platform && b.value.npcapAvailable == npcap
              && b.value.hasAdmin == (checkPrivileges && isAdmin)
              && b.value.blockedDevices == map[] && b.value.cachedDevices == [] && b.value.outbox == []
  {
    var info := DetectNetwork(platform, localIp, node, routeOutput, arpOutput);
    if info.None? {
      return None;
    }
    var blocker := new WiFiBlocker(info.value, platform, npcap, checkPrivileges, isAdmin);
    return Some(blocker);
  }
}
