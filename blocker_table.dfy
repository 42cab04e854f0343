/**
 * The block table of wifi_blocker.py (`WiFiBlocker.blocked_devices`, a map
 * from target address to `{mac, active, success}`) and what each table
 * operation does to it, as functions of the table before the call: the
 * guarded insert of `block_device`, the removal of `unblock_device`, the
 * flag read and the `success` write of `_block_thread`, and the ARP frames
 * the spoofing and the restoring put on the wire.
 */
module BlockTable {
  import opened Wrappers
  import opened Text

  /** One table entry; the `thread` handle is not modelled. */
  datatype BlockEntry = BlockEntry(mac: string, active: bool, success: bool)

  type Table = map<string, BlockEntry>

  /** The `(success, message)` pair `block_device` returns. */
  datatype BlockResult = BlockResult(ok: bool, message: string)

  /**
   * An ARP reply (`op=2`) as handed to `send`. `hwsrc == None` is a frame
   * whose sender hardware address scapy fills in with this host's own.
   */
  datatype ArpPacket = ArpPacket(pdst: string, hwdst: string, psrc: string, hwsrc: Option<string>)

  const NPCAP_MISSING := "Npcap not installed"
  const IS_GATEWAY := "Cannot block gateway"
  const IS_SELF := "Cannot block yourself"
  const ALREADY_BLOCKED := "Already blocked"
  const NO_MAC := "MAC not found"
  const BLOCKING := "Blocking "

  /** The table holds `ip` with its `active` flag set. */
  predicate IsActive(t: Table, ip: string) {
    ip in t && t[ip].active
  }

  /**
   * The checks of `block_device`, in the order the source makes them:
   * capability, gateway, self, already active, and then the address the
   * system ARP table gives for the target (`mac`).
   */
  function BlockOutcome(t: Table, ip: string, gatewayIp: string, myIp: string, npcap: bool,
                        mac: Option<string>): (r: BlockResult)
    ensures r.ok <==> npcap && ip != gatewayIp && ip != myIp && !IsActive(t, ip) && Truthy(mac)
    ensures !npcap ==> r.message == NPCAP_MISSING
    ensures npcap && ip == gatewayIp ==> r.message == IS_GATEWAY
    ensures npcap && ip != gatewayIp && ip == myIp ==> r.message == IS_SELF
    ensures npcap && ip != gatewayIp && ip != myIp && IsActive(t, ip) ==> r.message == ALREADY_BLOCKED
    ensures npcap && ip != gatewayIp && ip != myIp && !IsActive(t, ip) && !Truthy(mac) ==> r.message == NO_MAC
    ensures r.ok ==> r.message == BLOCKING + mac.value
  {
    if !npcap then BlockResult(false, NPCAP_MISSING)
    else if ip == gatewayIp then BlockResult(false, IS_GATEWAY)
    else if ip == myIp then BlockResult(false, IS_SELF)
    else if IsActive(t, ip) then BlockResult(false, ALREADY_BLOCKED)
    else if !Truthy(mac) then BlockResult(false, NO_MAC)
    else BlockResult(true, BLOCKING + mac.value)
  }

  /** The table after `block_device`: a fresh active entry on success, the same table otherwise. */
  function BlockedTable(t: Table, ip: string, gatewayIp: string, myIp: string, npcap: bool,
                        mac: Option<string>): (r: Table)
    ensures BlockOutcome(t, ip, gatewayIp, myIp, npcap, mac).ok ==>
              r.Keys == t.Keys + {ip} && r[ip] == BlockEntry(mac.value, true, false)
              && forall other :: other in t && other != ip ==> r[other] == t[other]
    ensures !BlockOutcome(t, ip, gatewayIp, myIp, npcap, mac).ok ==> r == t
  {
    if BlockOutcome(t, ip, gatewayIp, myIp, npcap, mac).ok then t[ip := BlockEntry(mac.value, true, false)] else t
  }

  /** The table after `unblock_device`: the entry is gone whether or not the restore frames went out. */
  function UnblockedTable(t: Table, ip: string): (r: Table)
    ensures r.Keys == t.Keys - {ip}
    ensures forall other :: other in r ==> r[other] == t[other]
  {
    t - {ip}
  }

  /** The entries the table may hold: never the gateway or this host, always with an address. */
  predicate WellFormed(t: Table, gatewayIp: string, myIp: string) {
    && gatewayIp !in t
    && myIp !in t
    && forall ip :: ip in t ==> t[ip].mac != ""
  }

  /** `block_device` keeps the table well formed: the gateway and self guards, and the MAC check, see to it. */
  lemma BlockKeepsWellFormed(t: Table, ip: string, gatewayIp: string, myIp: string, npcap: bool, mac: Option<string>)
    requires WellFormed(t, gatewayIp, myIp)
    ensures WellFormed(BlockedTable(t, ip, gatewayIp, myIp, npcap, mac), gatewayIp, myIp)
  {
  }

  /** Blocking an address that is already being blocked is refused and changes nothing. */
  lemma BlockIsIdempotent(t: Table, ip: string, gatewayIp: string, myIp: string, npcap: bool,
                          mac: Option<string>, mac2: Option<string>)
    requires BlockOutcome(t, ip, gatewayIp, myIp, npcap, mac).ok
    ensures var t1 := BlockedTable(t, ip, gatewayIp, myIp, npcap, mac);
            BlockOutcome(t1, ip, gatewayIp, myIp, npcap, mac2) == BlockResult(false, ALREADY_BLOCKED)
            && BlockedTable(t1, ip, gatewayIp, myIp, npcap, mac2) == t1
  {
  }

  /** An inactive entry does not stop a new block: it is replaced by a fresh active one. */
  lemma BlockReplacesInactive(t: Table, ip: string, gatewayIp: string, myIp: string, mac: string)
    requires ip in t && !t[ip].active
    requires ip != gatewayIp && ip != myIp && mac != ""
    ensures BlockOutcome(t, ip, gatewayIp, myIp, true, Some(mac)).ok
    ensures BlockedTable(t, ip, gatewayIp, myIp, true, Some(mac))[ip] == BlockEntry(mac, true, false)
  {
  }

  /** Blocking an untracked address and unblocking it again gives back the table it started from. */
  lemma BlockThenUnblock(t: Table, ip: string, gatewayIp: string, myIp: string, npcap: bool, mac: Option<string>)
    requires ip !in t
    ensures UnblockedTable(BlockedTable(t, ip, gatewayIp, myIp, npcap, mac), ip) == t
  {
    var t1 := BlockedTable(t, ip, gatewayIp, myIp, npcap, mac);
    assert UnblockedTable(t1, ip).Keys == t.Keys;
  }

  /** Unblocking keeps the table well formed. */
  lemma UnblockKeepsWellFormed(t: Table, ip: string, gatewayIp: string, myIp: string)
    requires WellFormed(t, gatewayIp, myIp)
    ensures WellFormed(UnblockedTable(t, ip), gatewayIp, myIp)
  {
  }

  // ---------------------------------------------------------------------
  // The spoofing loop

  /** The counters of one `_block_thread` run. */
  datatype Counts = Counts(success: nat, fail: nat)

  /** `_block_thread`'s loop condition: the entry exists and is active. */
  predicate KeepsRunning(t: Table, ip: string) {
    IsActive(t, ip)
  }

  /** The counters after one pass of the loop: one more success when the spoof to the target went out, one more failure otherwise. */
  function CountStep(c: Counts, delivered: bool): (r: Counts)
    ensures r.success + r.fail == c.success + c.fail + 1
    ensures r.success == c.success + (if delivered then 1 else 0)
  {
    if delivered then Counts(c.success + 1, c.fail) else Counts(c.success, c.fail + 1)
  }

  /** The table after the loop ends: `success` set from the counter, and only if the entry is still there. */
  function FinishedTable(t: Table, ip: string, c: Counts): (r: Table)
    ensures r.Keys == t.Keys
    ensures ip in t ==> r[ip] == t[ip].(success := c.success > 0)
    ensures forall other :: other in t && other != ip ==> r[other] == t[other]
  {
    if ip in t then t[ip := t[ip].(success := c.success > 0)] else t
  }

  /** The counters after a run of passes with the given delivery outcomes. */
  function RunCounts(c: Counts, outcomes: seq<bool>): Counts
    decreases |outcomes|
  {
    if outcomes == [] then c else CountStep(RunCounts(c, outcomes[..|outcomes| - 1]), outcomes[|outcomes| - 1])
  }

  /** How many of the first frames of a run went out. */
  function Delivered(outcomes: seq<bool>): nat {
    |set k | 0 <= k < |outcomes| && outcomes[k]|
  }

  /**
   * From fresh counters, a run of passes counts one per pass, the successes
   * are the passes whose spoof went out, and the `success` flag written at
   * the end says whether any did.
   */
  lemma {:induction false} RunCountsTotals(outcomes: seq<bool>)
    ensures RunCounts(Counts(0, 0), outcomes).success + RunCounts(Counts(0, 0), outcomes).fail == |outcomes|
    ensures RunCounts(Counts(0, 0), outcomes).success == Delivered(outcomes)
    ensures RunCounts(Counts(0, 0), outcomes).success > 0 <==> exists k :: 0 <= k < |outcomes| && outcomes[k]
    decreases |outcomes|
  {
    if outcomes != [] {
      var init := outcomes[..|outcomes| - 1];
      RunCountsTotals(init);
      var last := |outcomes| - 1;
      var before := set k | 0 <= k < |init| && init[k];
      var after := set k | 0 <= k < |outcomes| && outcomes[k];
      if outcomes[last] {
        assert after == before + {last};
      } else {
        assert after == before;
      }
      if RunCounts(Counts(0, 0), outcomes).success > 0 {
        if Delivered(init) == 0 {
          assert outcomes[last];
        } else {
          var k :| 0 <= k < |init| && init[k];
          assert outcomes[k];
        }
      }
      if exists k :: 0 <= k < |outcomes| && outcomes[k] {
        var k :| 0 <= k < |outcomes| && outcomes[k];
        if k < last {
          assert init[k];
          assert k in before;
        }
      }
    }
  }

  /** The frame telling `targetIp` that `spoofIp` is at this host's address. */
  function Spoof(targetIp: string, targetMac: string, spoofIp: string): (p: ArpPacket)
    ensures p.hwsrc.None? && p.pdst == targetIp && p.psrc == spoofIp
  {
    ArpPacket(targetIp, targetMac, spoofIp, None)
  }

  /**
   * The six restore frames of `unblock_device`, in sending order: three
   * times, the target is told the gateway's true address and the gateway
   * the target's.
   */
  function RestoreFrames(ip: string, mac: string, gatewayIp: string, gatewayMac: string): (r: seq<ArpPacket>)
    ensures |r| == 6
    ensures forall k :: 0 <= k < 6 && k % 2 == 0 ==> r[k] == ArpPacket(ip, mac, gatewayIp, Some(gatewayMac))
    ensures forall k :: 0 <= k < 6 && k % 2 == 1 ==> r[k] == ArpPacket(gatewayIp, gatewayMac, ip, Some(mac))
  {
    seq(6, k requires 0 <= k < 6 =>
      if k % 2 == 0 then ArpPacket(ip, mac, gatewayIp, Some(gatewayMac))
      else ArpPacket(gatewayIp, gatewayMac, ip, Some(mac)))
  }

  /**
   * A restore frame never lies: each binds an address to its own hardware
   * address, where every spoof frame binds the spoofed address to this host's.
   */
  lemma RestoreFramesAreTruthful(ip: string, mac: string, gatewayIp: string, gatewayMac: string, n: nat)
    requires n <= 6
    ensures forall p :: p in RestoreFrames(ip, mac, gatewayIp, gatewayMac)[..n] ==>
              p.hwsrc.Some? && ((p.psrc == gatewayIp && p.hwsrc.value == gatewayMac) || (p.psrc == ip && p.hwsrc.value == mac))
  {
    var r := RestoreFrames(ip, mac, gatewayIp, gatewayMac);
    forall p | p in r[..n]
      ensures p.hwsrc.Some? && ((p.psrc == gatewayIp && p.hwsrc.value == gatewayMac) || (p.psrc == ip && p.hwsrc.value == mac))
    {
      var k :| 0 <= k < n && r[..n][k] == p;
      assert p == r[k];
    }
  }

  /** How many restore frames go out: none without Npcap or a known gateway address, else those before the send that raises. */
  function RestoreCount(npcap: bool, gatewayMac: Option<string>, raisesAt: Option<nat>): (n: nat)
    ensures n <= 6
    ensures !(npcap && Truthy(gatewayMac)) ==> n == 0
    ensures npcap && Truthy(gatewayMac) && raisesAt.None? ==> n == 6
  {
    if !(npcap && Truthy(gatewayMac)) then 0
    else match raisesAt
      case None => 6
      case Some(k) => if k < 6 then k else 6
  }

  /** The restore frames `unblock_device` puts on the wire: none for an untracked `ip`. */
  function RestoreSent(t: Table, ip: string, gatewayIp: string, gatewayMac: Option<string>, npcap: bool,
                       raisesAt: Option<nat>): (r: seq<ArpPacket>)
    ensures |r| == if ip in t then RestoreCount(npcap, gatewayMac, raisesAt) else 0
  {
    if ip in t then RestoreFrames(ip, t[ip].mac, gatewayIp, gatewayMac.GetOr(""))[..RestoreCount(npcap, gatewayMac, raisesAt)]
    else []
  }

  /** Where the send numbered `k` of `ip`'s restore raises, if it does. */
  function RaisePoint(raises: map<string, nat>, ip: string): Option<nat> {
    if ip in raises then Some(raises[ip]) else None
  }

  /** The frames of unblocking the tracked addresses `ips` one after the other. */
  function AllRestores(t: Table, ips: seq<string>, gatewayIp: string, gatewayMac: Option<string>, npcap: bool,
                       raises: map<string, nat>): seq<ArpPacket>
    decreases |ips|
  {
    if ips == [] then []
    else
      var last := ips[|ips| - 1];
      AllRestores(t, ips[..|ips| - 1], gatewayIp, gatewayMac, npcap, raises)
        + RestoreSent(t, last, gatewayIp, gatewayMac, npcap, RaisePoint(raises, last))
  }

  /**
   * A frame that binds either the gateway's address to the gateway's known
   * hardware address, or one of `ips` to the hardware address its table
   * entry records.
   */
  predicate TruthfulFrame(t: Table, ips: seq<string>, gatewayIp: string, gatewayMac: Option<string>, p: ArpPacket) {
    (p.psrc == gatewayIp && gatewayMac.Some? && p.hwsrc == gatewayMac)
    || exists ip :: ip in ips && ip in t && p.psrc == ip && p.hwsrc == Some(t[ip].mac)
  }

  /**
   * Unblocking never spoofs: every frame it sends carries its sender's true
   * hardware address, and each address gets at most six; with Npcap, a
   * known gateway address and no failing send, exactly six.
   */
  lemma {:induction false} AllRestoresAreTruthful(t: Table, ips: seq<string>, gatewayIp: string, gatewayMac: Option<string>,
                                                  npcap: bool, raises: map<string, nat>)
    requires forall k :: 0 <= k < |ips| ==> ips[k] in t
    ensures var r := AllRestores(t, ips, gatewayIp, gatewayMac, npcap, raises);
            |r| <= 6 * |ips|
            && (npcap && Truthy(gatewayMac) && (forall k :: 0 <= k < |ips| ==> ips[k] !in raises) ==> |r| == 6 * |ips|)
            && forall p :: p in r ==> TruthfulFrame(t, ips, gatewayIp, gatewayMac, p)
    decreases |ips|
  {
    if ips != [] {
      var init := ips[..|ips| - 1];
      var last := ips[|ips| - 1];
      AllRestoresAreTruthful(t, init, gatewayIp, gatewayMac, npcap, raises);
      var n := RestoreCount(npcap, gatewayMac, RaisePoint(raises, last));
      RestoreFramesAreTruthful(last, t[last].mac, gatewayIp, gatewayMac.GetOr(""), n);
      var head := AllRestores(t, init, gatewayIp, gatewayMac, npcap, raises);
      var tail := RestoreSent(t, last, gatewayIp, gatewayMac, npcap, RaisePoint(raises, last));
      forall p: ArpPacket | p in head + tail ensures TruthfulFrame(t, ips, gatewayIp, gatewayMac, p) {
        if p in head {
          if p.psrc != gatewayIp || p.hwsrc != gatewayMac {
            var ip :| ip in init && ip in t && p.psrc == ip && p.hwsrc == Some(t[ip].mac);
            assert ip in ips;
          }
        } else {
          assert last in ips;
          assert Truthy(gatewayMac);
        }
      }
    }
  }

  /** Once an address is unblocked its loop stops at the next check and writes no `success` flag. */
  lemma FinishedAfterUnblock(t: Table, ip: string, c: Counts)
    ensures !KeepsRunning(UnblockedTable(t, ip), ip)
    ensures FinishedTable(UnblockedTable(t, ip), ip, c) == UnblockedTable(t, ip)
  {
  }

  /** Writing the `success` flag keeps the table well formed. */
  lemma FinishedKeepsWellFormed(t: Table, ip: string, c: Counts, gatewayIp: string, myIp: string)
    requires WellFormed(t, gatewayIp, myIp)
    ensures WellFormed(FinishedTable(t, ip, c), gatewayIp, myIp)
  {
  }

  /**
   * The frames of one pass of `_block_thread`: the target is told the
   * gateway is here, and, when the gateway's address is known, the gateway
   * is told the target is here. A frame goes out only with Npcap and when
   * its `send` does not raise.
   */
  function SpoofFrames(targetIp: string, targetMac: string, gatewayIp: string, gatewayMac: Option<string>, npcap: bool,
                       spoofSent: bool, gatewaySent: bool): (r: seq<ArpPacket>)
    ensures |r| == (if npcap && spoofSent then 1 else 0) + (if Truthy(gatewayMac) && npcap && gatewaySent then 1 else 0)
    ensures forall p :: p in r ==> p.hwsrc.None?
    ensures npcap && spoofSent ==> r[0] == Spoof(targetIp, targetMac, gatewayIp)
    ensures Truthy(gatewayMac) && npcap && gatewaySent ==> r[|r| - 1] == Spoof(gatewayIp, gatewayMac.value, targetIp)
  {
    (if npcap && spoofSent then [Spoof(targetIp, targetMac, gatewayIp)] else [])
      + (if Truthy(gatewayMac) && npcap && gatewaySent then [Spoof(gatewayIp, gatewayMac.value, targetIp)] else [])
  }
}
