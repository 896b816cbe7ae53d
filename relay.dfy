/**
 * The state record of a Teredo relay/client (`class TeredoRelay`) and its
 * constant queries. The record is a value: every query reads it and none
 * changes it.
 */
module Relay {
  import opened Bits
  import TeredoAddr

  /** An unsigned 2-bit bit-field (`unsigned state:2`). */
  newtype uint2 = x: int | 0 <= x < 4
  /** An unsigned 3-bit bit-field (`unsigned count:3`). */
  newtype uint3 = x: int | 0 <= x < 8

  /** A wall-clock deadline (`struct timeval`); only carried, never interpreted here. */
  datatype Timeval = Timeval(sec: int, usec: int)

  /** The eight random bytes a qualification probe carries (`uint8_t nonce[8]`). */
  type Nonce = s: seq<byte> | |s| == 8 witness seq(8, i => 0)

  /** Qualification probe bookkeeping: deadlines, nonce, phase and retry counter. */
  datatype Probe = Probe(next: Timeval, serv: Timeval, nonce: Nonce, state: uint2, count: uint3)

  /** The relay's own Teredo address, its probe, and the secondary server IPv4. */
  datatype TeredoRelay = TeredoRelay(addr: TeredoAddr.Address, probe: Probe, serverIp2: uint32)

  /** The probe phase value that `IsRunning` tests for: the relay runs only in phase 0. */
  const IdleState: uint2 := 0

  /** Assigning `v` to the 2-bit `state` field keeps its two low-order bits. */
  function StoreState(p: Probe, v: nat): (q: Probe)
    ensures q.state as int == v % 4
    ensures q.next == p.next && q.serv == p.serv && q.nonce == p.nonce && q.count == p.count
  {
    p.(state := (v % 4) as uint2)
  }

  /** Assigning `v` to the 3-bit `count` field keeps its three low-order bits. */
  function StoreCount(p: Probe, v: nat): (q: Probe)
    ensures q.count as int == v % 8
    ensures q.next == p.next && q.serv == p.serv && q.nonce == p.nonce && q.state == p.state
  {
    p.(count := (v % 8) as uint3)
  }

  function GetPrefix(r: TeredoRelay): (p: uint32)
    ensures Be32Bytes(p) == r.addr[TeredoAddr.PrefixAt..TeredoAddr.PrefixAt + 4]
  {
    TeredoAddr.Prefix(r.addr)
  }

  function GetServerIP(r: TeredoRelay): (ip: uint32)
    ensures Be32Bytes(ip) == r.addr[TeredoAddr.ServerAt..TeredoAddr.ServerAt + 4]
  {
    TeredoAddr.ServerIP(r.addr)
  }

  function GetServerIP2(r: TeredoRelay): (ip: uint32)
    ensures ip == r.serverIp2
  {
    r.serverIp2
  }

  predicate IsCone(r: TeredoRelay)
    ensures IsCone(r) <==> TeredoAddr.Flags(r.addr) >= TeredoAddr.ConeFlag
  {
    TeredoAddr.IsCone(r.addr)
  }

  function GetMappedPort(r: TeredoRelay): (p: uint16)
    ensures Be16Bytes(Not16(p)) == r.addr[TeredoAddr.PortAt..TeredoAddr.PortAt + 2]
  {
    TeredoAddr.MappedPort(r.addr)
  }

  function GetMappedIP(r: TeredoRelay): (ip: uint32)
    ensures Be32Bytes(Not32(ip)) == r.addr[TeredoAddr.IPv4At..TeredoAddr.IPv4At + 4]
  {
    TeredoAddr.MappedIP(r.addr)
  }

  /** The instance acts as a Teredo client: some byte of its server IPv4 is non-zero. */
  predicate IsClient(r: TeredoRelay)
    ensures IsClient(r) <==> exists i :: TeredoAddr.ServerAt <= i < TeredoAddr.ServerAt + 4 && r.addr[i] != 0
  {
    TeredoAddr.ServerIPZero(r.addr);
    GetServerIP(r) != 0
  }

  /** The instance acts as a pure relay: every byte of its server IPv4 is zero. */
  predicate IsRelay(r: TeredoRelay)
    ensures IsRelay(r) <==> forall i :: TeredoAddr.ServerAt <= i < TeredoAddr.ServerAt + 4 ==> r.addr[i] == 0
  {
    TeredoAddr.ServerIPZero(r.addr);
    GetServerIP(r) == 0
  }

  /**
   * The relay is running when its prefix is a valid Teredo prefix and its
   * probe is idle. Which prefixes are valid is decided by `validPrefix`.
   */
  predicate IsRunning(r: TeredoRelay, validPrefix: uint32 -> bool)
    ensures IsRunning(r, validPrefix) ==> validPrefix(GetPrefix(r)) && r.probe.state == IdleState
  {
    validPrefix(GetPrefix(r)) && r.probe.state == IdleState
  }

  /** Exactly one of IsClient and IsRelay holds, whatever the state. */
  lemma ClientXorRelay(r: TeredoRelay)
    ensures IsClient(r) != IsRelay(r)
  {
  }

  /** A client is exactly a relay whose embedded server IPv4 is non-zero. */
  lemma ClientIffServerIP(r: TeredoRelay)
    ensures IsClient(r) <==> GetServerIP(r) != 0
    ensures IsRelay(r) <==> GetServerIP(r) == 0
  {
  }

  /**
   * A relay runs exactly when its prefix is valid and its probe is in phase 0:
   * an unrecognised prefix is never running, nor is a probe in any non-zero
   * phase, and nothing else is needed.
   */
  lemma RunningIffValidPrefixAndIdleProbe(r: TeredoRelay, validPrefix: uint32 -> bool)
    ensures IsRunning(r, validPrefix) ==> validPrefix(GetPrefix(r)) && r.probe.state == IdleState
    ensures validPrefix(GetPrefix(r)) && r.probe.state == IdleState ==> IsRunning(r, validPrefix)
  {
  }

  /**
   * Whether the relay runs depends on the prefix bytes and the probe phase
   * alone: not on the rest of the address, the deadlines, the nonce, the
   * retry counter or the secondary server.
   */
  lemma RunningReadsPrefixAndPhase(r: TeredoRelay, s: TeredoRelay, validPrefix: uint32 -> bool)
    requires r.addr[TeredoAddr.PrefixAt..TeredoAddr.PrefixAt + 4] == s.addr[TeredoAddr.PrefixAt..TeredoAddr.PrefixAt + 4]
    requires r.probe.state == s.probe.state
    ensures IsRunning(r, validPrefix) == IsRunning(s, validPrefix)
  {
    TeredoAddr.ExtractorsReadOwnField(r.addr, s.addr);
  }

  /** The bit-fields hold a value in range unchanged. */
  lemma StoreInRange(p: Probe, v: nat)
    ensures v < 4 ==> StoreState(p, v).state as int == v
    ensures v < 8 ==> StoreCount(p, v).count as int == v
  {
  }

  /** A value four (eight) larger stores the same state (count): the bit-field wraps. */
  lemma StoreWraps(p: Probe, v: nat)
    ensures StoreState(p, v + 4) == StoreState(p, v)
    ensures StoreCount(p, v + 8) == StoreCount(p, v)
  {
    assert (v + 4) % 4 == v % 4 && (v + 8) % 8 == v % 8;
  }

  /** After storing `v` in the probe phase, the relay runs iff its prefix is valid and `v` is 0 modulo 4. */
  lemma RunningAfterStoreState(r: TeredoRelay, v: nat, validPrefix: uint32 -> bool)
    ensures IsRunning(r.(probe := StoreState(r.probe, v)), validPrefix)
        <==> validPrefix(GetPrefix(r)) && v % 4 == 0
  {
  }

  /** The retry counter never affects whether the relay runs. */
  lemma RunningIgnoresCount(r: TeredoRelay, v: nat, validPrefix: uint32 -> bool)
    ensures IsRunning(r.(probe := StoreCount(r.probe, v)), validPrefix) == IsRunning(r, validPrefix)
  {
  }

  /** GetServerIP2 returns the stored field, whatever the address is replaced with. */
  lemma ServerIP2IgnoresAddr(r: TeredoRelay, a: TeredoAddr.Address)
    ensures GetServerIP2(r.(addr := a)) == GetServerIP2(r) == r.serverIp2
  {
  }

  /** The address queries see neither the probe nor the secondary server. */
  lemma AddressQueriesIgnoreProbe(r: TeredoRelay, p: Probe, ip2: uint32)
    ensures var s := r.(probe := p, serverIp2 := ip2);
      GetPrefix(s) == GetPrefix(r) && GetServerIP(s) == GetServerIP(r) && IsCone(s) == IsCone(r)
      && GetMappedPort(s) == GetMappedPort(r) && GetMappedIP(s) == GetMappedIP(r)
      && IsClient(s) == IsClient(r) && IsRelay(s) == IsRelay(r)
  {
  }

  /**
   * The queries of a relay whose address was encoded from some fields return
   * those fields, port and IPv4 un-complemented.
   */
  lemma QueriesOfEncodedAddress(f: TeredoAddr.Fields, p: Probe, ip2: uint32)
    ensures var r := TeredoRelay(TeredoAddr.Encode(f), p, ip2);
      GetPrefix(r) == f.prefix && GetServerIP(r) == f.server
      && (IsCone(r) <==> f.flags >= TeredoAddr.ConeFlag)
      && GetMappedPort(r) == f.port && GetMappedIP(r) == f.ipv4
      && (IsClient(r) <==> f.server != 0)
  {
  }
}
