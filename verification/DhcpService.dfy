/** The message handlers and the server as methods over the lease engine.  Each handler is
    proved to have exactly the outcome of the corresponding function, and serving a whole
    sequence of events to reach exactly the state the run theorems speak about. */
module DhcpService {
  import opened Net
  import opened IpRange
  import opened LeaseModel
  import opened LeaseEngine
  import opened Dhcp4
  import opened Dhcp6
  import opened DhcpServer
  import opened Runs

  class Interface4 {
    const common: NetInterface

    constructor (common: NetInterface)
      ensures this.common == common
    {
      this.common := common;
    }

    method HandleDiscover(mac: Mac, env: Env) returns (reply: Reply4)
      requires common.Valid()
      modifies common, common.leasedOffsets, common.index
      ensures common.Valid()
      ensures Outcome4(common.State(), reply) == Dhcp4.HandleDiscover(old(common.State()), common.conf, mac, env)
    {
      var index, c := common.index, common.conf;
      if mac in common.leases {
        var r := common.leases[mac];
        index.heap := index.heap[r := index.heap[r].WithExpiry(env.now + c.ttl)];
        var l := index.heap[r];
        return Offer(mac, l.ip, l.hostname, LeaseTime(c, l, env.now));
      }
      var r, panicked := common.AllocateLease(mac, env);
      if r.None? {
        return Reply4.Silent;
      }
      var l := index.heap[r.value];
      reply := Offer(mac, l.ip, l.hostname, LeaseTime(c, l, env.now));
    }

    /** The in-place rename, the optional extension, and updateAndRespond. */
    method UpdateAndRespond(mac: Mac, host: string, renew: bool, now: int) returns (reply: Reply4)
      requires common.Valid() && mac in common.leases
      modifies common, common.index
      ensures common.Valid()
      ensures Outcome4(common.State(), reply) ==
              RenameAndRespond(old(common.State()), common.conf, mac, host, renew, now)
    {
      var index, c := common.index, common.conf;
      var r := common.leases[mac];
      var l := index.heap[r];
      if host != "" {
        l := l.(hostname := host);
      }
      if renew {
        l := l.WithExpiry(now + c.ttl);
      }
      index.heap := index.heap[r := l];
      assert common.State() == Put(old(common.State()), r, Renamed(old(index.heap[r]), c, host, renew, now));
      var ok := index.Update(r, common);
      if !ok {
        return Nak(mac);
      }
      reply := Ack(mac, l.ip, l.hostname, LeaseTime(c, l, now));
    }

    method HandleRequest(msg: Msg4, env: Env) returns (reply: Reply4)
      requires common.Valid() && msg.Request?
      modifies common, common.index
      ensures common.Valid()
      ensures Outcome4(common.State(), reply) == Dhcp4.HandleRequest(old(common.State()), common.conf, msg, env)
    {
      var c := common.conf;
      if Specified(msg.serverId) {
        if msg.serverId.value !in c.local || Specified(msg.ciaddr) {
          return Reply4.Silent;
        }
        if msg.mac !in common.leases || msg.reqIP != Some(common.index.heap[common.leases[msg.mac]].ip) {
          return Nak(msg.mac);
        }
        reply := UpdateAndRespond(msg.mac, msg.host, false, env.now);
      } else if Specified(msg.reqIP) {
        if !PrefixContains(c.subnet, msg.reqIP.value) {
          return Nak(msg.mac);
        }
        if Specified(msg.ciaddr) || msg.mac !in common.leases {
          return Reply4.Silent;
        }
        if msg.reqIP != Some(common.index.heap[common.leases[msg.mac]].ip) {
          return Nak(msg.mac);
        }
        reply := UpdateAndRespond(msg.mac, msg.host, false, env.now);
      } else {
        if msg.ciaddr.None? || !PrefixContains(c.subnet, msg.ciaddr.value) || msg.mac !in common.leases {
          return Reply4.Silent;
        }
        if msg.ciaddr != Some(common.index.heap[common.leases[msg.mac]].ip) {
          return Nak(msg.mac);
        }
        reply := UpdateAndRespond(msg.mac, msg.host, true, env.now);
      }
    }

    method Handle(msg: Msg4, env: Env) returns (reply: Reply4)
      requires common.Valid()
      modifies common, common.leasedOffsets, common.index
      ensures common.Valid()
      ensures Outcome4(common.State(), reply) == Handle4(old(common.State()), common.conf, msg, env)
    {
      var index, c := common.index, common.conf;
      reply := Reply4.Silent;
      match msg
      case Discover(mac) =>
        reply := HandleDiscover(mac, env);
      case Request(_, _, _, _, _) =>
        reply := HandleRequest(msg, env);
      case Release(mac, ciaddr) =>
        if ciaddr.Some? && PrefixContains(c.subnet, ciaddr.value) && mac in common.leases {
          var l := index.heap[common.leases[mac]];
          if l.ip == ciaddr.value {
            var _ := index.Remove(l, common);
          }
        }
      case Decline(mac, reqIP) =>
        if reqIP.Some? && PrefixContains(c.subnet, reqIP.value) && mac in common.leases {
          if index.heap[common.leases[mac]].ip == reqIP.value {
            var _ := common.BlockLease(common.leases[mac], env.now);
          }
        }
      case Unsupported(_) =>
    }
  }

  /** firstIANA */
  method FindIana(ianas: seq<seq<byte>>) returns (o: Option<Codec.Iana>)
    ensures o == FirstIana(ianas)
  {
    for i := 0 to |ianas|
      invariant FirstIana(ianas) == FirstIana(ianas[i..])
    {
      var d := Codec.Decode(ianas[i]);
      if d.Ok? {
        return Some(d.value);
      }
      assert ianas[i..][1..] == ianas[i + 1..];
    }
    o := None;
  }

  /** firstIANAAddr */
  method FindIanaAddr(ianas: seq<seq<byte>>) returns (o: Option<Codec.Iana>)
    ensures o == FirstIanaAddr(ianas)
  {
    for i := 0 to |ianas|
      invariant FirstIanaAddr(ianas) == FirstIanaAddr(ianas[i..])
    {
      var d := Codec.Decode(ianas[i]);
      if d.Ok? && Codec.RequestedAddr(d.value).Some? {
        return Some(d.value);
      }
      assert ianas[i..][1..] == ianas[i + 1..];
    }
    o := None;
  }

  /** The addresses of one option: whether all of them are on the link. */
  method ConfirmNested(subnet: Prefix, nested: seq<Codec.IaAddr>) returns (onLink: bool)
    ensures onLink <==> OnLink(subnet, nested)
  {
    for j := 0 to |nested|
      invariant forall n :: 0 <= n < j ==> PrefixContains(subnet, nested[n].addr)
    {
      if !PrefixContains(subnet, nested[j].addr) {
        return false;
      }
    }
    onLink := true;
  }

  predicate OnLink(subnet: Prefix, addrs: seq<Codec.IaAddr>) {
    forall i :: 0 <= i < |addrs| ==> PrefixContains(subnet, addrs[i].addr)
  }

  lemma {:induction false} OnLinkParts(subnet: Prefix, a: seq<Codec.IaAddr>, b: seq<Codec.IaAddr>)
    ensures OnLink(subnet, a + b) <==> OnLink(subnet, a) && OnLink(subnet, b)
    ensures a + b == [] <==> a == [] && b == []
  {
    assert |a + b| == |a| + |b|;
    assert forall i :: 0 <= i < |a| ==> (a + b)[i] == a[i];
    assert forall i :: 0 <= i < |b| ==> (a + b)[|a| + i] == b[i];
  }

  /** confirmAddrsOnLink: stops at the first address that is off the link. */
  method ConfirmAddrs(subnet: Prefix, ianas: seq<seq<byte>>) returns (allOnLink: bool, hasAddrs: bool)
    ensures hasAddrs == (NestedAddrs(ianas) != [])
    ensures allOnLink == OnLink(subnet, NestedAddrs(ianas))
  {
    hasAddrs := false;
    for i := 0 to |ianas|
      invariant NestedAddrs(ianas) != [] <==> hasAddrs || NestedAddrs(ianas[i..]) != []
      invariant OnLink(subnet, NestedAddrs(ianas)) <==> OnLink(subnet, NestedAddrs(ianas[i..]))
    {
      assert ianas[i..][1..] == ianas[i + 1..];
      var d := Codec.Decode(ianas[i]);
      OnLinkParts(subnet, if d.Ok? then d.value.nested else [], NestedAddrs(ianas[i + 1..]));
      if d.Ok? {
        hasAddrs := hasAddrs || d.value.nested != [];
        var onLink := ConfirmNested(subnet, d.value.nested);
        if !onLink {
          return false, true;
        }
      }
    }
    allOnLink := true;
  }

  class Interface6 {
    const common: NetInterface

    constructor (common: NetInterface)
      ensures this.common == common
    {
      this.common := common;
    }

    /** commit */
    method CommitLease(r: Ref, fqdn: string, now: int) returns (ok: bool)
      requires common.Valid() && r in common.index.heap
      modifies common, common.leasedOffsets, common.index
      ensures common.Valid()
      ensures var spec := Commit(old(common.State()), common.conf, r, fqdn, now);
              common.State() == spec.v && ok == spec.Committed?
    {
      var index, c := common.index, common.conf;
      var l := index.heap[r];
      if !c.validHost(l.hostname) {
        var hostname := fqdn;
        if !c.validHost(hostname) {
          hostname := c.genHost(l.ip);
        }
        l := l.(hostname := hostname);
      }
      l := l.WithExpiry(now + c.ttl);
      index.heap := index.heap[r := l];
      assert common.State() == Put(old(common.State()), r, Committing(old(index.heap[r]), c, fqdn, now));
      ok := index.Update(r, common);
      if !ok {
        var _ := common.RemoveLease(index.heap[r]);
      }
    }

    /** allocateForSolicit, which also begins ianaForRequest. */
    method Lease(mac: Mac, env: Env) returns (r: Option<Ref>, panicked: bool)
      requires common.Valid()
      modifies common, common.leasedOffsets, common.index
      ensures common.Valid()
      ensures var spec := LeaseFor(old(common.State()), common.conf, mac, env);
              && common.State() == spec.v
              && (r.Some? <==> spec.Leased?) && (r.Some? ==> r.value == spec.r)
              && (panicked <==> spec.Aborted?)
    {
      if mac in common.leases {
        return Some(common.leases[mac]), false;
      }
      r, panicked := common.AllocateLease(mac, env);
    }

    method HandleSolicit(msg: Msg6, env: Env) returns (reply: Reply6)
      requires common.Valid()
      modifies common, common.leasedOffsets, common.index
      ensures common.Valid()
      ensures Outcome6(common.State(), reply) == Dhcp6.HandleSolicit(old(common.State()), common.conf, msg, env)
    {
      if !NoServerId(msg) {
        return Silent6;
      }
      var iana := FindIana(msg.ianas);
      if iana.None? {
        return Silent6;
      }
      var id := iana.value.id;
      var r, panicked := Lease(msg.mac, env);
      if panicked {
        return Silent6;
      }
      if r.None? {
        return Advertise(msg.mac, IaStatus(id, STATUS_NO_ADDRS_AVAIL));
      }
      if !msg.rapid {
        return Advertise(msg.mac, IaLease(id, common.index.heap[r.value].ip));
      }
      var ok := CommitLease(r.value, msg.fqdn, env.now);
      if !ok {
        return Advertise(msg.mac, IaStatus(id, STATUS_NO_ADDRS_AVAIL));
      }
      reply := Answer(msg.mac, IaLease(id, common.index.heap[r.value].ip), None, true);
    }

    method CommitAndReply(r: Ref, msg: Msg6, id: Codec.U32, now: int) returns (reply: Reply6)
      requires common.Valid() && r in common.index.heap
      modifies common, common.leasedOffsets, common.index
      ensures common.Valid()
      ensures Outcome6(common.State(), reply) == CommitAndAnswer(old(common.State()), common.conf, r, msg, id, now)
    {
      var ok := CommitLease(r, msg.fqdn, now);
      if !ok {
        return Answer(msg.mac, IaStatus(id, STATUS_NO_ADDRS_AVAIL), None, false);
      }
      reply := Answer(msg.mac, IaLease(id, common.index.heap[r].ip), None, false);
    }

    method HandleRequest(msg: Msg6, env: Env) returns (reply: Reply6)
      requires common.Valid()
      modifies common, common.leasedOffsets, common.index
      ensures common.Valid()
      ensures Outcome6(common.State(), reply) == Dhcp6.HandleRequest(old(common.State()), common.conf, msg, env)
    {
      if !ForThisServer(common.conf, msg) {
        return Silent6;
      }
      var iana := FindIana(msg.ianas);
      if iana.None? {
        return Answer(msg.mac, NoIa, None, false);
      }
      var id, wanted := iana.value.id, Codec.RequestedAddr(iana.value);
      if wanted.Some? && !PrefixContains(common.conf.subnet, wanted.value) {
        return Answer(msg.mac, IaStatus(id, STATUS_NOT_ON_LINK), None, false);
      }
      var r, panicked := Lease(msg.mac, env);
      if panicked {
        return Silent6;
      }
      if r.None? {
        return Answer(msg.mac, IaStatus(id, STATUS_NO_ADDRS_AVAIL), None, false);
      }
      reply := CommitAndReply(r.value, msg, id, env.now);
    }

    method HandleUpdate(msg: Msg6, env: Env) returns (reply: Reply6)
      requires common.Valid()
      modifies common, common.leasedOffsets, common.index
      ensures common.Valid()
      ensures Outcome6(common.State(), reply) == Dhcp6.HandleUpdate(old(common.State()), common.conf, msg, env)
    {
      var accepted := if msg.kind.Renew? then ForThisServer(common.conf, msg) else NoServerId(msg);
      if !accepted {
        return Silent6;
      }
      var iana := FindIana(msg.ianas);
      if iana.None? {
        return Answer(msg.mac, NoIa, None, false);
      }
      var id, wanted := iana.value.id, Codec.RequestedAddr(iana.value);
      if wanted.None? {
        return Answer(msg.mac, NoIa, None, false);
      }
      if msg.mac !in common.leases || common.index.heap[common.leases[msg.mac]].ip != wanted.value {
        return Answer(msg.mac, IaStatus(id, STATUS_NO_BINDING), None, false);
      }
      reply := CommitAndReply(common.leases[msg.mac], msg, id, env.now);
    }

    method HandleGiveUp(msg: Msg6, env: Env) returns (reply: Reply6)
      requires common.Valid()
      modifies common, common.leasedOffsets, common.index
      ensures common.Valid()
      ensures Outcome6(common.State(), reply) == Dhcp6.HandleGiveUp(old(common.State()), common.conf, msg, env)
    {
      if !ForThisServer(common.conf, msg) {
        return Silent6;
      }
      var iana := FindIanaAddr(msg.ianas);
      if iana.None? {
        return Answer(msg.mac, NoIa, Some(STATUS_SUCCESS), false);
      }
      var id, ip := iana.value.id, Codec.RequestedAddr(iana.value).value;
      if msg.mac !in common.leases || common.index.heap[common.leases[msg.mac]].ip != ip {
        return Answer(msg.mac, IaStatus(id, STATUS_NO_BINDING), None, false);
      }
      var ok;
      if msg.kind.Decline? {
        ok := common.BlockLease(common.leases[msg.mac], env.now);
      } else {
        ok := common.index.Remove(common.index.heap[common.leases[msg.mac]], common);
      }
      if !ok {
        return Answer(msg.mac, IaStatus(id, STATUS_NO_BINDING), None, false);
      }
      reply := Answer(msg.mac, IaEmpty(id), Some(STATUS_SUCCESS), false);
    }

    method Handle(msg: Msg6, env: Env) returns (reply: Reply6)
      requires common.Valid()
      modifies common, common.leasedOffsets, common.index
      ensures common.Valid()
      ensures Outcome6(common.State(), reply) == Handle6(old(common.State()), common.conf, msg, env)
    {
      match msg.kind
      case Solicit => reply := HandleSolicit(msg, env);
      case Request => reply := HandleRequest(msg, env);
      case Confirm =>
        if !NoServerId(msg) {
          return Silent6;
        }
        var allOnLink, hasAddrs := ConfirmAddrs(common.conf.subnet, msg.ianas);
        if !hasAddrs {
          return Silent6;
        }
        reply := Answer(msg.mac, NoIa, if allOnLink then None else Some(STATUS_NOT_ON_LINK), false);
      case Renew => reply := HandleUpdate(msg, env);
      case Rebind => reply := HandleUpdate(msg, env);
      case InfoRequest =>
        if (msg.serverId.Some? && msg.serverId.value != common.conf.duid) || msg.ianas != [] || msg.iata {
          return Silent6;
        }
        reply := Answer(msg.mac, NoIa, None, false);
      case Release => reply := HandleGiveUp(msg, env);
      case Decline => reply := HandleGiveUp(msg, env);
    }
  }

  /** One interface for each configuration, over one empty index. */
  method NewInterfaces(confs: seq<Conf>, idx: LeaseIndex) returns (made: seq<NetInterface>, ghost repr: set<object>)
    requires idx.heap == map[] && idx.byAddr == map[] && idx.byName == map[]
    ensures |made| == |confs|
    ensures fresh(repr) && forall j :: 0 <= j < |made| ==> made[j] in repr && made[j].leasedOffsets in repr
    ensures forall j :: 0 <= j < |made| ==> made[j].conf == confs[j] && made[j].index == idx
    ensures forall j :: 0 <= j < |made| ==> made[j].leases == map[] && made[j].leasedOffsets.Contents() == {}
    ensures forall j, k :: 0 <= j < k < |made| ==> made[j] != made[k] && made[j].leasedOffsets != made[k].leasedOffsets
  {
    made, repr := [], {};
    for i := 0 to |confs|
      invariant |made| == i
      invariant fresh(repr) && forall j :: 0 <= j < i ==> made[j] in repr && made[j].leasedOffsets in repr
      invariant forall j :: 0 <= j < i ==> made[j].conf == confs[j] && made[j].index == idx
      invariant forall j :: 0 <= j < i ==> made[j].leases == map[] && made[j].leasedOffsets.Contents() == {}
      invariant forall j, k :: 0 <= j < k < i ==> made[j] != made[k] && made[j].leasedOffsets != made[k].leasedOffsets
    {
      var iface := new NetInterface(confs[i], idx);
      made := made + [iface];
      repr := repr + {iface, iface.leasedOffsets};
    }
  }

  /** DHCPServer: the interfaces over their common index. */
  class Service {
    const index: LeaseIndex
    const confs: seq<Conf>
    const ifaces: seq<NetInterface>

    ghost const Repr: set<object>

    /** The objects are distinct, and the interfaces are the configured ones. */
    ghost predicate Wired() {
      && |ifaces| == |confs|
      && (forall i :: 0 <= i < |ifaces| ==> ifaces[i].conf == confs[i] && ifaces[i].index == index)
      && (forall i, j :: 0 <= i < j < |ifaces| ==>
            ifaces[i] != ifaces[j] && ifaces[i].leasedOffsets != ifaces[j].leasedOffsets)
      && index in Repr && (forall i :: 0 <= i < |ifaces| ==> ifaces[i] in Repr && ifaces[i].leasedOffsets in Repr)
    }

    ghost function IfaceStates(): (s: seq<Iface>)
      requires Wired()
      reads Repr
      ensures |s| == |ifaces|
      ensures forall i :: 0 <= i < |s| ==> s[i] == Iface(ifaces[i].leases, ifaces[i].leasedOffsets.Contents())
    {
      seq(|ifaces|, i requires 0 <= i < |ifaces| reads Repr =>
        Iface(ifaces[i].leases, ifaces[i].leasedOffsets.Contents()))
    }

    ghost predicate Valid()
      reads Repr
    {
      Wired() && ClosedServer(DhcpServer.Server(index.heap, index.next, IfaceStates(), index.byAddr, index.byName))
    }

    ghost function State(): (s: DhcpServer.Server)
      requires Valid()
      reads Repr
      ensures |s.ifaces| == |confs|
    {
      DhcpServer.Server(index.heap, index.next, IfaceStates(), index.byAddr, index.byName)
    }

    /** newInterfaces and dbLoad. */
    constructor (confs: seq<Conf>, db: seq<Lease>)
      ensures Valid() && fresh(Repr) && this.confs == confs
      ensures State() == DhcpServer.Load(Empty(|confs|), confs, db) && StartedFrom(State(), confs, db)
    {
      var idx := new LeaseIndex();
      var made, repr := NewInterfaces(confs, idx);
      this.index, this.confs, this.ifaces, this.Repr := idx, confs, made, repr + {idx};
      new;
      assert IfaceStates() == Empty(|confs|).ifaces;
      LoadLeases(db);
      LoadedAll(confs, db);
    }

    /** indexLeases */
    method LoadLeases(db: seq<Lease>)
      requires Valid()
      modifies Repr
      ensures Valid() && State() == DhcpServer.Load(old(State()), confs, db)
    {
      for k := 0 to |db|
        invariant Valid() && DhcpServer.Load(State(), confs, db[k..]) == DhcpServer.Load(old(State()), confs, db)
      {
        assert db[k..][1..] == db[k + 1..];
        var _ := Administer(Add, db[k]);
      }
    }

    /** AddLease, UpdateStaticLease and RemoveLease: the interface is the first one whose
        range contains the address. */
    method Administer(op: AdminOp, l: Lease) returns (ok: bool)
      requires Valid()
      modifies Repr
      ensures Valid() && Result(State(), Done(ok)) == AdminStep(old(State()), confs, op, l)
    {
      var i := 0;
      while i < |ifaces| && !Contains(confs[i].range, l.ip)
        invariant 0 <= i <= |ifaces|
        invariant IfaceForFrom(confs, l.ip, 0) == IfaceForFrom(confs, l.ip, i)
      {
        i := i + 1;
      }
      if i == |ifaces| {
        return false;
      }
      ok := ApplyTo(i, op, l);
    }

    method ApplyTo(i: nat, op: AdminOp, l: Lease) returns (ok: bool)
      requires Valid() && i < |ifaces|
      modifies Repr
      ensures Valid()
      ensures var w := AdminView(ViewOf(old(State()), i), confs[i], op, l);
              ok == w.Some? && State() == if ok then Back(old(State()), i, w.value) else old(State())
    {
      ViewIsState(i);
      ok := ifaces[i].Apply(op, l);
      assert IfaceStates() == old(IfaceStates())[i := Iface(ifaces[i].leases, ifaces[i].leasedOffsets.Contents())];
    }

    lemma {:induction false} ViewIsState(i: nat)
      requires Valid() && i < |ifaces|
      ensures ifaces[i].Valid() && ifaces[i].State() == ViewOf(State(), i)
    {
      assert IfaceStates()[i] == Iface(ifaces[i].leases, ifaces[i].leasedOffsets.Contents());
    }

    /** Serves one event: a message on one interface, or a reset. */
    method Serve(ev: Event) returns (reply: Reply)
      requires Valid()
      modifies Repr
      ensures Valid()
      ensures Result(State(), reply) == Step(old(State()), confs, ev)
    {
      match ev
      case Reset =>
        Reset();
        reply := Nothing;
      case Admin(op, l) =>
        var ok := Administer(op, l);
        reply := Done(ok);
      case On4(i, msg, env) =>
        if i < |ifaces| {
          var r := Serve4(i, msg, env);
          reply := Sent4(r);
        } else {
          reply := Nothing;
        }
      case On6(i, msg, env) =>
        if i < |ifaces| {
          var r := Serve6(i, msg, env);
          reply := Sent6(r);
        } else {
          reply := Nothing;
        }
    }

    method Serve4(i: nat, msg: Msg4, env: Env) returns (r: Reply4)
      requires Valid() && i < |ifaces|
      modifies Repr
      ensures Valid()
      ensures var o := Handle4(ViewOf(old(State()), i), confs[i], msg, env);
              State() == Back(old(State()), i, o.v) && r == o.reply
    {
      ViewIsState(i);
      var h := new Interface4(ifaces[i]);
      r := h.Handle(msg, env);
      assert IfaceStates() == old(IfaceStates())[i := Iface(ifaces[i].leases, ifaces[i].leasedOffsets.Contents())];
    }

    method Serve6(i: nat, msg: Msg6, env: Env) returns (r: Reply6)
      requires Valid() && i < |ifaces|
      modifies Repr
      ensures Valid()
      ensures var o := Handle6(ViewOf(old(State()), i), confs[i], msg, env);
              State() == Back(old(State()), i, o.v) && r == o.reply
    {
      ViewIsState(i);
      var h := new Interface6(ifaces[i]);
      r := h.Handle(msg, env);
      assert IfaceStates() == old(IfaceStates())[i := Iface(ifaces[i].leases, ifaces[i].leasedOffsets.Contents())];
    }

    method Reset()
      requires Valid()
      modifies Repr
      ensures Valid() && State() == ResetServer(old(State()))
    {
      for i := 0 to |ifaces|
        invariant Wired()
        invariant index.heap == old(index.heap) && index.next == old(index.next)
        invariant index.byAddr == old(index.byAddr) && index.byName == old(index.byName)
        invariant forall j :: 0 <= j < |ifaces| ==>
            ifaces[j].leasedOffsets.Contents() == old(ifaces[j].leasedOffsets.Contents())
        invariant forall j :: 0 <= j < i ==> ifaces[j].leases == map[]
      {
        ifaces[i].leases := map[];
      }
      index.byAddr, index.byName := map[], map[];
      assert IfaceStates() == ResetServer(old(State())).ifaces;
    }

    /** Serves a sequence of events. */
    method Run(evs: seq<Event>) returns (replies: seq<Reply>)
      requires Valid()
      modifies Repr
      ensures Valid() && State() == StateAt(Stepper(confs), old(State()), evs, |evs|)
      ensures replies == OutputsOf(Stepper(confs), Replier(confs), old(State()), evs, |evs|)
    {
      replies := [];
      ghost var start: DhcpServer.Server := State();
      for k := 0 to |evs|
        invariant Valid() && State() == StateAt(Stepper(confs), start, evs, k)
        invariant replies == OutputsOf(Stepper(confs), Replier(confs), start, evs, k)
      {
        var reply := ServeStep(evs[k]);
        OneMoreStep(Stepper(confs), Replier(confs), start, evs, k, State(), reply);
        replies := replies + [reply];
      }
    }

    /** Serve, said in terms of the functions the run theorems use. */
    method ServeStep(ev: Event) returns (reply: Reply)
      requires Valid()
      modifies Repr
      ensures Valid()
      ensures State() == Stepper(confs)(old(State()), ev) && reply == Replier(confs)(old(State()), ev)
    {
      reply := Serve(ev);
    }
  }
}
