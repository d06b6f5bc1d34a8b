/** How long a blocked address stays blocked: the exact guard for DHCPv4 and DHCPv6 messages,
    for the lease calls and for whole runs of all of them. */
module Blocks {
  import opened Net
  import opened IpRange
  import opened LeaseModel
  import opened LeaseInvariant
  import opened Dhcp4
  import opened Dhcp6
  import opened DhcpServer
  import opened Runs

  /** The index has a blocked lease at x. */
  ghost predicate Barred(v: View, x: Addr) {
    x in v.byAddr && v.heap[v.byAddr[x]].IsBlocked()
  }

  /** The index files every lease under its own address. */
  ghost predicate Filed(v: View) {
    forall a :: a in v.byAddr ==> v.heap[v.byAddr[a]].ip == a
  }

  /** The step unblocked exactly the addresses in `freed`, and blocked none. */
  ghost predicate Bars(v: View, w: View, freed: set<Addr>) {
    Filed(w) && forall x :: Barred(w, x) <==> Barred(v, x) && x !in freed
  }

  // ---- The parts of a step ----

  lemma {:induction false} BarsCompose(u: View, v: View, w: View, freed: set<Addr>)
    requires Bars(u, v, freed) && Bars(v, w, {})
    ensures Bars(u, w, freed)
  {
  }

  /** An object that is not blocked changes, but not its address. */
  lemma {:induction false} TouchedBars(v: View, w: View, r: Ref)
    requires Filed(v) && r in v.heap && r in w.heap && w.byAddr == v.byAddr
    requires !v.heap[r].IsBlocked() && !w.heap[r].IsBlocked() && w.heap[r].ip == v.heap[r].ip
    requires forall q :: q in v.heap && q != r ==> q in w.heap && w.heap[q] == v.heap[q]
    ensures Bars(v, w, {})
  {
  }

  /** Only leases are lost or objects are added. */
  lemma {:induction false} GrownBars(v: View, w: View)
    requires Filed(v) && w.byAddr == v.byAddr && forall q :: q in v.heap ==> q in w.heap && w.heap[q] == v.heap[q]
    ensures Bars(v, w, {})
  {
  }

  /** A client's own lease is entered at its address. */
  lemma {:induction false} EnteredBars(v: View, w: View, r: Ref)
    requires Filed(v) && r in v.heap && w.heap == v.heap && !v.heap[r].IsBlocked()
    requires w.byAddr == v.byAddr[v.heap[r].ip := r] && !Barred(v, v.heap[r].ip)
    ensures Bars(v, w, {})
  {
  }

  /** One address is forgotten, and whatever happens to the object filed there. */
  lemma {:induction false} ForgottenBars(v: View, w: View, r: Ref)
    requires Filed(v) && r in v.heap && w.byAddr == v.byAddr - {v.heap[r].ip}
    requires forall q :: q in v.heap && q != r ==> q in w.heap && w.heap[q] == v.heap[q]
    ensures Bars(v, w, {v.heap[r].ip})
  {
  }

  lemma {:induction false} UpdateBars(v: View, c: Conf, m: Mac)
    requires Sound(v, c) && Filed(v) && m in v.leases && m != BLOCKED
    ensures var res := IndexUpdate(v, c, v.leases[m]);
            res.Some? ==> Bars(v, res.value, {})
  {
    var res := IndexUpdate(v, c, v.leases[m]);
    assert v.heap[v.leases[m]].hw == m;
    if res.Some? {
      EnteredBars(v, res.value, v.leases[m]);
    }
  }

  lemma {:induction false} RemoveBars(v: View, c: Conf, m: Mac)
    requires Sound(v, c) && Filed(v) && m in v.leases
    ensures var res := IndexRemove(v, c, v.heap[v.leases[m]]);
            res.Some? ==> Bars(v, res.value, {IpOf(v, m)})
  {
    var res := IndexRemove(v, c, v.heap[v.leases[m]]);
    if res.Some? {
      ForgottenBars(v, res.value, v.leases[m]);
    }
  }

  /** The address of the expired lease that an allocation would take over. */
  predicate Reclaims(v: View, c: Conf, env: Env, x: Addr) {
    && NextIP(c.range, v.bits).NoneFree? && FindExpired(v, env.order, env.now).Some?
    && IpOf(v, FindExpired(v, env.order, env.now).value) == x
  }

  ghost function TakenOver(v: View, c: Conf, env: Env): set<Addr> {
    if NextIP(c.range, v.bits).NoneFree? && FindExpired(v, env.order, env.now).Some? then
      {IpOf(v, FindExpired(v, env.order, env.now).value)}
    else {}
  }

  lemma {:induction false} AllocateBars(v: View, c: Conf, mac: Mac, env: Env)
    requires Sound(v, c) && Filed(v) && mac !in v.leases
    requires ReclaimSafe(v, c, env.now, env.order, env.probe, 0)
    ensures Bars(v, Allocate(v, c, mac, env.now, env.order, env.probe, 0).v, TakenOver(v, c, env))
  {
    var a := Allocate(v, c, mac, env.now, env.order, env.probe, 0);
    if NextIP(c.range, v.bits).Found? {
      FreshKeeps(v, c, mac, env.now, env.order, env.probe, 0);
      GrownBars(v, a.v);
    } else if NextIP(c.range, v.bits).NoneFree? && FindExpired(v, env.order, env.now).Some? {
      ReclaimKeeps(v, c, mac, env.now, env.order, env.probe, 0);
      ForgottenBars(v, a.v, v.leases[FindExpired(v, env.order, env.now).value]);
    } else {
      GrownBars(v, v);
    }
  }

  // ---- DHCPv4 ----

  /** The DHCPv4 message unblocks x: its holder releases it under a name the index knows, or
      a new client gets the expired lease of that address. */
  predicate Unblocks4(v: View, c: Conf, msg: Msg4, env: Env, x: Addr) {
    match msg
    case Discover(mac) => mac !in v.leases && Reclaims(v, c, env, x)
    case Release(mac, ciaddr) =>
      && ciaddr == Some(x) && PrefixContains(c.subnet, x) && HoldsAt(v, mac, x)
      && Lower(v.heap[v.leases[mac]].hostname) in v.byName
    case _ => false
  }

  lemma {:induction false} RenameBars(v: View, c: Conf, mac: Mac, host: string, renew: bool, now: int)
    requires Sound(v, c) && Filed(v) && mac in v.leases && mac != BLOCKED
    ensures Bars(v, RenameAndRespond(v, c, mac, host, renew, now).v, {})
  {
    var r := v.leases[mac];
    var l := Renamed(v.heap[r], c, host, renew, now);
    var w := Put(v, r, l);
    assert v.heap[r].hw == mac;
    TouchedBars(v, w, r);
    TouchKeeps(v, c, mac, l);
    UpdateBars(w, c, mac);
    if IndexUpdate(w, c, r).Some? {
      BarsCompose(v, w, IndexUpdate(w, c, r).value, {});
    }
  }

  lemma {:induction false} DiscoverBars(v: View, c: Conf, mac: Mac, env: Env)
    requires Sound(v, c) && Filed(v) && mac != BLOCKED && Safe4(v, c, Discover(mac), env)
    ensures Bars(v, HandleDiscover(v, c, mac, env).v, if mac in v.leases then {} else TakenOver(v, c, env))
  {
    if mac in v.leases {
      assert v.heap[v.leases[mac]].hw == mac;
      TouchedBars(v, HandleDiscover(v, c, mac, env).v, v.leases[mac]);
    } else {
      AllocateBars(v, c, mac, env);
    }
  }

  /** Blocking one more lease unblocks nothing. */
  lemma {:induction false} BlockBars(v: View, c: Conf, m: Mac, now: int)
    requires Sound(v, c) && Filed(v) && m in v.leases
    ensures var w := BlockLease(v, c, v.leases[m], now);
            && w.Some? && Filed(w.value) && (forall x :: Barred(v, x) ==> Barred(w.value, x))
            && (IpOf(v, m) in v.byAddr && v.byAddr[IpOf(v, m)] == v.leases[m] ==> Barred(w.value, IpOf(v, m)))
  {
    assert v.heap[v.leases[m]].hw == m;
    BlockShape(v, c, v.leases[m], now);
  }

  /** A blocked address stays blocked through a DHCPv4 message exactly if the message does not
      unblock it. */
  lemma {:induction false} Handle4Bars(v: View, c: Conf, msg: Msg4, env: Env)
    requires Sound(v, c) && Filed(v) && msg.mac != BLOCKED && Safe4(v, c, msg, env)
    ensures var w := Handle4(v, c, msg, env).v;
            Filed(w) && forall x :: Barred(v, x) ==> (Barred(w, x) <==> !Unblocks4(v, c, msg, env, x))
  {
    match msg
    case Discover(mac) => DiscoverBars(v, c, mac, env);
    case Request(_, _, _, _, _) =>
      RequestRoutes(v, c, msg, env);
      if msg.mac in v.leases { RenameBars(v, c, msg.mac, msg.host, Renewing(msg), env.now); }
    case Release(mac, ciaddr) =>
      if mac in v.leases { RemoveBars(v, c, mac); }
    case Decline(mac, reqIP) =>
      if mac in v.leases { BlockBars(v, c, mac, env.now); }
    case Unsupported(_) =>
  }

  // ---- DHCPv6 ----

  /** The DHCPv6 message unblocks x, in the same two ways. */
  predicate Unblocks6(v: View, c: Conf, msg: Msg6, env: Env, x: Addr) {
    || (Allocates(v, c, msg) && Reclaims(v, c, env, x))
    || (&& msg.kind.Release? && ForThisServer(c, msg)
        && FirstIanaAddr(msg.ianas).Some? && Codec.RequestedAddr(FirstIanaAddr(msg.ianas).value) == Some(x)
        && HoldsAt(v, msg.mac, x) && Lower(v.heap[v.leases[msg.mac]].hostname) in v.byName)
  }

  lemma {:induction false} CommitBars(v: View, c: Conf, m: Mac, fqdn: string, now: int)
    requires Sound(v, c) && Filed(v) && m in v.leases && m != BLOCKED
    ensures Bars(v, Commit(v, c, v.leases[m], fqdn, now).v, {})
  {
    var r := v.leases[m];
    var l := Committing(v.heap[r], c, fqdn, now);
    var w := Put(v, r, l);
    assert v.heap[r].hw == m;
    TouchedBars(v, w, r);
    TouchKeeps(v, c, m, l);
    UpdateBars(w, c, m);
    var u := Commit(v, c, r, fqdn, now).v;
    if IndexUpdate(w, c, r).None? { GrownBars(w, u); }
    BarsCompose(v, w, u, {});
  }

  lemma {:induction false} LeaseForBars(v: View, c: Conf, mac: Mac, env: Env)
    requires Sound(v, c) && Filed(v)
    requires mac in v.leases || ReclaimSafe(v, c, env.now, env.order, env.probe, 0)
    ensures var a := LeaseFor(v, c, mac, env);
            && Bars(v, a.v, if mac in v.leases then {} else TakenOver(v, c, env))
            && Sound(a.v, c) && (a.Leased? ==> mac in a.v.leases && a.v.leases[mac] == a.r)
  {
    LeaseForIs(v, c, mac, env);
    if mac in v.leases { GrownBars(v, v); } else { AllocateBars(v, c, mac, env); }
  }

  lemma {:induction false} SolicitBars(v: View, c: Conf, msg: Msg6, env: Env)
    requires Sound(v, c) && Filed(v) && msg.mac != BLOCKED && msg.kind.Solicit? && Safe6(v, c, msg, env)
    ensures Bars(v, HandleSolicit(v, c, msg, env).v, if Allocates(v, c, msg) then TakenOver(v, c, env) else {})
  {
    if NoServerId(msg) && FirstIana(msg.ianas).Some? {
      LeaseForBars(v, c, msg.mac, env);
      var a := LeaseFor(v, c, msg.mac, env);
      if a.Leased? && msg.rapid {
        CommitBars(a.v, c, msg.mac, msg.fqdn, env.now);
        var freed := if msg.mac in v.leases then {} else TakenOver(v, c, env);
        BarsCompose(v, a.v, Commit(a.v, c, a.r, msg.fqdn, env.now).v, freed);
      }
    } else {
      GrownBars(v, v);
    }
  }

  lemma {:induction false} IanaForRequestBars(v: View, c: Conf, msg: Msg6, id: Codec.U32, env: Env)
    requires Sound(v, c) && Filed(v) && msg.mac != BLOCKED
    requires msg.mac in v.leases || ReclaimSafe(v, c, env.now, env.order, env.probe, 0)
    ensures Bars(v, IanaForRequest(v, c, msg, id, env).v, if msg.mac in v.leases then {} else TakenOver(v, c, env))
  {
    LeaseForBars(v, c, msg.mac, env);
    var a := LeaseFor(v, c, msg.mac, env);
    if a.Leased? {
      CommitBars(a.v, c, msg.mac, msg.fqdn, env.now);
      var freed := if msg.mac in v.leases then {} else TakenOver(v, c, env);
      BarsCompose(v, a.v, Commit(a.v, c, a.r, msg.fqdn, env.now).v, freed);
    }
  }

  lemma {:induction false} RequestBars(v: View, c: Conf, msg: Msg6, env: Env)
    requires Sound(v, c) && Filed(v) && msg.mac != BLOCKED && msg.kind.Request? && Safe6(v, c, msg, env)
    ensures Bars(v, Dhcp6.HandleRequest(v, c, msg, env).v, if Allocates(v, c, msg) then TakenOver(v, c, env) else {})
  {
    GrownBars(v, v);
    var iana := FirstIana(msg.ianas);
    if iana.Some? && ForThisServer(c, msg) {
      var wanted := Codec.RequestedAddr(iana.value);
      if wanted.Some? ==> PrefixContains(c.subnet, wanted.value) {
        assert Dhcp6.HandleRequest(v, c, msg, env) == IanaForRequest(v, c, msg, iana.value.id, env);
        IanaForRequestBars(v, c, msg, iana.value.id, env);
      }
    }
  }

  lemma {:induction false} UpdateMessageBars(v: View, c: Conf, msg: Msg6, env: Env)
    requires Sound(v, c) && Filed(v) && msg.mac != BLOCKED && (msg.kind.Renew? || msg.kind.Rebind?)
    ensures Bars(v, HandleUpdate(v, c, msg, env).v, {})
  {
    GrownBars(v, v);
    var iana := FirstIana(msg.ianas);
    if iana.Some? && msg.mac in v.leases {
      IanaForUpdateBars(v, c, msg, iana.value, env);
      assert HandleUpdate(v, c, msg, env).v == v ||
             HandleUpdate(v, c, msg, env) == IanaForUpdate(v, c, msg, iana.value, env);
    } else {
      assert HandleUpdate(v, c, msg, env).v == v;
    }
  }

  lemma {:induction false} IanaForUpdateBars(v: View, c: Conf, msg: Msg6, iana: Codec.Iana, env: Env)
    requires Sound(v, c) && Filed(v) && msg.mac != BLOCKED && msg.mac in v.leases
    ensures Bars(v, IanaForUpdate(v, c, msg, iana, env).v, {})
  {
    GrownBars(v, v);
    CommitBars(v, c, msg.mac, msg.fqdn, env.now);
    var w := IanaForUpdate(v, c, msg, iana, env).v;
    assert w == v || w == Commit(v, c, v.leases[msg.mac], msg.fqdn, env.now).v;
  }

  lemma {:induction false} GiveUpBars(v: View, c: Conf, msg: Msg6, env: Env)
    requires Sound(v, c) && Filed(v) && (msg.kind.Release? || msg.kind.Decline?)
    ensures var w := HandleGiveUp(v, c, msg, env).v;
            Filed(w) && forall x :: Barred(v, x) ==> (Barred(w, x) <==> !Unblocks6(v, c, msg, env, x))
  {
    if msg.mac in v.leases {
      if msg.kind.Release? { RemoveBars(v, c, msg.mac); } else { BlockBars(v, c, msg.mac, env.now); }
    }
  }

  /** A blocked address stays blocked through a DHCPv6 message exactly if the message does not
      unblock it. */
  lemma {:induction false} Handle6Bars(v: View, c: Conf, msg: Msg6, env: Env)
    requires Sound(v, c) && Filed(v) && msg.mac != BLOCKED && Safe6(v, c, msg, env)
    ensures var w := Handle6(v, c, msg, env).v;
            Filed(w) && forall x :: Barred(v, x) ==> (Barred(w, x) <==> !Unblocks6(v, c, msg, env, x))
  {
    match msg.kind
    case Solicit => SolicitBars(v, c, msg, env);
    case Request => RequestBars(v, c, msg, env);
    case Confirm =>
    case Renew => UpdateMessageBars(v, c, msg, env);
    case Rebind => UpdateMessageBars(v, c, msg, env);
    case InfoRequest =>
    case Release => GiveUpBars(v, c, msg, env);
    case Decline => GiveUpBars(v, c, msg, env);
  }

  // ---- The lease calls ----

  /** An accepted removal names x, or an accepted update moves a lease away from x. */
  predicate UnblocksBy(v: View, op: AdminOp, l: Lease, x: Addr) {
    && !Rejects(v, op, l)
    && match op
       case Add => false
       case Update => IpOf(v, l.hw) == x && l.ip != x
       case Remove => l.ip == x
  }

  /** A blocked address stays blocked through an accepted call exactly if the call does not
      unblock it. */
  lemma {:induction false} AdminBars(v: View, c: Conf, op: AdminOp, l: Lease)
    requires Filed(v) && AdminView(v, c, op, l).Some?
    ensures var w := AdminView(v, c, op, l).value;
            Filed(w) && forall x :: Barred(v, x) ==> (Barred(w, x) <==> !UnblocksBy(v, op, l, x))
  {
    RejectedIff(v, c, op, l);
    match op
    case Add =>
      CopyAdded(v, c, l);
      AddedBars(v, AdminView(v, c, op, l).value, Ref(c.id, v.next), l);
    case Update =>
      CopyUpdated(v, c, l);
      MovedBars(v, AdminView(v, c, op, l).value, Ref(c.id, v.next), l, IpOf(v, l.hw));
    case Remove =>
  }

  lemma {:induction false} AddedBars(v: View, w: View, r: Ref, l: Lease)
    requires Filed(v) && r !in v.heap && l.ip !in v.byAddr
    requires w.heap == v.heap[r := l] && w.byAddr == v.byAddr[l.ip := r]
    ensures Filed(w) && forall x :: Barred(v, x) ==> Barred(w, x)
  {
  }

  lemma {:induction false} MovedBars(v: View, w: View, r: Ref, l: Lease, from: Addr)
    requires Filed(v) && r !in v.heap && (l.ip in v.byAddr ==> v.heap[v.byAddr[l.ip]].hw == l.hw)
    requires w.heap == v.heap[r := l] && w.byAddr == (v.byAddr - {from})[l.ip := r]
    ensures Filed(w) && forall x :: Barred(v, x) ==> (Barred(w, x) <==> !(x == from && l.ip != x))
  {
  }

  // ---- The whole server ----

  ghost predicate BarredIn(s: Server, x: Addr) {
    x in s.byAddr && s.heap[s.byAddr[x]].IsBlocked()
  }

  ghost predicate FiledServer(s: Server) {
    forall a :: a in s.byAddr ==> s.heap[s.byAddr[a]].ip == a
  }

  /** The event unblocks x. */
  predicate Unblocks(s: Server, cs: seq<Conf>, ev: Event, x: Addr)
    requires |cs| == |s.ifaces|
  {
    match ev
    case Reset => true
    case Admin(op, l) =>
      var i := IfaceFor(cs, l.ip);
      i.Some? && UnblocksBy(ViewOf(s, i.value), op, l, x)
    case On4(i, msg, env) => i < |cs| && Unblocks4(ViewOf(s, i), cs[i], msg, env, x)
    case On6(i, msg, env) => i < |cs| && Unblocks6(ViewOf(s, i), cs[i], msg, env, x)
  }

  /** No client sends the all-zero hardware address that marks blocked leases. */
  predicate RealClient(ev: Event) {
    (ev.On4? ==> ev.msg4.mac != BLOCKED) && (ev.On6? ==> ev.msg6.mac != BLOCKED)
  }

  lemma {:induction false} BackBars(s: Server, i: nat, w: View)
    requires i < |s.ifaces| && Grows(ViewOf(s, i), w)
    ensures forall x :: BarredIn(s, x) <==> Barred(ViewOf(s, i), x)
    ensures forall x :: BarredIn(Back(s, i, w), x) <==> Barred(w, x)
    ensures FiledServer(s) <==> Filed(ViewOf(s, i))
    ensures FiledServer(Back(s, i, w)) <==> Filed(w)
  {
  }

  lemma {:induction false} CallBars(s: Server, cs: seq<Conf>, op: AdminOp, l: Lease)
    requires |cs| == |s.ifaces| && FiledServer(s)
    ensures var t := AdminStep(s, cs, op, l).s;
            && FiledServer(t)
            && forall x :: BarredIn(s, x) ==> (BarredIn(t, x) <==> !Unblocks(s, cs, Admin(op, l), x))
  {
    CallOutcome(s, cs, op, l);
    var found := IfaceFor(cs, l.ip);
    if found.Some? {
      var v, c := ViewOf(s, found.value), cs[found.value];
      RejectedIff(v, c, op, l);
      if AdminView(v, c, op, l).Some? {
        BackBars(s, found.value, AdminView(v, c, op, l).value);
        AdminBars(v, c, op, l);
      }
    }
  }

  /** A blocked address stays blocked through any safe event exactly if the event does not
      unblock it. */
  lemma {:induction false} StepBars(s: Server, cs: seq<Conf>, ev: Event)
    requires SoundServer(s, cs) && FiledServer(s) && StepSafe(s, cs, ev) && RealClient(ev)
    ensures var t := Step(s, cs, ev).s;
            FiledServer(t) && forall x :: BarredIn(s, x) ==> (BarredIn(t, x) <==> !Unblocks(s, cs, ev, x))
  {
    match ev
    case Reset =>
    case Admin(op, l) => CallBars(s, cs, op, l);
    case On4(i, msg, env) =>
      if i < |cs| {
        BackBars(s, i, Handle4(ViewOf(s, i), cs[i], msg, env).v);
        assert Sound(ViewOf(s, i), cs[i]);
        Handle4Bars(ViewOf(s, i), cs[i], msg, env);
      }
    case On6(i, msg, env) =>
      if i < |cs| {
        BackBars(s, i, Handle6(ViewOf(s, i), cs[i], msg, env).v);
        assert Sound(ViewOf(s, i), cs[i]);
        Handle6Bars(ViewOf(s, i), cs[i], msg, env);
      }
  }

  /** The reply gives x to a client: a DHCPACK, or a DHCPv6 Reply with the address. */
  predicate Assigns(reply: Reply, x: Addr) {
    || (reply.Sent4? && reply.r4.Ack? && reply.r4.ip == x)
    || (reply.Sent6? && reply.r6.Answer? && reply.r6.ia.IaLease? && reply.r6.ia.addr == x)
  }

  /** What a safe event assigns is not blocked afterwards. */
  lemma {:induction false} AssignedNotBarred(s: Server, cs: seq<Conf>, ev: Event, x: Addr)
    requires SoundServer(s, cs) && StepSafe(s, cs, ev) && RealClient(ev)
    requires Assigns(Step(s, cs, ev).reply, x)
    ensures !BarredIn(Step(s, cs, ev).s, x)
  {
    StepSoundIff(s, cs, ev);
  }

  /** A client declines the address x that it holds and that the index has as its lease. */
  ghost predicate Declines4(v: View, c: Conf, msg: Msg4, x: Addr) {
    && msg.Decline? && msg.reqIP == Some(x) && PrefixContains(c.subnet, x)
    && HoldsAt(v, msg.mac, x) && x in v.byAddr && v.byAddr[x] == v.leases[msg.mac]
  }

  ghost predicate Declines6(v: View, c: Conf, msg: Msg6, x: Addr) {
    && msg.kind.Decline? && ForThisServer(c, msg)
    && FirstIanaAddr(msg.ianas).Some? && Codec.RequestedAddr(FirstIanaAddr(msg.ianas).value) == Some(x)
    && HoldsAt(v, msg.mac, x) && x in v.byAddr && v.byAddr[x] == v.leases[msg.mac]
  }

  ghost predicate Declining(s: Server, cs: seq<Conf>, ev: Event, x: Addr) {
    && |cs| == |s.ifaces|
    && ((ev.On4? && ev.i < |cs| && Declines4(ViewOf(s, ev.i), cs[ev.i], ev.msg4, x)) ||
        (ev.On6? && ev.i < |cs| && Declines6(ViewOf(s, ev.i), cs[ev.i], ev.msg6, x)))
  }

  lemma {:induction false} DeclinedIsBarred(s: Server, cs: seq<Conf>, ev: Event, x: Addr)
    requires SoundServer(s, cs) && FiledServer(s) && Declining(s, cs, ev, x)
    ensures BarredIn(Step(s, cs, ev).s, x)
  {
    var v, c := ViewOf(s, ev.i), cs[ev.i];
    assert Sound(v, c) && Filed(v);
    if ev.On4? {
      Declined4(v, c, ev.msg4, ev.env, x);
      BackBars(s, ev.i, Handle4(v, c, ev.msg4, ev.env).v);
    } else {
      Declined6(v, c, ev.msg6, ev.env, x);
      BackBars(s, ev.i, Handle6(v, c, ev.msg6, ev.env).v);
    }
  }

  lemma {:induction false} Declined4(v: View, c: Conf, msg: Msg4, env: Env, x: Addr)
    requires Sound(v, c) && Filed(v) && Declines4(v, c, msg, x)
    ensures Barred(Handle4(v, c, msg, env).v, x)
  {
    BlockBars(v, c, msg.mac, env.now);
  }

  lemma {:induction false} Declined6(v: View, c: Conf, msg: Msg6, env: Env, x: Addr)
    requires Sound(v, c) && Filed(v) && Declines6(v, c, msg, x)
    ensures Barred(Handle6(v, c, msg, env).v, x)
  {
    BlockBars(v, c, msg.mac, env.now);
  }

  /** Whatever the database contains, blocked leases included, it is loaded under the right
      addresses. */
  lemma {:induction false} LoadedFiled(s: Server, cs: seq<Conf>, db: seq<Lease>)
    requires |cs| == |s.ifaces| && FiledServer(s)
    ensures FiledServer(Load(s, cs, db))
    decreases db
  {
    if db != [] {
      CallBars(s, cs, Add, db[0]);
      LoadedFiled(AdminStep(s, cs, Add, db[0]).s, cs, db[1..]);
    }
  }

  // ---- Every run ----

  ghost function IsFiled(cs: seq<Conf>): Server -> bool {
    (s: Server) => SoundServer(s, cs) && FiledServer(s)
  }

  function IsSafeReal(cs: seq<Conf>): (Server, Event) -> bool {
    (s: Server, ev: Event) => |cs| == |s.ifaces| && StepSafe(s, cs, ev) && RealClient(ev)
  }

  lemma {:induction false} FiledSteps(cs: seq<Conf>)
    ensures forall t, ev :: IsFiled(cs)(t) && IsSafeReal(cs)(t, ev) ==> IsFiled(cs)(Stepper(cs)(t, ev))
  {
    forall t, ev | IsFiled(cs)(t) && IsSafeReal(cs)(t, ev) ensures IsFiled(cs)(Stepper(cs)(t, ev)) {
      StepSoundIff(t, cs, ev);
      StepBars(t, cs, ev);
    }
  }

  lemma {:induction false} FiledAt(s: Server, cs: seq<Conf>, evs: seq<Event>, k: nat)
    requires IsFiled(cs)(s) && EveryStep(Stepper(cs), s, evs, IsSafeReal(cs)) && k <= |evs|
    ensures IsFiled(cs)(StateAt(Stepper(cs), s, evs, k))
    ensures k < |evs| ==> IsSafeReal(cs)(StateAt(Stepper(cs), s, evs, k), evs[k])
  {
    FiledSteps(cs);
    InvariantAt(Stepper(cs), IsFiled(cs), IsSafeReal(cs), s, evs, k);
  }

  ghost function IsBarred(x: Addr): Server -> bool {
    (s: Server) => BarredIn(s, x)
  }

  function IsUnblocking(cs: seq<Conf>, x: Addr): (Server, Event) -> bool {
    (s: Server, ev: Event) => |cs| == |s.ifaces| && Unblocks(s, cs, ev, x)
  }

  lemma {:induction false} OneStepBarred(s: Server, cs: seq<Conf>, evs: seq<Event>, n: nat, x: Addr)
    requires IsFiled(cs)(s) && EveryStep(Stepper(cs), s, evs, IsSafeReal(cs)) && n < |evs|
    requires IsBarred(x)(StateAt(Stepper(cs), s, evs, n))
    ensures EndsWhen(Stepper(cs), IsBarred(x), IsUnblocking(cs, x), s, evs, n)
  {
    FiledAt(s, cs, evs, n);
    StepBars(StateAt(Stepper(cs), s, evs, n), cs, evs[n]);
  }

  /** An address blocked after j events stays blocked until after k exactly if no event in
      between unblocks it. */
  lemma {:induction false} StaysBarredIff(s: Server, cs: seq<Conf>, evs: seq<Event>, j: nat, k: nat, x: Addr)
    requires IsFiled(cs)(s) && EveryStep(Stepper(cs), s, evs, IsSafeReal(cs)) && j <= k <= |evs|
    requires IsBarred(x)(StateAt(Stepper(cs), s, evs, j))
    ensures Lasts(Stepper(cs), IsBarred(x), s, evs, j, k) <==> Without(Stepper(cs), IsUnblocking(cs, x), s, evs, j, k)
  {
    forall n | 0 <= n < |evs| && IsBarred(x)(StateAt(Stepper(cs), s, evs, n))
      ensures EndsWhen(Stepper(cs), IsBarred(x), IsUnblocking(cs, x), s, evs, n)
    {
      OneStepBarred(s, cs, evs, n, x);
    }
    LastsIff(Stepper(cs), IsBarred(x), IsUnblocking(cs, x), s, evs, j, k);
  }

  /** The answer to event k does not assign x. */
  ghost predicate NotAssignedAt(s: Server, cs: seq<Conf>, evs: seq<Event>, k: nat, x: Addr)
    requires k < |evs|
  {
    var t := StateAt(Stepper(cs), s, evs, k);
    |t.ifaces| == |cs| && !Assigns(Step(t, cs, evs[k]).reply, x)
  }

  lemma {:induction false} BarredNotAssigned(s: Server, cs: seq<Conf>, evs: seq<Event>, k: nat, x: Addr)
    requires IsFiled(cs)(s) && EveryStep(Stepper(cs), s, evs, IsSafeReal(cs)) && k < |evs|
    requires IsBarred(x)(StateAt(Stepper(cs), s, evs, k + 1))
    ensures NotAssignedAt(s, cs, evs, k, x)
  {
    FiledAt(s, cs, evs, k);
    var t := StateAt(Stepper(cs), s, evs, k);
    if Assigns(Step(t, cs, evs[k]).reply, x) { AssignedNotBarred(t, cs, evs[k], x); }
  }

  /** In every safe run of messages of both protocols, lease calls and resets: once a committed
      address has been declined by event j, no answer assigns it to anybody until an event
      unblocks it. */
  lemma {:induction false} DeclinedUntilUnblocked(s: Server, cs: seq<Conf>, evs: seq<Event>, j: nat, k: nat, x: Addr)
    requires IsFiled(cs)(s) && EveryStep(Stepper(cs), s, evs, IsSafeReal(cs)) && j < k < |evs|
    requires Declining(StateAt(Stepper(cs), s, evs, j), cs, evs[j], x)
    requires Without(Stepper(cs), IsUnblocking(cs, x), s, evs, j + 1, k + 1)
    ensures NotAssignedAt(s, cs, evs, k, x)
  {
    FiledAt(s, cs, evs, j);
    DeclinedIsBarred(StateAt(Stepper(cs), s, evs, j), cs, evs[j], x);
    assert IsBarred(x)(StateAt(Stepper(cs), s, evs, j + 1));
    StaysBarredIff(s, cs, evs, j + 1, k + 1, x);
    BarredNotAssigned(s, cs, evs, k, x);
  }

  /** The same from any database. */
  lemma {:induction false} DeclinedFromDatabase(cs: seq<Conf>, db: seq<Lease>, evs: seq<Event>, j: nat, k: nat, x: Addr)
    requires (forall i :: 0 <= i < |cs| ==> cs[i].id == i) && j < k < |evs|
    requires EveryStep(Stepper(cs), Load(Empty(|cs|), cs, db), evs, IsSafeReal(cs))
    requires Declining(StateAt(Stepper(cs), Load(Empty(|cs|), cs, db), evs, j), cs, evs[j], x)
    requires Without(Stepper(cs), IsUnblocking(cs, x), Load(Empty(|cs|), cs, db), evs, j + 1, k + 1)
    ensures NotAssignedAt(Load(Empty(|cs|), cs, db), cs, evs, k, x)
  {
    LoadedSound(cs, db);
    LoadedFiled(Empty(|cs|), cs, db);
    DeclinedUntilUnblocked(Load(Empty(|cs|), cs, db), cs, evs, j, k, x);
  }
}
