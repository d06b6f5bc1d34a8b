/** internal/dhcpsvc/handler4.go: the DHCPv4 messages (section 4.3 of RFC 2131). */
module Dhcp4 {
  import opened Net
  import opened IpRange
  import opened LeaseModel
  import opened LeaseInvariant

  /** The parsed fields the handlers read; an absent option is None or "". */
  datatype Msg4 =
    | Discover(mac: Mac)
    | Request(mac: Mac, serverId: Option<Addr>, reqIP: Option<Addr>, ciaddr: Option<Addr>, host: string)
    | Release(mac: Mac, ciaddr: Option<Addr>)
    | Decline(mac: Mac, reqIP: Option<Addr>)
    | Unsupported(mac: Mac)

  datatype Reply4 =
    | Silent
    | Offer(to: Mac, ip: Addr, host: string, time: int)
    | Ack(to: Mac, ip: Addr, host: string, time: int)
    | Nak(to: Mac)

  datatype Outcome4 = Outcome4(v: View, reply: Reply4)

  predicate Specified(a: Option<Addr>) {
    a.Some? && !IsUnspecified(a.value)
  }

  /** The lease time of appendTimeOptions: the lifetime for a static lease, otherwise what is
      left until the expiry and never less than nothing. */
  function LeaseTime(c: Conf, l: Lease, now: int): (t: int)
    ensures l.isStatic ==> t == c.ttl
    ensures !l.isStatic ==> t >= 0 && now + t >= l.expiry && (t > 0 ==> now + t == l.expiry)
  {
    if l.isStatic then c.ttl else if l.expiry < now then 0 else l.expiry - now
  }

  function HandleDiscover(v: View, c: Conf, mac: Mac, env: Env): (o: Outcome4)
    ensures Grows(v, o.v)
  {
    if mac in v.leases then
      var r := v.leases[mac];
      var l := v.heap[r].WithExpiry(env.now + c.ttl);
      Outcome4(Put(v, r, l), Offer(mac, l.ip, l.hostname, LeaseTime(c, l, env.now)))
    else
      match Allocate(v, c, mac, env.now, env.order, env.probe, 0)
      case NoLease(w) => Outcome4(w, Silent)
      case Aborted(w) => Outcome4(w, Silent)
      case Leased(w, r) =>
        Outcome4(w, Offer(mac, w.heap[r].ip, w.heap[r].hostname, LeaseTime(c, w.heap[r], env.now)))
  }

  /** The lease object after the in-place changes of a request. */
  function Renamed(l: Lease, c: Conf, host: string, renew: bool, now: int): Lease {
    var named := if host != "" then l.(hostname := host) else l;
    if renew then named.WithExpiry(now + c.ttl) else named
  }

  /** The common end of the three request states: the lease object is renamed in
      place, and only then the index is asked to update it. */
  function RenameAndRespond(v: View, c: Conf, mac: Mac, host: string, renew: bool, now: int): (o: Outcome4)
    requires mac in v.leases
    ensures Grows(v, o.v)
  {
    var r := v.leases[mac];
    var l := Renamed(v.heap[r], c, host, renew, now);
    var w := Put(v, r, l);
    match IndexUpdate(w, c, r)
    case None => Outcome4(w, Nak(mac))
    case Some(u) => Outcome4(u, Ack(mac, l.ip, l.hostname, LeaseTime(c, l, now)))
  }

  function HandleSelecting(v: View, c: Conf, msg: Msg4, env: Env): (o: Outcome4)
    requires msg.Request?
    ensures Grows(v, o.v)
  {
    if Specified(msg.ciaddr) then Outcome4(v, Silent)
    else if msg.mac !in v.leases then Outcome4(v, Nak(msg.mac))
    else if msg.reqIP != Some(IpOf(v, msg.mac)) then Outcome4(v, Nak(msg.mac))
    else RenameAndRespond(v, c, msg.mac, msg.host, false, env.now)
  }

  function HandleInitReboot(v: View, c: Conf, msg: Msg4, env: Env): (o: Outcome4)
    requires msg.Request?
    ensures Grows(v, o.v)
  {
    if Specified(msg.ciaddr) then Outcome4(v, Silent)
    else if msg.mac !in v.leases then Outcome4(v, Silent)
    else if msg.reqIP != Some(IpOf(v, msg.mac)) then Outcome4(v, Nak(msg.mac))
    else RenameAndRespond(v, c, msg.mac, msg.host, false, env.now)
  }

  function HandleRenew(v: View, c: Conf, msg: Msg4, env: Env): (o: Outcome4)
    requires msg.Request?
    ensures Grows(v, o.v)
  {
    if msg.mac !in v.leases then Outcome4(v, Silent)
    else if msg.ciaddr != Some(IpOf(v, msg.mac)) then Outcome4(v, Nak(msg.mac))
    else RenameAndRespond(v, c, msg.mac, msg.host, true, env.now)
  }

  function HandleRequest(v: View, c: Conf, msg: Msg4, env: Env): (o: Outcome4)
    requires msg.Request?
    ensures Grows(v, o.v)
  {
    if Specified(msg.serverId) then
      if msg.serverId.value !in c.local then Outcome4(v, Silent)
      else HandleSelecting(v, c, msg, env)
    else if Specified(msg.reqIP) then
      if !PrefixContains(c.subnet, msg.reqIP.value) then Outcome4(v, Nak(msg.mac))
      else HandleInitReboot(v, c, msg, env)
    else if msg.ciaddr.None? || !PrefixContains(c.subnet, msg.ciaddr.value) then Outcome4(v, Silent)
    else HandleRenew(v, c, msg, env)
  }

  /** leaseByMacWithIP */
  predicate HoldsAt(v: View, mac: Mac, ip: Addr) {
    mac in v.leases && IpOf(v, mac) == ip
  }

  function HandleRelease(v: View, c: Conf, mac: Mac, ciaddr: Option<Addr>): (o: Outcome4)
    ensures Grows(v, o.v)
  {
    if ciaddr.None? || !PrefixContains(c.subnet, ciaddr.value) then Outcome4(v, Silent)
    else if !HoldsAt(v, mac, ciaddr.value) then Outcome4(v, Silent)
    else
      match IndexRemove(v, c, v.heap[v.leases[mac]])
      case None => Outcome4(v, Silent)
      case Some(w) => Outcome4(w, Silent)
  }

  function HandleDecline(v: View, c: Conf, mac: Mac, reqIP: Option<Addr>, env: Env): (o: Outcome4)
    ensures Grows(v, o.v)
  {
    if reqIP.None? || !PrefixContains(c.subnet, reqIP.value) then Outcome4(v, Silent)
    else if !HoldsAt(v, mac, reqIP.value) then Outcome4(v, Silent)
    else
      match BlockLease(v, c, v.leases[mac], env.now)
      case None => Outcome4(v, Silent)
      case Some(w) => Outcome4(w, Silent)
  }

  function Handle4(v: View, c: Conf, msg: Msg4, env: Env): (o: Outcome4)
    ensures Grows(v, o.v)
  {
    match msg
    case Discover(mac) => HandleDiscover(v, c, mac, env)
    case Request(_, _, _, _, _) => HandleRequest(v, c, msg, env)
    case Release(mac, ciaddr) => HandleRelease(v, c, mac, ciaddr)
    case Decline(mac, reqIP) => HandleDecline(v, c, mac, reqIP, env)
    case Unsupported(_) => Outcome4(v, Silent)
  }

  // ---- Properties ----

  /** The address a DHCPREQUEST asks for: the requested address option in the
      SELECTING and INIT-REBOOT states, ciaddr otherwise (section 4.3.2 of RFC 2131). */
  function Asked(msg: Msg4): Option<Addr>
    requires msg.Request?
  {
    if Specified(msg.serverId) || Specified(msg.reqIP) then msg.reqIP else msg.ciaddr
  }

  predicate Renewing(msg: Msg4) {
    msg.Request? && !Specified(msg.serverId) && !Specified(msg.reqIP)
  }

  /** mac holds x in the interface, and the index finds that very lease at x. */
  ghost predicate Owns(v: View, mac: Mac, x: Addr) {
    && mac in v.leases && IpOf(v, mac) == x && v.heap[v.leases[mac]].hw == mac
    && x in v.byAddr && v.byAddr[x] == v.leases[mac]
  }

  ghost predicate ReplyOk4(v: View, w: View, c: Conf, msg: Msg4, env: Env, reply: Reply4) {
    match reply
    case Silent => true
    case Nak(to) =>
      && to == msg.mac && msg.Request?
      && w == v.(heap := if Served(v, c, msg) then v.heap[v.leases[to] := Touched(v, c, msg, env.now)] else v.heap)
    case Offer(to, ip, host, time) =>
      && to == msg.mac && msg.Discover?
      && to in w.leases && IpOf(w, to) == ip && Contains(c.range, ip)
      && (to in v.leases ==> ip == IpOf(v, to) && host == v.heap[v.leases[to]].hostname)
      && (0 <= c.ttl ==> time == c.ttl)
    case Ack(to, ip, host, time) =>
      && to == msg.mac && msg.Request? && Asked(msg) == Some(ip)
      && to in v.leases
      && Acked(v, w, c, to, ip, msg.host, Renewing(msg), env.now)
      && host == w.heap[w.leases[to]].hostname
      && time == LeaseTime(c, w.heap[w.leases[to]], env.now)
  }

  /** The client holds the address that its admitted request asks for. */
  predicate Served(v: View, c: Conf, msg: Msg4)
    requires msg.Request?
  {
    Admitted(c, msg) && Asked(msg).Some? && HoldsAt(v, msg.mac, Asked(msg).value)
  }

  /** The client's lease with the name it sent, if it sent one, and on renewal of a dynamic
      lease a new expiry. */
  function Touched(v: View, c: Conf, msg: Msg4, now: int): Lease
    requires msg.Request? && msg.mac in v.leases
  {
    var l := v.heap[v.leases[msg.mac]];
    Lease(l.ip, if Renewing(msg) && !l.isStatic then now + c.ttl else l.expiry,
          if msg.host != "" then msg.host else l.hostname, l.hw, l.isStatic)
  }

  /** What stands behind a DHCPACK: mac still holds its lease, now indexed under its
      address and its name; the name is the one the client sent, if it sent one, and
      only a renewal moves the expiry. */
  ghost predicate Acked(v: View, w: View, c: Conf, mac: Mac, ip: Addr, host: string, renew: bool, now: int)
    requires mac in v.leases
  {
    var before := v.heap[v.leases[mac]];
    && w.leases == v.leases && w.bits == v.bits && Owns(w, mac, ip)
    && var after := w.heap[w.leases[mac]];
    && after.hostname == (if host != "" then host else before.hostname)
    && Lower(after.hostname) in w.byName && w.byName[Lower(after.hostname)] == w.leases[mac]
    && after.isStatic == before.isStatic
    && after.expiry == (if renew && !before.isStatic then now + c.ttl else before.expiry)
  }

  /** The only message that may break an interface is a DHCPDISCOVER of a new client
      that takes over an expired lease. */
  predicate Safe4(v: View, c: Conf, msg: Msg4, env: Env) {
    msg.Discover? && msg.mac !in v.leases ==> ReclaimSafe(v, c, env.now, env.order, env.probe, 0)
  }

  lemma {:induction false} RenameSound(v: View, c: Conf, mac: Mac, host: string, renew: bool, now: int)
    requires Sound(v, c) && mac in v.leases
    ensures var o := RenameAndRespond(v, c, mac, host, renew, now);
            && Sound(o.v, c) && Local(v, o.v, c) && o.v.leases == v.leases
  {
    var w := Put(v, v.leases[mac], Renamed(v.heap[v.leases[mac]], c, host, renew, now));
    TouchKeeps(v, c, mac, Renamed(v.heap[v.leases[mac]], c, host, renew, now));
    UpdateKeeps(w, c, mac);
  }

  lemma {:induction false} RenameReply(v: View, c: Conf, mac: Mac, host: string, renew: bool, now: int)
    requires Sound(v, c) && mac in v.leases
    ensures var o := RenameAndRespond(v, c, mac, host, renew, now);
            && (o.reply.Nak? ==> o.v == Put(v, v.leases[mac], Renamed(v.heap[v.leases[mac]], c, host, renew, now)))
            && (o.reply.Ack? ==> Acked(v, o.v, c, mac, IpOf(v, mac), host, renew, now))
  {
    var w := Put(v, v.leases[mac], Renamed(v.heap[v.leases[mac]], c, host, renew, now));
    TouchKeeps(v, c, mac, Renamed(v.heap[v.leases[mac]], c, host, renew, now));
    UpdateKeeps(w, c, mac);
  }

  lemma {:induction false} DiscoverKeeps(v: View, c: Conf, mac: Mac, env: Env)
    requires Sound(v, c)
    ensures var o := HandleDiscover(v, c, mac, env);
            && (Sound(o.v, c) <==> Safe4(v, c, Discover(mac), env))
            && (Sound(o.v, c) ==> Local(v, o.v, c) && ReplyOk4(v, o.v, c, Discover(mac), env, o.reply))
  {
    if mac in v.leases {
      TouchKeeps(v, c, mac, v.heap[v.leases[mac]].WithExpiry(env.now + c.ttl));
    } else {
      AllocateSoundIff(v, c, mac, env.now, env.order, env.probe);
    }
  }

  /** A request changes nothing unless the client holds the address asked for; then it ends
      in RenameAndRespond. */
  lemma {:induction false} RequestRoutes(v: View, c: Conf, msg: Msg4, env: Env)
    requires msg.Request?
    ensures var o := HandleRequest(v, c, msg, env);
            if Served(v, c, msg) then o == RenameAndRespond(v, c, msg.mac, msg.host, Renewing(msg), env.now)
            else o.v == v && (o.reply == Silent || o.reply == Nak(msg.mac))
  {
  }

  lemma {:induction false} RequestKeeps(v: View, c: Conf, msg: Msg4, env: Env)
    requires Sound(v, c) && msg.Request?
    ensures var o := HandleRequest(v, c, msg, env);
            Sound(o.v, c) && Local(v, o.v, c) && ReplyOk4(v, o.v, c, msg, env, o.reply)
  {
    RequestRoutes(v, c, msg, env);
    if msg.mac in v.leases {
      RenameSound(v, c, msg.mac, msg.host, Renewing(msg), env.now);
      RenameReply(v, c, msg.mac, msg.host, Renewing(msg), env.now);
    }
  }

  /** Every DHCPv4 message keeps a sound interface sound, exactly under Safe4, and
      every reply is right about the state it leaves behind. */
  lemma {:induction false} Handle4Keeps(v: View, c: Conf, msg: Msg4, env: Env)
    requires Sound(v, c)
    ensures var o := Handle4(v, c, msg, env);
            && (Sound(o.v, c) <==> Safe4(v, c, msg, env))
            && (Sound(o.v, c) ==> Local(v, o.v, c) && ReplyOk4(v, o.v, c, msg, env, o.reply))
  {
    match msg
    case Discover(mac) => DiscoverKeeps(v, c, mac, env);
    case Request(_, _, _, _, _) => RequestKeeps(v, c, msg, env);
    case Release(mac, ciaddr) => if mac in v.leases { IndexRemoveKeeps(v, c, mac); }
    case Decline(mac, reqIP) => if mac in v.leases { BlockKeeps(v, c, mac, env.now); }
    case Unsupported(_) =>
  }

  /** The message is well-formed for its state and meant for this server and subnet. */
  predicate Admitted(c: Conf, msg: Msg4)
    requires msg.Request?
  {
    if Specified(msg.serverId) then msg.serverId.value in c.local && !Specified(msg.ciaddr)
    else if Specified(msg.reqIP) then PrefixContains(c.subnet, msg.reqIP.value) && !Specified(msg.ciaddr)
    else msg.ciaddr.Some? && PrefixContains(c.subnet, msg.ciaddr.value)
  }

  /** In the index neither the address nor the name belongs to another client. */
  predicate NobodyElse(v: View, mac: Mac, ip: Addr, name: string) {
    && (ip in v.byAddr ==> v.heap[v.byAddr[ip]].hw == mac)
    && (name in v.byName ==> v.heap[v.byName[name]].hw == mac)
  }

  /** A request is acknowledged exactly when it is admitted, the client holds the address
      it asks for, and neither the address nor the name is another client's. */
  lemma {:induction false} AckIff(v: View, c: Conf, msg: Msg4, env: Env)
    requires Sound(v, c) && msg.Request?
    ensures Handle4(v, c, msg, env).reply.Ack? <==>
            Served(v, c, msg) && NobodyElse(v, msg.mac, Asked(msg).value, Lower(Touched(v, c, msg, env.now).hostname))
  {
    RequestRoutes(v, c, msg, env);
    if Served(v, c, msg) {
      RenameAckIff(v, c, msg.mac, msg.host, Renewing(msg), env.now);
    }
  }

  lemma {:induction false} RenameAckIff(v: View, c: Conf, mac: Mac, host: string, renew: bool, now: int)
    requires Sound(v, c) && mac in v.leases
    ensures RenameAndRespond(v, c, mac, host, renew, now).reply.Ack? <==>
            NobodyElse(v, mac, IpOf(v, mac), Lower(if host != "" then host else v.heap[v.leases[mac]].hostname))
  {
    var r := v.leases[mac];
    var w := Put(v, r, Renamed(v.heap[r], c, host, renew, now));
    assert forall q :: q in v.heap ==> w.heap[q].hw == v.heap[q].hw;
  }

  /** A request stays unanswered exactly when a SELECTING one is not admitted, when an
      INIT-REBOOT one for this subnet carries ciaddr or comes from a client without a
      lease, or when a renewal is not admitted or comes from a client without a lease. */
  lemma {:induction false} SilentIff(v: View, c: Conf, msg: Msg4, env: Env)
    requires msg.Request?
    ensures Handle4(v, c, msg, env).reply.Silent? <==>
            if Specified(msg.serverId) then !Admitted(c, msg)
            else if Specified(msg.reqIP) then
              PrefixContains(c.subnet, msg.reqIP.value) && (Specified(msg.ciaddr) || msg.mac !in v.leases)
            else !Admitted(c, msg) || msg.mac !in v.leases
    ensures !Handle4(v, c, msg, env).reply.Offer?
  {
  }

  /** A discovery is answered with an offer exactly if the client holds a lease afterwards.
      The lease it has is offered again and extended unless it is static; a new client is
      offered the lowest free address or that of an expired lease, nameless, exactly if the
      checker accepts it, and otherwise nothing is sent. */
  lemma {:induction false} DiscoverAnswers(v: View, c: Conf, mac: Mac, env: Env)
    requires Sound(v, c) && Safe4(v, c, Discover(mac), env)
    ensures var o := Handle4(v, c, Discover(mac), env);
            && (o.reply.Offer? <==> mac in o.v.leases) && (!o.reply.Offer? ==> o.reply == Silent)
            && (o.reply.Offer? ==> o.reply.to == mac && o.reply.ip == IpOf(o.v, mac))
            && if mac in v.leases then
                 var l := v.heap[v.leases[mac]];
                 && o.reply.Offer? && o.reply.ip == l.ip && o.reply.host == l.hostname
                 && o.v == v.(heap := v.heap[v.leases[mac] := if l.isStatic then l else l.(expiry := env.now + c.ttl)])
               else
                 var ip := Gives(v, c, env.now, env.order, env.probe, 0);
                 (o.reply.Offer? <==> ip.Some?) && (ip.Some? ==> o.reply.ip == ip.value && o.reply.host == "")
  {
    if mac !in v.leases {
      AllocateGives(v, c, mac, env.now, env.order, env.probe, 0);
      AllocateSoundIff(v, c, mac, env.now, env.order, env.probe);
    }
  }

  /** A Release or Decline is never answered, and changes nothing unless it names, on the
      subnet, the address that the sender holds.  Then a lease that the index knows is
      released with its address, name and offset, and any lease is blocked as declined. */
  lemma {:induction false} GiveUp4Right(v: View, c: Conf, msg: Msg4, env: Env)
    requires Sound(v, c) && (msg.Release? || msg.Decline?)
    ensures var o := Handle4(v, c, msg, env);
            var x := if msg.Release? then msg.ciaddr else msg.reqIP;
            && o.reply == Silent
            && if !(x.Some? && PrefixContains(c.subnet, x.value) && HoldsAt(v, msg.mac, x.value)) then o.v == v
               else
                 var r := v.leases[msg.mac];
                 var name := Lower(v.heap[r].hostname);
                 if msg.Release? && (x.value !in v.byAddr || name !in v.byName) then o.v == v
                 else
                   && o.v.leases == v.leases - {msg.mac} && o.v.bits == v.bits - {Offset(c.range, x.value)}
                   && (msg.Release? ==>
                         && o.v.heap == v.heap
                         && o.v.byAddr == v.byAddr - {x.value} && o.v.byName == v.byName - {name})
                   && (msg.Decline? ==>
                         && o.v.heap == v.heap[r := Lease(x.value, env.now + c.ttl, "", BLOCKED, false)]
                         && o.v.byAddr == v.byAddr && o.v.byName == v.byName)
  {
    if msg.mac in v.leases && msg.Decline? {
      BlockShape(v, c, v.leases[msg.mac], env.now);
    }
  }

  // ---- Names ----

  /** The index files every lease under its own lower-case name. */
  ghost predicate NamesFiled(v: View) {
    forall n :: n in v.byName ==> Lower(v.heap[v.byName[n]].hostname) == n
  }

  /** The index has the lease of mac under its present name. */
  predicate NamedAt(v: View, mac: Mac)
    requires mac in v.leases
  {
    var n := Lower(v.heap[v.leases[mac]].hostname);
    n in v.byName && v.byName[n] == v.leases[mac]
  }

  /** The message takes the present name from a lease that the index has under it: a request
      served under another name, whether acknowledged or refused, or a decline. */
  predicate Misnames(v: View, c: Conf, msg: Msg4) {
    match msg
    case Request(mac, _, _, _, host) =>
      && Served(v, c, msg) && NamedAt(v, mac)
      && host != "" && Lower(host) != Lower(v.heap[v.leases[mac]].hostname)
    case Decline(mac, reqIP) =>
      && reqIP.Some? && PrefixContains(c.subnet, reqIP.value) && HoldsAt(v, mac, reqIP.value)
      && NamedAt(v, mac) && v.heap[v.leases[mac]].hostname != ""
    case _ => false
  }

  /** The lease object changes its name in place, and then the index is updated or not: the
      old entry stays, because the update looks for the new name when it deletes. */
  lemma {:induction false} RenameFiledIff(v: View, c: Conf, mac: Mac, host: string, renew: bool, now: int)
    requires NamesFiled(v) && mac in v.leases && v.heap[v.leases[mac]].hw == mac
    ensures NamesFiled(RenameAndRespond(v, c, mac, host, renew, now).v) <==>
            !(NamedAt(v, mac) && host != "" && Lower(host) != Lower(v.heap[v.leases[mac]].hostname))
  {
    var r := v.leases[mac];
    var w := RenameAndRespond(v, c, mac, host, renew, now).v;
    RenameNames(v, c, mac, host, renew, now);
    var before := Lower(v.heap[r].hostname);
    if NamedAt(v, mac) && before != Lower(w.heap[r].hostname) {
      assert before in w.byName && w.byName[before] == r;
    }
  }

  lemma {:induction false} RenameNames(v: View, c: Conf, mac: Mac, host: string, renew: bool, now: int)
    requires mac in v.leases && v.heap[v.leases[mac]].hw == mac
    ensures var w := RenameAndRespond(v, c, mac, host, renew, now).v;
            var r := v.leases[mac];
            && w.heap == v.heap[r := Renamed(v.heap[r], c, host, renew, now)]
            && (w.byName == v.byName || w.byName == v.byName[Lower(w.heap[r].hostname) := r])
  {
  }

  lemma {:induction false} ForgottenName(v: View, w: View, r: Ref)
    requires NamesFiled(v) && r in v.heap && w.byName == v.byName - {Lower(v.heap[r].hostname)}
    requires forall q :: q in v.heap && q != r ==> q in w.heap && w.heap[q] == v.heap[q]
    ensures NamesFiled(w)
  {
  }

  lemma {:induction false} DiscoverFiled(v: View, c: Conf, mac: Mac, env: Env)
    requires Sound(v, c) && NamesFiled(v) && Safe4(v, c, Discover(mac), env)
    ensures NamesFiled(HandleDiscover(v, c, mac, env).v)
  {
    if mac !in v.leases {
      var a := Allocate(v, c, mac, env.now, env.order, env.probe, 0);
      if NextIP(c.range, v.bits).Found? {
        FreshKeeps(v, c, mac, env.now, env.order, env.probe, 0);
      } else if NextIP(c.range, v.bits).NoneFree? && FindExpired(v, env.order, env.now).Some? {
        ReclaimKeeps(v, c, mac, env.now, env.order, env.probe, 0);
        ForgottenName(v, a.v, v.leases[FindExpired(v, env.order, env.now).value]);
      }
    }
  }

  /** Every DHCPv4 message keeps the leases filed under their names exactly if it does not
      misname one. */
  lemma {:induction false} NamesFiledIff(v: View, c: Conf, msg: Msg4, env: Env)
    requires Sound(v, c) && NamesFiled(v) && Safe4(v, c, msg, env)
    ensures NamesFiled(Handle4(v, c, msg, env).v) <==> !Misnames(v, c, msg)
  {
    match msg
    case Discover(mac) => DiscoverFiled(v, c, mac, env);
    case Request(mac, _, _, _, host) =>
      RequestRoutes(v, c, msg, env);
      if mac in v.leases { RenameFiledIff(v, c, mac, host, Renewing(msg), env.now); }
    case Release(mac, ciaddr) =>
    case Decline(mac, reqIP) =>
      if mac in v.leases { BlockedFiledIff(v, c, mac, env.now); }
    case Unsupported(_) =>
  }

  lemma {:induction false} BlockedFiledIff(v: View, c: Conf, mac: Mac, now: int)
    requires NamesFiled(v) && mac in v.leases && v.heap[v.leases[mac]].hw == mac
    ensures var b := BlockLease(v, c, v.leases[mac], now);
            b.Some? && (NamesFiled(b.value) <==> !(NamedAt(v, mac) && v.heap[v.leases[mac]].hostname != ""))
  {
    BlockShape(v, c, v.leases[mac], now);
    assert Lower("") == "";
    var b := BlockLease(v, c, v.leases[mac], now).value;
    var n := Lower(v.heap[v.leases[mac]].hostname);
    assert n in b.byName ==> b.byName[n] == v.byName[n];
  }

  /** Releasing a lease the index knows gives the address back: nobody holds it, the
      index does not know it, and the next new client gets it or a lower one. */
  lemma {:induction false} ReleaseFrees(v: View, c: Conf, mac: Mac, x: Addr, env: Env)
    requires Sound(v, c) && HoldsAt(v, mac, x) && PrefixContains(c.subnet, x)
    requires x in v.byAddr && Lower(v.heap[v.leases[mac]].hostname) in v.byName
    ensures var w := Handle4(v, c, Release(mac, Some(x)), env).v;
            && w.leases == v.leases - {mac} && x !in w.byAddr
            && (forall m :: m in w.leases ==> IpOf(w, m) != x)
            && NextIP(c.range, w.bits).Found? && NextIP(c.range, w.bits).ip.val <= x.val
  {
    IndexRemoveKeeps(v, c, mac);
    var w := Handle4(v, c, Release(mac, Some(x)), env).v;
    assert forall m :: m in w.leases ==> m != mac && IpOf(v, m) != x;
    OffsetIsDistance(c.range, x);
    FreedIsFound(c.range, w.bits, x);
  }
}
