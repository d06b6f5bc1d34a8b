/** internal/dhcpsvc/handler6.go and the state-changing part of v6.go: the DHCPv6
    messages (section 18.3 of RFC 9915). */
module Dhcp6 {
  import opened Net
  import opened IpRange
  import opened LeaseModel
  import opened LeaseInvariant
  import Codec = IanaCodec

  datatype Kind = Solicit | Request | Confirm | Renew | Rebind | InfoRequest | Release | Decline

  /** `clientId` says that a well-formed Client Identifier is present, `ianas` are the
      bodies of the IA_NA options in order, `iata` says that an IA_TA is present. */
  datatype Msg6 = Msg6(
    kind: Kind,
    mac: Mac,
    clientId: bool,
    serverId: Option<seq<byte>>,
    fqdn: string,
    rapid: bool,
    ianas: seq<seq<byte>>,
    iata: bool)

  const STATUS_SUCCESS: nat := 0
  const STATUS_NO_ADDRS_AVAIL: nat := 2
  const STATUS_NO_BINDING: nat := 3
  const STATUS_NOT_ON_LINK: nat := 4

  /** The IA_NA option of an answer. */
  datatype Ia =
    | NoIa
    | IaEmpty(id: Codec.U32)
    | IaStatus(id: Codec.U32, status: nat)
    | IaLease(id: Codec.U32, addr: Addr)

  datatype Reply6 =
    | Silent6
    | Advertise(to: Mac, ia: Ia)
    | Answer(to: Mac, ia: Ia, status: Option<nat>, rapid: bool)

  datatype Outcome6 = Outcome6(v: View, reply: Reply6)

  /** firstIANA: the first option that can be decoded. */
  function FirstIana(ianas: seq<seq<byte>>): (o: Option<Codec.Iana>)
  {
    if ianas == [] then None
    else if Codec.DecodeSpec(ianas[0]).Ok? then Some(Codec.DecodeSpec(ianas[0]).value)
    else FirstIana(ianas[1..])
  }

  lemma {:induction false} FirstIanaIs(ianas: seq<seq<byte>>)
    ensures FirstIana(ianas).None? ==> forall i :: 0 <= i < |ianas| ==> Codec.DecodeSpec(ianas[i]).Malformed?
    ensures FirstIana(ianas).Some? ==>
              exists i :: && 0 <= i < |ianas| && Codec.DecodeSpec(ianas[i]) == Codec.Ok(FirstIana(ianas).value)
                          && forall j :: 0 <= j < i ==> Codec.DecodeSpec(ianas[j]).Malformed?
  {
    if ianas != [] && Codec.DecodeSpec(ianas[0]).Malformed? {
      FirstIanaIs(ianas[1..]);
      if FirstIana(ianas).Some? {
        var i :| && 0 <= i < |ianas| - 1 && Codec.DecodeSpec(ianas[1..][i]) == Codec.Ok(FirstIana(ianas).value)
                 && forall j :: 0 <= j < i ==> Codec.DecodeSpec(ianas[1..][j]).Malformed?;
        forall j | 0 <= j < i + 1 ensures Codec.DecodeSpec(ianas[j]).Malformed? {
          if j > 0 { assert ianas[j] == ianas[1..][j - 1]; }
        }
        assert ianas[i + 1] == ianas[1..][i];
      } else {
        forall i | 0 <= i < |ianas| ensures Codec.DecodeSpec(ianas[i]).Malformed? {
          if i > 0 { assert ianas[i] == ianas[1..][i - 1]; }
        }
      }
    }
  }

  /** The option can be decoded and has an address. */
  predicate Addressed(data: seq<byte>) {
    Codec.DecodeSpec(data).Ok? && Codec.RequestedAddr(Codec.DecodeSpec(data).value).Some?
  }

  lemma {:induction false} FirstIanaAddrIs(ianas: seq<seq<byte>>)
    ensures FirstIanaAddr(ianas).None? ==> forall i :: 0 <= i < |ianas| ==> !Addressed(ianas[i])
    ensures FirstIanaAddr(ianas).Some? ==>
              exists i :: && 0 <= i < |ianas| && Codec.DecodeSpec(ianas[i]) == Codec.Ok(FirstIanaAddr(ianas).value)
                          && forall j :: 0 <= j < i ==> !Addressed(ianas[j])
  {
    if ianas != [] && !Addressed(ianas[0]) {
      FirstIanaAddrIs(ianas[1..]);
      if FirstIanaAddr(ianas).Some? {
        var i :| && 0 <= i < |ianas| - 1 && Codec.DecodeSpec(ianas[1..][i]) == Codec.Ok(FirstIanaAddr(ianas).value)
                 && forall j :: 0 <= j < i ==> !Addressed(ianas[1..][j]);
        forall j | 0 <= j < i + 1 ensures !Addressed(ianas[j]) {
          if j > 0 { assert ianas[j] == ianas[1..][j - 1]; }
        }
        assert ianas[i + 1] == ianas[1..][i];
      } else {
        forall i | 0 <= i < |ianas| ensures !Addressed(ianas[i]) {
          if i > 0 { assert ianas[i] == ianas[1..][i - 1]; }
        }
      }
    }
  }

  /** firstIANAAddr: the first option that can be decoded and has an address. */
  function FirstIanaAddr(ianas: seq<seq<byte>>): (o: Option<Codec.Iana>)
    ensures o.Some? ==> Codec.RequestedAddr(o.value).Some?
  {
    if ianas == [] then None
    else
      var d := Codec.DecodeSpec(ianas[0]);
      if d.Ok? && Codec.RequestedAddr(d.value).Some? then Some(d.value)
      else FirstIanaAddr(ianas[1..])
  }

  function NestedAddrs(ianas: seq<seq<byte>>): seq<Codec.IaAddr> {
    if ianas == [] then []
    else (if Codec.DecodeSpec(ianas[0]).Ok? then Codec.DecodeSpec(ianas[0]).value.nested else [])
         + NestedAddrs(ianas[1..])
  }

  predicate NoServerId(msg: Msg6) {
    msg.serverId.None? && msg.clientId
  }

  predicate ForThisServer(c: Conf, msg: Msg6) {
    msg.serverId == Some(c.duid) && msg.clientId
  }

  /** The host name commit gives to a lease. */
  function CommitName(l: Lease, c: Conf, fqdn: string): string {
    if c.validHost(l.hostname) then l.hostname
    else if c.validHost(fqdn) then fqdn
    else c.genHost(l.ip)
  }

  function Committing(l: Lease, c: Conf, fqdn: string, now: int): Lease {
    l.(hostname := CommitName(l, c, fqdn)).WithExpiry(now + c.ttl)
  }

  datatype CommitResult = Committed(v: View) | Dropped(v: View)

  /** commit: names the lease, extends it and updates the index; a lease that cannot be
      committed leaves the interface. */
  function Commit(v: View, c: Conf, r: Ref, fqdn: string, now: int): (o: CommitResult)
    requires r in v.heap
    ensures Grows(v, o.v)
  {
    var w := Put(v, r, Committing(v.heap[r], c, fqdn, now));
    match IndexUpdate(w, c, r)
    case Some(u) => Committed(u)
    case None =>
      match RemoveLease(w, c, w.heap[r])
      case None => Dropped(w)
      case Some(u) => Dropped(u)
  }

  /** allocateForSolicit */
  function LeaseFor(v: View, c: Conf, mac: Mac, env: Env): (a: Allocation)
    ensures a.Leased? ==> a.r in a.v.heap
    ensures Grows(v, a.v)
  {
    if mac in v.leases then Leased(v, v.leases[mac])
    else Allocate(v, c, mac, env.now, env.order, env.probe, 0)
  }

  function HandleSolicit(v: View, c: Conf, msg: Msg6, env: Env): (o: Outcome6)
    ensures Grows(v, o.v)
  {
    var iana := FirstIana(msg.ianas);
    if !NoServerId(msg) || iana.None? then Outcome6(v, Silent6)
    else
      var id := iana.value.id;
      match LeaseFor(v, c, msg.mac, env)
      case Aborted(w) => Outcome6(w, Silent6)
      case NoLease(w) => Outcome6(w, Advertise(msg.mac, IaStatus(id, STATUS_NO_ADDRS_AVAIL)))
      case Leased(w, r) =>
        if !msg.rapid then Outcome6(w, Advertise(msg.mac, IaLease(id, w.heap[r].ip)))
        else
          match Commit(w, c, r, msg.fqdn, env.now)
          case Dropped(u) => Outcome6(u, Advertise(msg.mac, IaStatus(id, STATUS_NO_ADDRS_AVAIL)))
          case Committed(u) => Outcome6(u, Answer(msg.mac, IaLease(id, u.heap[r].ip), None, true))
  }

  function CommitAndAnswer(v: View, c: Conf, r: Ref, msg: Msg6, id: Codec.U32, now: int): (o: Outcome6)
    requires r in v.heap
    ensures Grows(v, o.v)
  {
    match Commit(v, c, r, msg.fqdn, now)
    case Dropped(u) => Outcome6(u, Answer(msg.mac, IaStatus(id, STATUS_NO_ADDRS_AVAIL), None, false))
    case Committed(u) => Outcome6(u, Answer(msg.mac, IaLease(id, u.heap[r].ip), None, false))
  }

  /** ianaForRequest */
  function IanaForRequest(v: View, c: Conf, msg: Msg6, id: Codec.U32, env: Env): (o: Outcome6)
    ensures Grows(v, o.v)
  {
    match LeaseFor(v, c, msg.mac, env)
    case Aborted(w) => Outcome6(w, Silent6)
    case NoLease(w) => Outcome6(w, Answer(msg.mac, IaStatus(id, STATUS_NO_ADDRS_AVAIL), None, false))
    case Leased(w, r) => CommitAndAnswer(w, c, r, msg, id, env.now)
  }

  function HandleRequest(v: View, c: Conf, msg: Msg6, env: Env): (o: Outcome6)
    ensures Grows(v, o.v)
  {
    var iana := FirstIana(msg.ianas);
    if !ForThisServer(c, msg) then Outcome6(v, Silent6)
    else if iana.None? then Outcome6(v, Answer(msg.mac, NoIa, None, false))
    else
      var id, wanted := iana.value.id, Codec.RequestedAddr(iana.value);
      if wanted.Some? && !PrefixContains(c.subnet, wanted.value) then
        Outcome6(v, Answer(msg.mac, IaStatus(id, STATUS_NOT_ON_LINK), None, false))
      else IanaForRequest(v, c, msg, id, env)
  }

  /** ianaForUpdate */
  function IanaForUpdate(v: View, c: Conf, msg: Msg6, iana: Codec.Iana, env: Env): (o: Outcome6)
    ensures Grows(v, o.v)
  {
    var wanted := Codec.RequestedAddr(iana);
    if wanted.None? then Outcome6(v, Answer(msg.mac, NoIa, None, false))
    else if msg.mac !in v.leases || IpOf(v, msg.mac) != wanted.value then
      Outcome6(v, Answer(msg.mac, IaStatus(iana.id, STATUS_NO_BINDING), None, false))
    else CommitAndAnswer(v, c, v.leases[msg.mac], msg, iana.id, env.now)
  }

  /** handleRenew and handleRebind differ only in the identifiers they require. */
  function HandleUpdate(v: View, c: Conf, msg: Msg6, env: Env): (o: Outcome6)
    ensures Grows(v, o.v)
  {
    var accepted := if msg.kind.Renew? then ForThisServer(c, msg) else NoServerId(msg);
    var iana := FirstIana(msg.ianas);
    if !accepted then Outcome6(v, Silent6)
    else if iana.None? then Outcome6(v, Answer(msg.mac, NoIa, None, false))
    else IanaForUpdate(v, c, msg, iana.value, env)
  }

  /** handleRelease and handleDecline up to what they do with the lease. */
  function HandleGiveUp(v: View, c: Conf, msg: Msg6, env: Env): (o: Outcome6)
    ensures Grows(v, o.v)
  {
    var iana := FirstIanaAddr(msg.ianas);
    if !ForThisServer(c, msg) then Outcome6(v, Silent6)
    else if iana.None? then Outcome6(v, Answer(msg.mac, NoIa, Some(STATUS_SUCCESS), false))
    else
      var id, ip := iana.value.id, Codec.RequestedAddr(iana.value).value;
      var noBinding := Answer(msg.mac, IaStatus(id, STATUS_NO_BINDING), None, false);
      if msg.mac !in v.leases || IpOf(v, msg.mac) != ip then Outcome6(v, noBinding)
      else
        var r := v.leases[msg.mac];
        match (if msg.kind.Decline? then BlockLease(v, c, r, env.now) else IndexRemove(v, c, v.heap[r]))
        case None => Outcome6(v, noBinding)
        case Some(w) => Outcome6(w, Answer(msg.mac, IaEmpty(id), Some(STATUS_SUCCESS), false))
  }

  function HandleConfirm(v: View, c: Conf, msg: Msg6): (o: Outcome6)
    ensures Grows(v, o.v)
  {
    var addrs := NestedAddrs(msg.ianas);
    if !NoServerId(msg) || addrs == [] then Outcome6(v, Silent6)
    else if forall i :: 0 <= i < |addrs| ==> PrefixContains(c.subnet, addrs[i].addr) then
      Outcome6(v, Answer(msg.mac, NoIa, None, false))
    else Outcome6(v, Answer(msg.mac, NoIa, Some(STATUS_NOT_ON_LINK), false))
  }

  function HandleInfo(v: View, c: Conf, msg: Msg6): (o: Outcome6)
    ensures Grows(v, o.v)
  {
    if (msg.serverId.Some? && msg.serverId.value != c.duid) || msg.ianas != [] || msg.iata then Outcome6(v, Silent6)
    else Outcome6(v, Answer(msg.mac, NoIa, None, false))
  }

  function Handle6(v: View, c: Conf, msg: Msg6, env: Env): (o: Outcome6)
    ensures Grows(v, o.v)
  {
    match msg.kind
    case Solicit => HandleSolicit(v, c, msg, env)
    case Request => HandleRequest(v, c, msg, env)
    case Confirm => HandleConfirm(v, c, msg)
    case Renew => HandleUpdate(v, c, msg, env)
    case Rebind => HandleUpdate(v, c, msg, env)
    case InfoRequest => HandleInfo(v, c, msg)
    case Release => HandleGiveUp(v, c, msg, env)
    case Decline => HandleGiveUp(v, c, msg, env)
  }

  // ---- Properties ----

  /** The message reaches the point where a client without a lease gets one. */
  predicate Allocates(v: View, c: Conf, msg: Msg6) {
    && msg.mac !in v.leases && FirstIana(msg.ianas).Some?
    && match msg.kind
       case Solicit => NoServerId(msg)
       case Request =>
         var wanted := Codec.RequestedAddr(FirstIana(msg.ianas).value);
         ForThisServer(c, msg) && (wanted.Some? ==> PrefixContains(c.subnet, wanted.value))
       case _ => false
  }

  predicate Safe6(v: View, c: Conf, msg: Msg6, env: Env) {
    Allocates(v, c, msg) ==> ReclaimSafe(v, c, env.now, env.order, env.probe, 0)
  }

  /** What a successful commit leaves behind: mac holds the lease, the index finds it at
      its address and under its name, the name is acceptable, and a dynamic lease lasts
      for the full lifetime. */
  ghost predicate Bound(w: View, c: Conf, mac: Mac, x: Addr, now: int) {
    && mac in w.leases && IpOf(w, mac) == x
    && x in w.byAddr && w.byAddr[x] == w.leases[mac]
    && var l := w.heap[w.leases[mac]];
    && l.hw == mac
    && (c.validHost(l.hostname) || l.hostname == c.genHost(x))
    && Lower(l.hostname) in w.byName && w.byName[Lower(l.hostname)] == w.leases[mac]
    && (l.isStatic || l.expiry == now + c.ttl)
  }

  /** A Reply that assigns an address is backed by a bound lease, answers the first
      decodable IA_NA, and in answer to Renew or Rebind names the address asked for.
      An Advertise that carries an address offers the client's own lease. */
  ghost predicate ReplyOk6(w: View, c: Conf, msg: Msg6, env: Env, reply: Reply6) {
    match reply
    case Silent6 => true
    case Advertise(to, ia) =>
      && to == msg.mac && msg.kind.Solicit?
      && (ia.IaLease? ==> to in w.leases && IpOf(w, to) == ia.addr && Contains(c.range, ia.addr))
    case Answer(to, ia, status, rapid) =>
      && to == msg.mac && (rapid ==> msg.rapid && ia.IaLease?)
      && (ia.IaLease? ==>
            && (rapid || msg.kind.Request? || msg.kind.Renew? || msg.kind.Rebind?)
            && Bound(w, c, to, ia.addr, env.now)
            && FirstIana(msg.ianas).Some? && ia.id == FirstIana(msg.ianas).value.id
            && (msg.kind.Renew? || msg.kind.Rebind? ==>
                  var asked := FirstIana(msg.ianas).value.nested;
                  asked != [] && asked[0].addr == ia.addr))
  }

  /** A valid name stays; otherwise the client's own name is taken if it is valid, and a
      generated one if it is not. */
  predicate RightName(before: string, after: string, ip: Addr, c: Conf, fqdn: string) {
    && (c.validHost(before) ==> after == before)
    && (!c.validHost(before) && c.validHost(fqdn) ==> after == fqdn)
    && (!c.validHost(before) && !c.validHost(fqdn) ==> after == c.genHost(ip))
  }

  lemma {:induction false} CommitKeeps(v: View, c: Conf, mac: Mac, fqdn: string, now: int)
    requires Sound(v, c) && mac in v.leases
    ensures var res := Commit(v, c, v.leases[mac], fqdn, now);
            && Sound(res.v, c) && Local(v, res.v, c)
            && (res.Committed? ==> res.v.leases == v.leases && Bound(res.v, c, mac, IpOf(v, mac), now))
            && (res.Dropped? ==> res.v.leases == v.leases - {mac})
            && RightName(v.heap[v.leases[mac]].hostname, res.v.heap[v.leases[mac]].hostname, IpOf(v, mac), c, fqdn)
  {
    var r := v.leases[mac];
    var l := Committing(v.heap[r], c, fqdn, now);
    var w := Put(v, r, l);
    TouchKeeps(v, c, mac, l);
    UpdateKeeps(w, c, mac);
    if IndexUpdate(w, c, r).None? {
      RemoveKeeps(w, c, mac);
    }
  }

  /** The effect of a commit on the interface. */
  lemma {:induction false} CommitShape(v: View, c: Conf, mac: Mac, fqdn: string, now: int)
    requires mac in v.leases && v.heap[v.leases[mac]].hw == mac
    ensures var w := Commit(v, c, v.leases[mac], fqdn, now).v;
            && w.heap == v.heap[v.leases[mac] := Committing(v.heap[v.leases[mac]], c, fqdn, now)]
            && (|| (w.leases == v.leases && w.bits == v.bits)
                || (w.leases == v.leases - {mac} && w.bits == v.bits - {Offset(c.range, IpOf(v, mac))}))
  {
  }

  /** Committing the lease of mac cannot repair another key. */
  lemma {:induction false} CommitStaysBroken(v: View, c: Conf, mac: Mac, fqdn: string, now: int)
    requires BrokenBeside(v, mac) && v.heap[v.leases[mac]].hw == mac
    ensures !Sound(Commit(v, c, v.leases[mac], fqdn, now).v, c)
  {
    var m :| m in v.leases && m != mac && (v.heap[v.leases[m]].hw == mac || IpOf(v, m) == IpOf(v, mac));
    CommitShape(v, c, mac, fqdn, now);
    var w := Commit(v, c, v.leases[mac], fqdn, now).v;
    assert m in w.leases && w.leases[m] == v.leases[m];
    assert w.heap[w.leases[m]].hw == v.heap[v.leases[m]].hw && IpOf(w, m) == IpOf(v, m);
  }

  lemma {:induction false} LeaseForKeeps(v: View, c: Conf, mac: Mac, env: Env)
    requires Sound(v, c)
    ensures var a := LeaseFor(v, c, mac, env);
            var safe := mac in v.leases || ReclaimSafe(v, c, env.now, env.order, env.probe, 0);
            && (Sound(a.v, c) <==> safe)
            && (safe ==> Local(v, a.v, c) && (a.Leased? ==> mac in a.v.leases && a.v.leases[mac] == a.r))
            && (!safe && a.Leased? ==> BrokenBeside(a.v, mac) && a.v.leases[mac] == a.r && a.v.heap[a.r].hw == mac)
  {
    if mac !in v.leases {
      AllocateSoundIff(v, c, mac, env.now, env.order, env.probe);
      if !ReclaimSafe(v, c, env.now, env.order, env.probe, 0) {
        UnsafeReclaimBreaks(v, c, mac, env.now, env.order, env.probe, 0);
      }
    }
  }

  lemma {:induction false} SolicitKeeps(v: View, c: Conf, msg: Msg6, env: Env)
    requires Sound(v, c) && msg.kind.Solicit?
    ensures var o := HandleSolicit(v, c, msg, env);
            && (Sound(o.v, c) <==> Safe6(v, c, msg, env))
            && (Sound(o.v, c) ==> Local(v, o.v, c) && ReplyOk6(o.v, c, msg, env, o.reply))
  {
    if NoServerId(msg) && FirstIana(msg.ianas).Some? {
      LeaseForKeeps(v, c, msg.mac, env);
      var a := LeaseFor(v, c, msg.mac, env);
      if a.Leased? && msg.rapid {
        if Safe6(v, c, msg, env) {
          CommitKeeps(a.v, c, msg.mac, msg.fqdn, env.now);
        } else {
          CommitStaysBroken(a.v, c, msg.mac, msg.fqdn, env.now);
        }
      }
    }
  }

  lemma {:induction false} AnswerKeeps(v: View, c: Conf, msg: Msg6, id: Codec.U32, now: int)
    requires Sound(v, c) && msg.mac in v.leases
    ensures var o := CommitAndAnswer(v, c, v.leases[msg.mac], msg, id, now);
            && Sound(o.v, c) && Local(v, o.v, c)
            && o.reply.Answer? && o.reply.to == msg.mac && !o.reply.rapid
            && (o.reply.ia.IaLease? ==>
                  o.reply.ia == IaLease(id, IpOf(v, msg.mac)) && Bound(o.v, c, msg.mac, IpOf(v, msg.mac), now))
  {
    CommitKeeps(v, c, msg.mac, msg.fqdn, now);
  }

  lemma {:induction false} IanaForRequestKeeps(v: View, c: Conf, msg: Msg6, id: Codec.U32, env: Env)
    requires Sound(v, c)
    ensures var o := IanaForRequest(v, c, msg, id, env);
            && (Sound(o.v, c) <==> msg.mac in v.leases || ReclaimSafe(v, c, env.now, env.order, env.probe, 0))
            && (Sound(o.v, c) ==> Local(v, o.v, c))
            && !o.reply.Advertise?
            && (o.reply.Answer? ==> o.reply.to == msg.mac && !o.reply.rapid)
            && (Sound(o.v, c) && o.reply.Answer? && o.reply.ia.IaLease? ==>
                  o.reply.ia.id == id && Bound(o.v, c, msg.mac, o.reply.ia.addr, env.now))
  {
    LeaseForKeeps(v, c, msg.mac, env);
    var a := LeaseFor(v, c, msg.mac, env);
    if a.Leased? {
      if msg.mac in v.leases || ReclaimSafe(v, c, env.now, env.order, env.probe, 0) {
        AnswerKeeps(a.v, c, msg, id, env.now);
        ComposeLocal(v, a.v, CommitAndAnswer(a.v, c, a.r, msg, id, env.now).v, c);
      } else {
        CommitStaysBroken(a.v, c, msg.mac, msg.fqdn, env.now);
      }
    }
  }

  lemma {:induction false} RequestKeeps(v: View, c: Conf, msg: Msg6, env: Env)
    requires Sound(v, c) && msg.kind.Request?
    ensures var o := HandleRequest(v, c, msg, env);
            && (Sound(o.v, c) <==> Safe6(v, c, msg, env))
            && (Sound(o.v, c) ==> Local(v, o.v, c) && ReplyOk6(o.v, c, msg, env, o.reply))
  {
    var iana := FirstIana(msg.ianas);
    if iana.Some? && ForThisServer(c, msg) {
      var wanted := Codec.RequestedAddr(iana.value);
      if wanted.Some? ==> PrefixContains(c.subnet, wanted.value) {
        assert HandleRequest(v, c, msg, env) == IanaForRequest(v, c, msg, iana.value.id, env);
        IanaForRequestKeeps(v, c, msg, iana.value.id, env);
      }
    }
  }

  lemma {:induction false} IanaForUpdateKeeps(v: View, c: Conf, msg: Msg6, iana: Codec.Iana, env: Env)
    requires Sound(v, c)
    ensures var o := IanaForUpdate(v, c, msg, iana, env);
            && Sound(o.v, c) && Local(v, o.v, c)
            && o.reply.Answer? && o.reply.to == msg.mac && !o.reply.rapid
            && (o.reply.ia.IaLease? ==>
                  && o.reply.ia.id == iana.id && Codec.RequestedAddr(iana) == Some(o.reply.ia.addr)
                  && Bound(o.v, c, msg.mac, o.reply.ia.addr, env.now))
  {
    if msg.mac in v.leases {
      AnswerKeeps(v, c, msg, iana.id, env.now);
    }
  }

  lemma {:induction false} UpdateMessageKeeps(v: View, c: Conf, msg: Msg6, env: Env)
    requires Sound(v, c) && (msg.kind.Renew? || msg.kind.Rebind?)
    ensures var o := HandleUpdate(v, c, msg, env);
            Sound(o.v, c) && Local(v, o.v, c) && ReplyOk6(o.v, c, msg, env, o.reply)
  {
    if FirstIana(msg.ianas).Some? {
      IanaForUpdateKeeps(v, c, msg, FirstIana(msg.ianas).value, env);
    }
  }

  lemma {:induction false} GiveUpKeeps(v: View, c: Conf, msg: Msg6, env: Env)
    requires Sound(v, c) && (msg.kind.Release? || msg.kind.Decline?)
    ensures var o := HandleGiveUp(v, c, msg, env);
            Sound(o.v, c) && Local(v, o.v, c) && ReplyOk6(o.v, c, msg, env, o.reply)
  {
    if msg.mac in v.leases {
      BlockKeeps(v, c, msg.mac, env.now);
      IndexRemoveKeeps(v, c, msg.mac);
    }
  }

  /** Every DHCPv6 message keeps a sound interface sound, exactly under Safe6, and
      every reply is right about the state it leaves behind. */
  lemma {:induction false} Handle6Keeps(v: View, c: Conf, msg: Msg6, env: Env)
    requires Sound(v, c)
    ensures var o := Handle6(v, c, msg, env);
            && (Sound(o.v, c) <==> Safe6(v, c, msg, env))
            && (Sound(o.v, c) ==> Local(v, o.v, c) && ReplyOk6(o.v, c, msg, env, o.reply))
  {
    match msg.kind
    case Solicit => SolicitKeeps(v, c, msg, env);
    case Request => RequestKeeps(v, c, msg, env);
    case Confirm =>
    case Renew => UpdateMessageKeeps(v, c, msg, env);
    case Rebind => UpdateMessageKeeps(v, c, msg, env);
    case InfoRequest =>
    case Release => GiveUpKeeps(v, c, msg, env);
    case Decline => GiveUpKeeps(v, c, msg, env);
  }

  // ---- Which answer ----

  /** The identifiers that section 16 of RFC 9915 asks of each kind of message, and for an
      Information-request that no address is asked for. */
  predicate Accepts(c: Conf, msg: Msg6) {
    match msg.kind
    case Solicit => msg.serverId.None? && msg.clientId
    case Request => msg.serverId == Some(c.duid) && msg.clientId
    case Confirm => msg.serverId.None? && msg.clientId
    case Renew => msg.serverId == Some(c.duid) && msg.clientId
    case Rebind => msg.serverId.None? && msg.clientId
    case InfoRequest => (msg.serverId.Some? ==> msg.serverId.value == c.duid) && msg.ianas == [] && !msg.iata
    case Release => msg.serverId == Some(c.duid) && msg.clientId
    case Decline => msg.serverId == Some(c.duid) && msg.clientId
  }

  /** The client has no lease and gets to the allocation, and the search for an address
      panics. */
  predicate Panics(v: View, c: Conf, msg: Msg6) {
    Allocates(v, c, msg) && NextIP(c.range, v.bits).Panicked?
  }

  /** A message that is not acceptable changes nothing and is not answered; an acceptable one
      is answered unless it is a Solicit without a decodable IA_NA, a Confirm without an
      address, or the address search panics. */
  lemma {:induction false} SilentIff(v: View, c: Conf, msg: Msg6, env: Env)
    ensures var o := Handle6(v, c, msg, env);
            && (!Accepts(c, msg) ==> o == Outcome6(v, Silent6))
            && (Accepts(c, msg) ==> (o.reply.Silent6? <==> AsksNothing(msg) || Panics(v, c, msg)))
  {
    match msg.kind
    case Solicit => SolicitSilent(v, c, msg, env);
    case Request => RequestSilent(v, c, msg, env);
    case Confirm => ConfirmRight(v, c, msg, env);
    case Renew =>
    case Rebind =>
    case InfoRequest =>
    case Release =>
    case Decline =>
  }

  /** A Solicit without a decodable IA_NA or a Confirm without an address. */
  ghost predicate AsksNothing(msg: Msg6) {
    || (msg.kind.Solicit? && forall i :: 0 <= i < |msg.ianas| ==> Codec.DecodeSpec(msg.ianas[i]).Malformed?)
    || (msg.kind.Confirm? && forall i, a :: !Carries(msg.ianas, i, a))
  }

  lemma {:induction false} SolicitSilent(v: View, c: Conf, msg: Msg6, env: Env)
    requires msg.kind.Solicit?
    ensures var o := HandleSolicit(v, c, msg, env);
            && (!Accepts(c, msg) ==> o == Outcome6(v, Silent6))
            && (Accepts(c, msg) ==> (o.reply.Silent6? <==> AsksNothing(msg) || Panics(v, c, msg)))
  {
    FirstIanaIs(msg.ianas);
    LeaseForAborts(v, c, msg.mac, env);
  }

  lemma {:induction false} RequestSilent(v: View, c: Conf, msg: Msg6, env: Env)
    requires msg.kind.Request?
    ensures var o := HandleRequest(v, c, msg, env);
            && (!Accepts(c, msg) ==> o == Outcome6(v, Silent6))
            && (Accepts(c, msg) ==> (o.reply.Silent6? <==> Panics(v, c, msg)))
  {
    LeaseForAborts(v, c, msg.mac, env);
  }

  lemma {:induction false} LeaseForAborts(v: View, c: Conf, mac: Mac, env: Env)
    ensures LeaseFor(v, c, mac, env).Aborted? <==> mac !in v.leases && NextIP(c.range, v.bits).Panicked?
  {
    if mac !in v.leases { AbortedIff(v, c, mac, env.now, env.order, env.probe, 0); }
  }

  /** An acceptable message that asks for no address is answered without one and changes
      nothing: an Information-request, a Request without a decodable IA_NA, a Renew or Rebind
      whose first decodable IA_NA has no address, and, with the status Success, a Release or
      Decline that has no address at all. */
  lemma {:induction false} BareAnswers(v: View, c: Conf, msg: Msg6, env: Env)
    requires Accepts(c, msg)
    requires match msg.kind
             case InfoRequest => true
             case Request => FirstIana(msg.ianas).None?
             case Renew => FirstIana(msg.ianas).Some? ==> FirstIana(msg.ianas).value.nested == []
             case Rebind => FirstIana(msg.ianas).Some? ==> FirstIana(msg.ianas).value.nested == []
             case Release => FirstIanaAddr(msg.ianas).None?
             case Decline => FirstIanaAddr(msg.ianas).None?
             case _ => false
    ensures var status := if msg.kind.Release? || msg.kind.Decline? then Some(STATUS_SUCCESS) else None;
            Handle6(v, c, msg, env) == Outcome6(v, Answer(msg.mac, NoIa, status, false))
  {
  }

  /** The i-th option can be decoded and carries the address. */
  ghost predicate Carries(ianas: seq<seq<byte>>, i: int, a: Codec.IaAddr) {
    0 <= i < |ianas| && Codec.DecodeSpec(ianas[i]).Ok? && a in Codec.DecodeSpec(ianas[i]).value.nested
  }

  lemma {:induction false} NestedAddrsIff(ianas: seq<seq<byte>>, a: Codec.IaAddr)
    ensures a in NestedAddrs(ianas) <==> exists i :: Carries(ianas, i, a)
  {
    if ianas != [] {
      var rest := ianas[1..];
      NestedAddrsIff(rest, a);
      if i :| Carries(ianas, i, a) {
        assert i > 0 ==> Carries(rest, i - 1, a);
      }
      if i :| Carries(rest, i, a) {
        assert Carries(ianas, i + 1, a);
      }
      assert Carries(ianas, 0, a) <==> Codec.DecodeSpec(ianas[0]).Ok? && a in Codec.DecodeSpec(ianas[0]).value.nested;
    }
  }

  /** A Confirm changes nothing; it stays unanswered exactly if it is not acceptable or
      carries no address, and is answered NotOnLink exactly if it carries an address, in
      whichever option, that is off the link (section 18.3.3 of RFC 9915). */
  lemma {:induction false} ConfirmRight(v: View, c: Conf, msg: Msg6, env: Env)
    requires msg.kind.Confirm?
    ensures var o := Handle6(v, c, msg, env);
            var offLink := exists i, a :: Carries(msg.ianas, i, a) && !PrefixContains(c.subnet, a.addr);
            && o.v == v
            && (o.reply.Silent6? <==> !NoServerId(msg) || !exists i, a :: Carries(msg.ianas, i, a))
            && var status := if offLink then Some(STATUS_NOT_ON_LINK) else None;
               o.reply.Silent6? || o.reply == Answer(msg.mac, NoIa, status, false)
  {
    OnLinkIff(msg.ianas, c.subnet);
  }

  lemma {:induction false} OnLinkIff(ianas: seq<seq<byte>>, subnet: Prefix)
    ensures var addrs := NestedAddrs(ianas);
            && (addrs == [] <==> forall i, a :: !Carries(ianas, i, a))
            && ((forall n :: 0 <= n < |addrs| ==> PrefixContains(subnet, addrs[n].addr)) <==>
                forall i, a :: Carries(ianas, i, a) ==> PrefixContains(subnet, a.addr))
  {
    var addrs := NestedAddrs(ianas);
    forall i, a | Carries(ianas, i, a) ensures a in addrs {
      NestedAddrsIff(ianas, a);
    }
    forall n | 0 <= n < |addrs| ensures exists i :: Carries(ianas, i, addrs[n]) {
      NestedAddrsIff(ianas, addrs[n]);
    }
    assert addrs != [] ==> exists i :: Carries(ianas, i, addrs[0]);
  }

  /** A Release or Decline answered with an empty IA_NA took exactly the lease of the sender
      at the named address: released, it is unknown to the index; declined, the index keeps
      it as blocked.  Answered NoBinding it changed nothing, and that is exactly if the
      sender does not hold the address or the index cannot remove it. */
  lemma {:induction false} GiveUpRight(v: View, c: Conf, msg: Msg6, env: Env)
    requires Sound(v, c) && (msg.kind.Release? || msg.kind.Decline?)
    requires ForThisServer(c, msg) && FirstIanaAddr(msg.ianas).Some?
    ensures var o := Handle6(v, c, msg, env);
            var id := FirstIanaAddr(msg.ianas).value.id;
            var x := Codec.RequestedAddr(FirstIanaAddr(msg.ianas).value).value;
            var held := msg.mac in v.leases && IpOf(v, msg.mac) == x;
            var known := held && x in v.byAddr && Lower(v.heap[v.leases[msg.mac]].hostname) in v.byName;
            if held && (msg.kind.Decline? || known) then
              && o.reply == Answer(msg.mac, IaEmpty(id), Some(STATUS_SUCCESS), false)
              && o.v.leases == v.leases - {msg.mac}
              && (forall m :: m in o.v.leases ==> IpOf(o.v, m) != x)
              && (msg.kind.Release? ==> x !in o.v.byAddr)
              && (msg.kind.Decline? ==> o.v.byAddr == v.byAddr && o.v.heap[v.leases[msg.mac]].IsBlocked())
            else
              o.v == v && o.reply == Answer(msg.mac, IaStatus(id, STATUS_NO_BINDING), None, false)
  {
    if msg.mac in v.leases {
      DistinctRefs(v, c, msg.mac);
      BlockKeeps(v, c, msg.mac, env.now);
      BlockShape(v, c, v.leases[msg.mac], env.now);
      IndexRemoveKeeps(v, c, msg.mac);
    }
  }

  /** A Renew or Rebind that names an address is answered NoBinding exactly if the sender
      does not hold that address, and then changes nothing; otherwise it is answered with
      that address or, if the commit fails, NoAddrsAvail. */
  lemma {:induction false} UpdateAnswers(v: View, c: Conf, msg: Msg6, env: Env)
    requires Sound(v, c) && (msg.kind.Renew? || msg.kind.Rebind?)
    requires if msg.kind.Renew? then ForThisServer(c, msg) else NoServerId(msg)
    requires FirstIana(msg.ianas).Some? && Codec.RequestedAddr(FirstIana(msg.ianas).value).Some?
    ensures var o := Handle6(v, c, msg, env);
            var id := FirstIana(msg.ianas).value.id;
            var x := Codec.RequestedAddr(FirstIana(msg.ianas).value).value;
            if msg.mac in v.leases && IpOf(v, msg.mac) == x then
              o.reply == Answer(msg.mac, IaOfLease(o.v, msg.mac, id), None, false) && SameAddress(v, o.v, msg.mac)
            else
              o.v == v && o.reply == Answer(msg.mac, IaStatus(id, STATUS_NO_BINDING), None, false)
  {
    var iana := FirstIana(msg.ianas).value;
    assert Handle6(v, c, msg, env) == IanaForUpdate(v, c, msg, iana, env);
    IanaForUpdateIs(v, c, msg, iana, env);
  }

  lemma {:induction false} IanaForUpdateIs(v: View, c: Conf, msg: Msg6, iana: Codec.Iana, env: Env)
    requires Sound(v, c) && Codec.RequestedAddr(iana).Some?
    ensures var o := IanaForUpdate(v, c, msg, iana, env);
            var x := Codec.RequestedAddr(iana).value;
            if msg.mac in v.leases && IpOf(v, msg.mac) == x then
              o.reply == Answer(msg.mac, IaOfLease(o.v, msg.mac, iana.id), None, false) && SameAddress(v, o.v, msg.mac)
            else
              o.v == v && o.reply == Answer(msg.mac, IaStatus(iana.id, STATUS_NO_BINDING), None, false)
  {
    if msg.mac in v.leases {
      AnswerIs(v, c, msg, iana.id, env.now);
    }
  }

  lemma {:induction false} AnswerIs(v: View, c: Conf, msg: Msg6, id: Codec.U32, now: int)
    requires Sound(v, c) && msg.mac in v.leases
    ensures var o := CommitAndAnswer(v, c, v.leases[msg.mac], msg, id, now);
            o.reply == Answer(msg.mac, IaOfLease(o.v, msg.mac, id), None, false) && SameAddress(v, o.v, msg.mac)
  {
    CommitKeeps(v, c, msg.mac, msg.fqdn, now);
  }

  /** What a safe allocateForSolicit leaves behind. */
  lemma {:induction false} LeaseForIs(v: View, c: Conf, mac: Mac, env: Env)
    requires Sound(v, c) && (mac in v.leases || ReclaimSafe(v, c, env.now, env.order, env.probe, 0))
    ensures var a := LeaseFor(v, c, mac, env);
            && Sound(a.v, c)
            && (a.Leased? <==> mac in a.v.leases) && (a.Leased? ==> a.v.leases[mac] == a.r)
            && (a.Aborted? <==> mac !in v.leases && NextIP(c.range, v.bits).Panicked?)
            && (mac in v.leases ==> a.v == v)
  {
    if mac !in v.leases {
      AllocateSoundIff(v, c, mac, env.now, env.order, env.probe);
      AbortedIff(v, c, mac, env.now, env.order, env.probe, 0);
    }
  }

  /** A Request is answered NotOnLink, changing nothing, exactly if it names an address off
      the link; otherwise the client is told of the lease it ends up with, which is its
      present one if it has one, or that there is none. */
  lemma {:induction false} RequestAnswers(v: View, c: Conf, msg: Msg6, env: Env)
    requires Sound(v, c) && msg.kind.Request? && Safe6(v, c, msg, env)
    requires ForThisServer(c, msg) && FirstIana(msg.ianas).Some?
    ensures var o := Handle6(v, c, msg, env);
            var id, wanted := FirstIana(msg.ianas).value.id, Codec.RequestedAddr(FirstIana(msg.ianas).value);
            if wanted.Some? && !PrefixContains(c.subnet, wanted.value) then
              o.v == v && o.reply == Answer(msg.mac, IaStatus(id, STATUS_NOT_ON_LINK), None, false)
            else if msg.mac !in v.leases && NextIP(c.range, v.bits).Panicked? then o.reply == Silent6
            else
              o.reply == Answer(msg.mac, IaOfLease(o.v, msg.mac, id), None, false) && SameAddress(v, o.v, msg.mac)
  {
    var id := FirstIana(msg.ianas).value.id;
    if HandleRequest(v, c, msg, env) == IanaForRequest(v, c, msg, id, env) &&
        (msg.mac in v.leases || Allocates(v, c, msg)) {
      IanaForRequestIs(v, c, msg, id, env);
    }
  }

  lemma {:induction false} IanaForRequestIs(v: View, c: Conf, msg: Msg6, id: Codec.U32, env: Env)
    requires Sound(v, c) && (msg.mac in v.leases || ReclaimSafe(v, c, env.now, env.order, env.probe, 0))
    ensures var o := IanaForRequest(v, c, msg, id, env);
            if msg.mac !in v.leases && NextIP(c.range, v.bits).Panicked? then o.reply == Silent6
            else o.reply == Answer(msg.mac, IaOfLease(o.v, msg.mac, id), None, false) && SameAddress(v, o.v, msg.mac)
  {
    LeaseForIs(v, c, msg.mac, env);
    var a := LeaseFor(v, c, msg.mac, env);
    if a.Leased? {
      AnswerIs(a.v, c, msg, id, env.now);
      CommitKeeps(a.v, c, msg.mac, msg.fqdn, env.now);
    }
  }

  /** The IA_NA for the lease of mac, or the status if it has none. */
  function IaOfLease(w: View, mac: Mac, id: Codec.U32): Ia {
    if mac in w.leases then IaLease(id, IpOf(w, mac)) else IaStatus(id, STATUS_NO_ADDRS_AVAIL)
  }

  predicate SameAddress(v: View, w: View, mac: Mac) {
    mac in v.leases && mac in w.leases ==> IpOf(w, mac) == IpOf(v, mac)
  }

  /** A Solicit with an IA_NA is answered with the lease the client ends up with, as a Reply
      exactly if a rapid commit was asked for and succeeded. */
  lemma {:induction false} SolicitAnswers(v: View, c: Conf, msg: Msg6, env: Env)
    requires Sound(v, c) && msg.kind.Solicit? && Safe6(v, c, msg, env)
    requires NoServerId(msg) && FirstIana(msg.ianas).Some?
    ensures var o := Handle6(v, c, msg, env);
            var ia := IaOfLease(o.v, msg.mac, FirstIana(msg.ianas).value.id);
            if msg.mac !in v.leases && NextIP(c.range, v.bits).Panicked? then o.reply == Silent6
            else
              && o.reply == (if msg.rapid && ia.IaLease? then Answer(msg.mac, ia, None, true)
                             else Advertise(msg.mac, ia))
              && SameAddress(v, o.v, msg.mac)
              && (msg.mac in v.leases && !msg.rapid ==> o.v == v)
  {
    LeaseForIs(v, c, msg.mac, env);
    var a := LeaseFor(v, c, msg.mac, env);
    if a.Leased? && msg.rapid {
      CommitKeeps(a.v, c, msg.mac, msg.fqdn, env.now);
    }
  }

  // ---- The answer on the wire ----

  /** iaNAFromLease and its siblings, encoded; times are in seconds. */
  function IaBytes(ia: Ia, t1: Codec.U32, t2: Codec.U32, life: Codec.U32): Option<seq<byte>>
    requires ia.IaLease? ==> ia.addr.fam == V6
    requires ia.IaStatus? ==> ia.status < 0x1_0000
  {
    match ia
    case NoIa => None
    case IaEmpty(id) => Some(Codec.EncodeSpec(Codec.Iana(id, 0, 0, [])))
    case IaStatus(id, status) => Some(Codec.StatusSpec(id, status))
    case IaLease(id, addr) => Some(Codec.EncodeSpec(Codec.Iana(id, t1, t2, [Codec.IaAddr(addr, life, life)])))
  }

  /** A client that decodes the answer sees the address of the lease, or none at all. */
  lemma {:induction false} WireShowsLease(ia: Ia, t1: Codec.U32, t2: Codec.U32, life: Codec.U32)
    requires ia.IaLease? ==> ia.addr.fam == V6
    requires ia.IaStatus? ==> ia.status < 0x1_0000
    requires !ia.NoIa?
    ensures var d := Codec.DecodeSpec(IaBytes(ia, t1, t2, life).value);
            && d.Ok? && d.value.id == ia.id
            && (ia.IaLease? ==> d.value.t1 == t1 && d.value.t2 == t2)
            && d.value.nested == (if ia.IaLease? then [Codec.IaAddr(ia.addr, life, life)] else [])
  {
    match ia
    case IaEmpty(id) => Codec.RoundTrip(Codec.Iana(id, 0, 0, []));
    case IaStatus(id, status) => Codec.StatusHasNoAddrs(id, status);
    case IaLease(id, addr) => Codec.RoundTrip(Codec.Iana(id, t1, t2, [Codec.IaAddr(addr, life, life)]));
  }
}
