/** internal/client/storage.go: the store of persistent clients, its index and its upstream
    configurations together. */
module ClientStorage {
  import opened Net
  import opened ClientIndex
  import opened Upstreams
  import opened Runs

  type MacByIp = Ip -> Option<Mac>

  datatype FindParams = FindParams(clientId: string, remoteIP: Option<Ip>, subnet: Option<Prefix>, mac: Option<Mac>)

  function Get<K, V>(m: map<K, V>, k: K): Option<V> {
    if k in m then Some(m[k]) else None
  }

  function OrElse<V>(a: Option<V>, b: Option<V>): Option<V> {
    if a.Some? then a else b
  }

  /** Storage.findByIP: the index first, then the hardware address the DHCP server leased
      the address to. */
  function ByIp(s: IndexState, ip: Ip, macOf: MacByIp): Option<Uid>
    requires Exact(s)
  {
    OrElse(LookupIp(s, ip), if macOf(ip).Some? then Get(s.byMac, macOf(ip).value) else None)
  }

  /** The client a query with this ClientID and address belongs to. */
  function Select(s: IndexState, id: string, ip: Ip, macOf: MacByIp): Option<Uid>
    requires Exact(s)
  {
    OrElse(Get(s.byClientId, id), ByIp(s, ip, macOf))
  }

  /** Storage.Find: the given parameters in turn. */
  function FindSpec(s: IndexState, ps: FindParams, macOf: MacByIp): Option<Uid>
    requires Exact(s)
  {
    OrElse(if ps.clientId != "" then Get(s.byClientId, ps.clientId) else None,
    OrElse(if ps.remoteIP.Some? then ByIp(s, ps.remoteIP.value, macOf) else None,
    OrElse(if ps.subnet.Some? then Get(s.bySubnet, ps.subnet.value) else None,
           if ps.mac.Some? then Get(s.byMac, ps.mac.value) else None)))
  }

  /** Find skips an empty ClientID and the other two paths look it up; they agree because no
      stored client has an empty ClientID. */
  lemma {:induction false} PathsAgree(s: IndexState, id: string, ip: Ip, macOf: MacByIp)
    requires Exact(s)
    ensures FindSpec(s, FindParams(id, Some(ip), None, None), macOf) == Select(s, id, ip, macOf)
  {
    assert "" !in s.byClientId;
  }

  /** Whoever is selected is a stored client. */
  lemma {:induction false} SelectStored(s: IndexState, id: string, ip: Ip, macOf: MacByIp)
    requires Exact(s)
    ensures var u := Select(s, id, ip, macOf); u.Some? ==> u.value in s.clients
  {
    LookupIpRight(s, ip);
  }

  datatype Answer = Answer(client: Option<Persistent>, common: Common, content: Option<Built>)

  datatype Op =
    | AddOp(p: Persistent)
    | UpdateOp(name: string, p: Persistent)
    | RemoveOp(name: string)
    | CommonOp(conf: Common, now: int)
    | QueryOp(id: string, ip: Ip, macOf: MacByIp)

  /** Common settings are updated at times that differ from each other and from `used`. */
  ghost predicate DistinctTimes(ops: seq<Op>, used: set<int>) {
    TimesLeft(ops, 0, used) && TimesDiffer(ops)
  }

  lemma {:induction false} TimesAdvance(ops: seq<Op>, i: nat, used: set<int>, used': set<int>)
    requires i < |ops| && TimesLeft(ops, i, used) && TimesDiffer(ops)
    requires used' <= used + if ops[i].CommonOp? then {ops[i].now} else {}
    ensures TimesLeft(ops, i + 1, used')
  {
  }

  ghost predicate TimesDiffer(ops: seq<Op>) {
    forall i, j :: 0 <= i < j < |ops| && ops[i].CommonOp? && ops[j].CommonOp? ==> ops[i].now != ops[j].now
  }

  ghost predicate TimesLeft(ops: seq<Op>, done: nat, used: set<int>) {
    forall i :: done <= i < |ops| && ops[i].CommonOp? ==> ops[i].now !in used
  }

  /** The configuration handed out is the fresh build for the client handed out. */
  ghost predicate FreshAnswer(a: Answer) {
    && a.content == (if a.client.Some? then FreshFor(a.client.value, a.common) else None)
    && (a.client.Some? ==> AsBuilt(a.client.value.settings, a.common, a.content))
  }

  function StoredClient(cs: Clients, u: Option<Uid>): Option<Persistent> {
    if u.Some? then Get(cs, u.value) else None
  }

  function FreshFor(p: Persistent, common: Common): Option<Built> {
    FreshBuild(p.settings, common)
  }

  // ---- The storage as one would describe it ----

  /** The stored clients and the common settings, without any index or cache. */
  datatype Simple = Simple(clients: Clients, common: Common)

  ghost predicate SharesId(c: Persistent, p: Persistent) {
    || c.name == p.name
    || (exists k :: k in c.clientIds && k in p.clientIds)
    || (exists k :: k in c.ips && k in p.ips)
    || (exists k :: k in c.subnets && k in p.subnets)
    || (exists k :: k in c.macs && k in p.macs)
  }

  ghost predicate SharesWithOther(cs: Clients, p: Persistent) {
    exists u :: u in cs && u != p.uid && SharesId(cs[u], p)
  }

  ghost predicate IsNamed(cs: Clients, u: Uid, name: string) {
    u in cs && cs[u].name == name
  }

  ghost function Named(cs: Clients, name: string): Option<Uid> {
    if exists u :: IsNamed(cs, u, name) then
      var u :| IsNamed(cs, u, name);
      Some(u)
    else None
  }

  /** What an operation does; a rejected one does nothing. */
  ghost function After(t: Simple, wellFormed: Persistent -> bool, op: Op): Simple {
    match op
    case AddOp(p) =>
      if Acceptable(wellFormed, p) && p.uid !in t.clients && !SharesWithOther(t.clients, p) then
        t.(clients := t.clients[p.uid := p])
      else t
    case UpdateOp(name, p) =>
      var u := Named(t.clients, name);
      if Acceptable(wellFormed, p) && u.Some? && !SharesWithOther(t.clients, p.(uid := u.value)) then
        t.(clients := t.clients[u.value := p.(uid := u.value)])
      else t
    case RemoveOp(name) =>
      var u := Named(t.clients, name);
      if u.Some? then t.(clients := t.clients - {u.value}) else t
    case CommonOp(conf, _) => t.(common := conf)
    case QueryOp(_, _, _) => t
  }

  ghost function Stepping(wellFormed: Persistent -> bool): (Simple, Op) -> Simple {
    (t: Simple, op: Op) => After(t, wellFormed, op)
  }

  ghost predicate OwnsClientId(cs: Clients, o: Uid, id: string) {
    o in cs && id != "" && id in cs[o].clientIds
  }

  ghost predicate OwnsMac(cs: Clients, o: Uid, mac: Mac) {
    o in cs && mac in cs[o].macs
  }

  /** The client a query belongs to, said only in terms of the stored clients: the owner of
      the ClientID, otherwise of the address or of a longest subnet around it, otherwise of
      the hardware address that was leased the address, otherwise nobody. */
  ghost predicate RightClient(cs: Clients, id: string, ip: Ip, macOf: MacByIp, u: Option<Uid>) {
    if exists o :: OwnsClientId(cs, o, id) then u.Some? && OwnsClientId(cs, u.value, id)
    else if !RightForIp(cs, ip, None) then u.Some? && RightForIp(cs, ip, u)
    else if macOf(ip).Some? && exists o :: OwnsMac(cs, o, macOf(ip).value) then
      u.Some? && OwnsMac(cs, u.value, macOf(ip).value)
    else u.None?
  }

  lemma {:induction false} SelectRight(s: IndexState, id: string, ip: Ip, macOf: MacByIp)
    requires Exact(s)
    ensures RightClient(s.clients, id, ip, macOf, Select(s, id, ip, macOf))
  {
    ClientIdOwner(s, id);
    if id !in s.byClientId { AddressRight(s, ip, macOf); }
  }

  ghost predicate HasExactly(cs: Clients, o: Uid, p: Prefix) {
    o in cs && p in cs[o].subnets
  }

  /** What Find must give: the owner of the ClientID, otherwise whom the address belongs to,
      otherwise the owner of exactly the subnet, otherwise of the hardware address, as far as
      these are given, and otherwise nobody. */
  ghost predicate RightFind(cs: Clients, ps: FindParams, macOf: MacByIp, u: Option<Uid>) {
    if exists o :: OwnsClientId(cs, o, ps.clientId) then u.Some? && OwnsClientId(cs, u.value, ps.clientId)
    else if ps.remoteIP.Some? && !RightClient(cs, "", ps.remoteIP.value, macOf, None) then
      u.Some? && RightClient(cs, "", ps.remoteIP.value, macOf, u)
    else if ps.subnet.Some? && exists o :: HasExactly(cs, o, ps.subnet.value) then
      u.Some? && HasExactly(cs, u.value, ps.subnet.value)
    else if ps.mac.Some? && exists o :: OwnsMac(cs, o, ps.mac.value) then u.Some? && OwnsMac(cs, u.value, ps.mac.value)
    else u.None?
  }

  lemma {:induction false} FindRight(s: IndexState, ps: FindParams, macOf: MacByIp)
    requires Exact(s)
    ensures RightFind(s.clients, ps, macOf, FindSpec(s, ps, macOf))
  {
    ClientIdOwner(s, ps.clientId);
    if ps.remoteIP.Some? { AddressRight(s, ps.remoteIP.value, macOf); }
    if ps.subnet.Some? { ExactOwner(s, ps.subnet.value); }
    if ps.mac.Some? { MacOwner(s, ps.mac.value); }
  }

  lemma {:induction false} AddressRight(s: IndexState, ip: Ip, macOf: MacByIp)
    requires Exact(s)
    ensures RightClient(s.clients, "", ip, macOf, ByIp(s, ip, macOf))
    ensures ByIp(s, ip, macOf).Some? ==> !RightClient(s.clients, "", ip, macOf, None)
  {
    if LookupIp(s, ip).Some? {
      SomebodyByIp(s, ip);
    } else {
      LookupIpRight(s, ip);
      if macOf(ip).Some? { MacOwner(s, macOf(ip).value); }
    }
  }

  lemma {:induction false} SomebodyByIp(s: IndexState, ip: Ip)
    requires Exact(s) && LookupIp(s, ip).Some?
    ensures RightForIp(s.clients, ip, LookupIp(s, ip)) && !RightForIp(s.clients, ip, None)
  {
    LookupIpRight(s, ip);
  }

  lemma {:induction false} ExactOwner(s: IndexState, p: Prefix)
    requires Exact(s)
    ensures if p in s.bySubnet then HasExactly(s.clients, s.bySubnet[p], p)
            else forall o :: !HasExactly(s.clients, o, p)
  {
    assert forall o :: HasExactly(s.clients, o, p) <==> o in s.clients && HasSubnet()(s.clients[o], p);
  }

  lemma {:induction false} ClientIdOwner(s: IndexState, id: string)
    requires Exact(s)
    ensures if id in s.byClientId then OwnsClientId(s.clients, s.byClientId[id], id)
            else forall o :: !OwnsClientId(s.clients, o, id)
  {
    assert forall o :: OwnsClientId(s.clients, o, id) ==> HasClientId()(s.clients[o], id);
    assert id in s.byClientId ==> HasClientId()(s.clients[s.byClientId[id]], id);
  }

  lemma {:induction false} MacOwner(s: IndexState, mac: Mac)
    requires Exact(s)
    ensures if mac in s.byMac then OwnsMac(s.clients, s.byMac[mac], mac) else forall o :: !OwnsMac(s.clients, o, mac)
  {
    assert forall o :: OwnsMac(s.clients, o, mac) <==> o in s.clients && HasMac()(s.clients[o], mac);
  }

  lemma {:induction false} NamedIs(s: IndexState, name: string)
    requires Exact(s)
    ensures Named(s.clients, name) == Get(s.byName, name)
  {
    assert forall u :: IsNamed(s.clients, u, name) <==> u in s.clients && HasName()(s.clients[u], name);
  }

  /** The maps report a clash exactly when an identifier is shared with another client. */
  lemma {:induction false} ClashIffShares(s: IndexState, p: Persistent)
    requires Exact(s)
    ensures Clash(s, p) <==> SharesWithOther(s.clients, p)
  {
    ClashInIff(s.byName, s.clients, HasName(), [p.name], p.uid);
    ClashInIff(s.byClientId, s.clients, HasClientId(), p.clientIds, p.uid);
    ClashInIff(s.byIp, s.clients, HasIp(), p.ips, p.uid);
    ClashInIff(s.bySubnet, s.clients, HasSubnet(), p.subnets, p.uid);
    ClashInIff(s.byMac, s.clients, HasMac(), p.macs, p.uid);
    forall c: Persistent ensures SharesId(c, p) <==>
      (|| Meets(HasName(), c, [p.name]) || Meets(HasClientId(), c, p.clientIds) || Meets(HasIp(), c, p.ips)
       || Meets(HasSubnet(), c, p.subnets) || Meets(HasMac(), c, p.macs)) {
      SharedIds(c, p);
    }
  }

  ghost predicate Meets<K(!new)>(has: (Persistent, K) -> bool, c: Persistent, ks: seq<K>) {
    exists k :: k in ks && has(c, k)
  }

  lemma {:induction false} SharedIds(c: Persistent, p: Persistent)
    ensures Meets(HasName(), c, [p.name]) <==> c.name == p.name
    ensures Meets(HasClientId(), c, p.clientIds) <==> exists k :: k in c.clientIds && k in p.clientIds
    ensures Meets(HasIp(), c, p.ips) <==> exists k :: k in c.ips && k in p.ips
    ensures Meets(HasSubnet(), c, p.subnets) <==> exists k :: k in c.subnets && k in p.subnets
    ensures Meets(HasMac(), c, p.macs) <==> exists k :: k in c.macs && k in p.macs
  {
    assert c.name == p.name ==> p.name in [p.name] && HasName()(c, p.name);
  }

  lemma {:induction false} ClashInIff<K(!new)>(
      m: map<K, Uid>, cs: Clients, has: (Persistent, K) -> bool, ks: seq<K>, u: Uid)
    requires Inverse(m, cs, has)
    ensures ClashIn(m, ks, u) <==> exists v :: v in cs && v != u && Meets(has, cs[v], ks)
  {
    if ClashIn(m, ks, u) {
      var i :| 0 <= i < |ks| && ks[i] in m && m[ks[i]] != u;
      assert ks[i] in ks && has(cs[m[ks[i]]], ks[i]);
    }
    if v :| v in cs && v != u && Meets(has, cs[v], ks) {
      var k :| k in ks && has(cs[v], k);
      var i :| 0 <= i < |ks| && ks[i] == k;
      assert m[ks[i]] == v;
    }
  }

  /** The answer is about the client the query belongs to, with the configuration a fresh
      build from that client's and the common settings would give. */
  ghost predicate RightAnswer(t: Simple, id: string, ip: Ip, macOf: MacByIp, a: Answer) {
    && a.common == t.common && FreshAnswer(a)
    && exists u :: RightClient(t.clients, id, ip, macOf, u) && a.client == StoredClient(t.clients, u)
  }

  ghost predicate RightOutcome(t: Simple, op: Op, answer: Option<Answer>) {
    if op.QueryOp? then answer.Some? && RightAnswer(t, op.id, op.ip, op.macOf, answer.value)
    else answer.None?
  }

  /** The answers to the first operations are right, each for the state of its moment. */
  ghost predicate Answered(step: (Simple, Op) -> Simple, start: Simple, ops: seq<Op>, answers: seq<Option<Answer>>) {
    |answers| <= |ops| &&
    forall i :: 0 <= i < |answers| ==> RightOutcome(StateAt(step, start, ops, i), ops[i], answers[i])
  }

  lemma {:induction false} OneMoreAnswer(
      step: (Simple, Op) -> Simple, start: Simple, ops: seq<Op>, answers: seq<Option<Answer>>,
      answer: Option<Answer>)
    requires Answered(step, start, ops, answers) && |answers| < |ops|
    requires RightOutcome(StateAt(step, start, ops, |answers|), ops[|answers|], answer)
    ensures Answered(step, start, ops, answers + [answer])
  {
    var more := answers + [answer];
    forall i | 0 <= i < |more| ensures RightOutcome(StateAt(step, start, ops, i), ops[i], more[i]) {
      assert more[i] == if i < |answers| then answers[i] else answer;
    }
  }

  predicate Acceptable(wellFormed: Persistent -> bool, p: Persistent) {
    p.name != "" && p.IdCount() > 0 && p.uid != 0 && wellFormed(p)
  }

  class Storage {
    const index: Index
    const upstreams: UpstreamManager
    /** Whether the upstreams parse and the tags are allowed. */
    const wellFormed: Persistent -> bool

    /** The upstream configurations belong to the stored clients and carry their settings. */
    ghost predicate Synced()
      reads index, index.subnetToUID, upstreams
    {
      && upstreams.uidToCustomConf.Keys == index.uidToClient.Keys
      && forall u :: u in index.uidToClient ==> upstreams.uidToCustomConf[u].settings == index.uidToClient[u].settings
    }

    ghost predicate Consistent()
      reads index, index.subnetToUID, upstreams
    {
      index.Valid() && upstreams.Valid() && Synced()
    }

    ghost predicate Valid()
      reads index, index.subnetToUID, upstreams
    {
      Consistent() && upstreams.Coherent()
    }

    /** The times recorded with the configurations. */
    ghost function Stamps(): set<int>
      reads upstreams
    {
      (set u | u in upstreams.uidToCustomConf :: upstreams.uidToCustomConf[u].stamp) + {upstreams.confUpdate}
    }

    ghost function Described(): Simple
      requires upstreams.commonConf.Some?
      reads index, upstreams
    {
      Simple(index.uidToClient, upstreams.commonConf.value)
    }

    constructor (wellFormed: Persistent -> bool)
      ensures Valid() && index.uidToClient == map[] && Stamps() == {0} && this.wellFormed == wellFormed
      ensures fresh(index) && fresh(index.subnetToUID) && fresh(upstreams)
      ensures upstreams.objects == map[] && upstreams.closed == []
    {
      this.wellFormed := wellFormed;
      index := new Index();
      upstreams := new UpstreamManager();
    }

    /** Add: stores the client if it shares no identifier with another one, otherwise changes
        nothing. */
    method Add(p: Persistent) returns (ok: bool)
      requires Valid()
      modifies index, index.subnetToUID, upstreams
      ensures Valid()
      ensures ok == (&& Acceptable(wellFormed, p) && p.uid !in old(index.uidToClient)
                     && !SharesWithOther(old(index.uidToClient), p))
      ensures index.uidToClient == if ok then old(index.uidToClient)[p.uid := p] else old(index.uidToClient)
      ensures !ok ==> index.State() == old(index.State()) && upstreams.uidToCustomConf == old(upstreams.uidToCustomConf)
      ensures Stamps() <= old(Stamps()) && upstreams.confUpdate == old(upstreams.confUpdate)
      ensures upstreams.objects == old(upstreams.objects) && upstreams.closed == old(upstreams.closed)
      ensures upstreams.commonConf == old(upstreams.commonConf)
    {
      if !Acceptable(wellFormed, p) || p.uid in index.uidToClient {
        return false;
      }
      ClashIffShares(index.State(), p);
      var clash := index.Clashes(p);
      if clash {
        return false;
      }
      index.Add(p);
      Store(p);
      ok := true;
    }

    /** Update: replaces the client of that name, which keeps its UID. */
    method Update(name: string, p: Persistent) returns (ok: bool)
      requires Valid()
      modifies index, index.subnetToUID, upstreams
      ensures Valid()
      ensures var u := Named(old(index.uidToClient), name);
              && ok == (&& Acceptable(wellFormed, p) && u.Some?
                        && !SharesWithOther(old(index.uidToClient), p.(uid := u.value)))
              && index.uidToClient == (if ok then old(index.uidToClient)[u.value := p.(uid := u.value)]
                                       else old(index.uidToClient))
      ensures !ok ==> index.State() == old(index.State()) && upstreams.uidToCustomConf == old(upstreams.uidToCustomConf)
      ensures Stamps() <= old(Stamps()) && upstreams.confUpdate == old(upstreams.confUpdate)
      ensures upstreams.objects == old(upstreams.objects) && upstreams.closed == old(upstreams.closed)
      ensures upstreams.commonConf == old(upstreams.commonConf)
    {
      NamedIs(index.State(), name);
      if !Acceptable(wellFormed, p) || name !in index.nameToUID {
        return false;
      }
      var stored := index.uidToClient[index.nameToUID[name]];
      ok := Exchange(stored, p.(uid := stored.uid));
    }

    /** The rest of Update, once the stored client is known. */
    method Exchange(stored: Persistent, p: Persistent) returns (ok: bool)
      requires Valid() && stored.uid in index.uidToClient && index.uidToClient[stored.uid] == stored
      requires p.uid == stored.uid
      modifies index, index.subnetToUID, upstreams
      ensures Valid() && ok == !SharesWithOther(old(index.uidToClient), p)
      ensures index.uidToClient == if ok then old(index.uidToClient)[p.uid := p] else old(index.uidToClient)
      ensures !ok ==> index.State() == old(index.State()) && upstreams.uidToCustomConf == old(upstreams.uidToCustomConf)
      ensures Stamps() <= old(Stamps()) && upstreams.confUpdate == old(upstreams.confUpdate)
      ensures upstreams.objects == old(upstreams.objects) && upstreams.closed == old(upstreams.closed)
      ensures upstreams.commonConf == old(upstreams.commonConf)
    {
      ClashIffShares(index.State(), p);
      var clash := index.Clashes(p);
      if clash {
        return false;
      }
      index.Replace(stored, p);
      ghost var s := index.State();
      Store(p);
      assert index.State() == s;
      ok := true;
    }

    /** The end of Add and of Update: the manager takes over the settings of a client that
        the index already stores. */
    method Store(p: Persistent)
      requires upstreams.Valid() && upstreams.Coherent()
      requires p.uid in index.uidToClient && index.uidToClient[p.uid] == p
      requires upstreams.uidToCustomConf.Keys + {p.uid} == index.uidToClient.Keys
      requires forall u :: u in index.uidToClient && u != p.uid ==>
                 upstreams.uidToCustomConf[u].settings == index.uidToClient[u].settings
      modifies upstreams
      ensures upstreams.Valid() && upstreams.Coherent() && Synced()
      ensures Stamps() <= old(Stamps()) && upstreams.confUpdate == old(upstreams.confUpdate)
      ensures upstreams.objects == old(upstreams.objects) && upstreams.closed == old(upstreams.closed)
      ensures upstreams.commonConf == old(upstreams.commonConf)
    {
      upstreams.UpdateCustom(p);
    }

    method RemoveByName(name: string) returns (ok: bool)
      requires Valid()
      modifies index, index.subnetToUID, upstreams
      ensures Valid()
      ensures var u := Named(old(index.uidToClient), name);
              && ok == u.Some?
              && index.uidToClient == if ok then old(index.uidToClient) - {u.value} else old(index.uidToClient)
      ensures !ok ==> index.State() == old(index.State()) && upstreams.uidToCustomConf == old(upstreams.uidToCustomConf)
      ensures Stamps() <= old(Stamps()) && upstreams.confUpdate == old(upstreams.confUpdate)
      ensures upstreams.objects == old(upstreams.objects) && old(upstreams.closed) <= upstreams.closed
      ensures upstreams.commonConf == old(upstreams.commonConf)
    {
      NamedIs(index.State(), name);
      if name !in index.nameToUID {
        return false;
      }
      var p := index.uidToClient[index.nameToUID[name]];
      index.Remove(p);
      var _ := upstreams.Remove(p.uid);
      ok := true;
    }

    /** UpdateCommonUpstreamConfig: the storage is coherent afterwards exactly if no entry that
        already carries the new time was built with other common settings; a time that is
        recorded nowhere is always enough. */
    method UpdateCommon(conf: Common, now: int)
      requires Consistent()
      modifies upstreams
      ensures Consistent() && upstreams.commonConf == Some(conf) && upstreams.confUpdate == now
      ensures Valid() <==> !old(upstreams.Overtaken(conf, now))
      ensures now !in old(Stamps()) ==> Valid()
      ensures Stamps() <= old(Stamps()) + {now} && upstreams.uidToCustomConf == old(upstreams.uidToCustomConf)
      ensures now == old(upstreams.confUpdate) ==> forall u :: upstreams.Ready(u) == old(upstreams.Ready(u))
      ensures upstreams.objects == old(upstreams.objects) && upstreams.closed == old(upstreams.closed)
    {
      assert now !in Stamps() ==> !upstreams.Overtaken(conf, now) by {
        assert forall u :: u in upstreams.uidToCustomConf ==> upstreams.uidToCustomConf[u].stamp in Stamps();
      }
      ghost var s := index.State();
      upstreams.UpdateCommon(conf, now);
      assert index.State() == s;
    }

    /** Storage.findByIP */
    method FindByIP(ip: Ip, macOf: MacByIp) returns (u: Option<Uid>)
      requires index.Valid()
      ensures u == ByIp(index.State(), ip, macOf)
    {
      u := index.FindByIP(ip);
      if u.Some? {
        return;
      }
      var mac := macOf(ip);
      if mac.Some? && mac.value in index.macToUID {
        u := Some(index.macToUID[mac.value]);
      }
    }

    /** Find: one parameter after the other until a client is found. */
    method Find(ps: FindParams, macOf: MacByIp) returns (u: Option<Uid>)
      requires index.Valid()
      ensures u == FindSpec(index.State(), ps, macOf)
    {
      var isClientID, isRemoteIP := ps.clientId != "", ps.remoteIP.Some?;
      var isSubnet, isMAC := ps.subnet.Some?, ps.mac.Some?;
      ghost var s := index.State();
      u := None;
      while true
        invariant u.None?
        invariant isRemoteIP ==> ps.remoteIP.Some?
        invariant isSubnet ==> ps.subnet.Some?
        invariant isMAC ==> ps.mac.Some?
        invariant isClientID ==> ps.clientId != ""
        invariant FindSpec(s, ps, macOf) == FindSpec(s, Left(ps, isClientID, isRemoteIP, isSubnet, isMAC), macOf)
        decreases isClientID, isRemoteIP, isSubnet, isMAC
      {
        if isClientID {
          isClientID := false;
          u := Get(index.clientIDToUID, ps.clientId);
        } else if isRemoteIP {
          isRemoteIP := false;
          u := FindByIP(ps.remoteIP.value, macOf);
        } else if isSubnet {
          isSubnet := false;
          u := index.FindByCIDR(ps.subnet.value);
        } else if isMAC {
          isMAC := false;
          u := Get(index.macToUID, ps.mac.value);
        } else {
          return None;
        }
        if u.Some? {
          return;
        }
      }
    }

    /** The selection at the start of CustomUpstreamConfig. */
    method SelectForUpstream(id: string, ip: Ip, macOf: MacByIp) returns (u: Option<Uid>)
      requires index.Valid()
      ensures u == Select(index.State(), id, ip, macOf)
      ensures u.Some? ==> u.value in index.uidToClient
    {
      u := Get(index.clientIDToUID, id);
      if u.None? {
        u := FindByIP(ip, macOf);
      }
      SelectStored(index.State(), id, ip, macOf);
    }

    /** The selection at the start of ApplyClientFiltering, which spells out findByIP. */
    method SelectForFiltering(id: string, ip: Ip, macOf: MacByIp) returns (u: Option<Uid>)
      requires index.Valid()
      ensures u == Select(index.State(), id, ip, macOf)
    {
      u := Get(index.clientIDToUID, id);
      if u.None? {
        u := index.FindByIP(ip);
      }
      if u.None? {
        var mac := macOf(ip);
        if mac.Some? {
          u := Get(index.macToUID, mac.value);
        }
      }
    }

    /** CustomUpstreamConfig: the configuration of the selected client is rebuilt if it is out
        of date and returned as it is otherwise, which in a valid storage is always what a
        fresh build from the current settings would be. */
    method CustomUpstreamConfig(id: string, ip: Ip, macOf: MacByIp) returns (a: Answer)
      requires Consistent() && upstreams.commonConf.Some?
      modifies upstreams
      ensures Consistent() && Stamps() <= old(Stamps())
      ensures upstreams.commonConf == old(upstreams.commonConf) && upstreams.confUpdate == old(upstreams.confUpdate)
      ensures a.client == StoredClient(index.uidToClient, Select(index.State(), id, ip, macOf))
      ensures a.common == upstreams.commonConf.value && (a.client.None? ==> a.content == None)
      ensures a.client.Some? ==>
                var u := a.client.value.uid;
                && upstreams.Ready(u) == Some(a.content)
                && (old(upstreams.Ready(u)).Some? ==> old(upstreams.Ready(u)) == Some(a.content))
      ensures old(Valid()) ==> Valid() && FreshAnswer(a)
      ensures Continues(old(upstreams.objects), old(upstreams.closed), upstreams.objects, upstreams.closed)
    {
      var common := upstreams.commonConf.value;
      var u := SelectForUpstream(id, ip, macOf);
      if u.None? {
        return Answer(None, common, None);
      }
      ghost var s := index.State();
      var content := Fetch(u.value);
      assert index.State() == s;
      a := Answer(Some(index.uidToClient[u.value]), common, content);
    }

    /** The end of CustomUpstreamConfig, once the client is known. */
    method Fetch(u: Uid) returns (content: Option<Built>)
      requires upstreams.Valid() && Synced() && upstreams.commonConf.Some? && u in index.uidToClient
      modifies upstreams
      ensures upstreams.Valid() && Synced()
      ensures upstreams.commonConf == old(upstreams.commonConf) && upstreams.confUpdate == old(upstreams.confUpdate)
      ensures Stamps() <= old(Stamps())
      ensures upstreams.Ready(u) == Some(content)
      ensures old(upstreams.Ready(u)).Some? ==> old(upstreams.Ready(u)) == Some(content)
      ensures old(upstreams.Coherent()) ==>
                upstreams.Coherent() && content == FreshFor(index.uidToClient[u], upstreams.commonConf.value)
      ensures Continues(old(upstreams.objects), old(upstreams.closed), upstreams.objects, upstreams.closed)
    {
      var proxy := upstreams.Custom(u);
      content := if proxy.Some? then Some(upstreams.objects[proxy.value]) else None;
    }

    /** Shutdown: everything ever built has then been closed exactly once. */
    method Shutdown()
      requires Consistent()
      modifies upstreams
      ensures NoRepeats(upstreams.closed) && (forall h :: h in upstreams.closed <==> h in upstreams.objects)
      ensures upstreams.objects == old(upstreams.objects) && old(upstreams.closed) <= upstreams.closed
    {
      upstreams.Close();
    }

    /** One operation, with what it does and answers according to the simple description; no
        built object is forgotten and no closing undone. */
    method Apply(op: Op) returns (answer: Option<Answer>)
      requires Valid() && upstreams.commonConf.Some? && (op.CommonOp? ==> op.now !in Stamps())
      modifies index, index.subnetToUID, upstreams
      ensures Valid() && upstreams.commonConf.Some?
      ensures Described() == After(old(Described()), wellFormed, op)
      ensures RightOutcome(old(Described()), op, answer)
      ensures Stamps() <= old(Stamps()) + if op.CommonOp? then {op.now} else {}
      ensures Continues(old(upstreams.objects), old(upstreams.closed), upstreams.objects, upstreams.closed)
    {
      answer := None;
      match op
      case AddOp(p) => var _ := Add(p);
      case UpdateOp(name, p) => var _ := Update(name, p);
      case RemoveOp(name) => var _ := RemoveByName(name);
      case CommonOp(conf, now) => UpdateCommon(conf, now);
      case QueryOp(id, ip, macOf) =>
        var a := Query(id, ip, macOf);
        answer := Some(a);
    }

    /** CustomUpstreamConfig of a valid storage, said in terms of the simple description. */
    method Query(id: string, ip: Ip, macOf: MacByIp) returns (a: Answer)
      requires Valid() && upstreams.commonConf.Some?
      modifies upstreams
      ensures Valid() && Stamps() <= old(Stamps()) && upstreams.commonConf == old(upstreams.commonConf)
      ensures RightAnswer(old(Described()), id, ip, macOf, a)
      ensures Continues(old(upstreams.objects), old(upstreams.closed), upstreams.objects, upstreams.closed)
    {
      SelectRight(index.State(), id, ip, macOf);
      a := CustomUpstreamConfig(id, ip, macOf);
    }

    /** In every run of operations the storage does what the simple description does, with
        every index and the cache kept up: the maps stay exact, the configurations coherent
        and the resources balanced, and every query is answered rightly for the clients and
        the common settings of its moment. */
    method Run(ops: seq<Op>) returns (answers: seq<Option<Answer>>)
      requires Valid() && upstreams.commonConf.Some? && DistinctTimes(ops, Stamps())
      modifies index, index.subnetToUID, upstreams
      ensures Valid() && upstreams.commonConf.Some? && |answers| == |ops|
      ensures var step := Stepping(wellFormed);
              && Described() == StateAt(step, old(Described()), ops, |ops|)
              && Answered(step, old(Described()), ops, answers)
      ensures Continues(old(upstreams.objects), old(upstreams.closed), upstreams.objects, upstreams.closed)
    {
      answers := [];
      ghost var step := Stepping(wellFormed);
      ghost var start := Described();
      for i := 0 to |ops|
        invariant Valid() && upstreams.commonConf.Some? && TimesLeft(ops, i, Stamps()) && |answers| == i
        invariant Described() == StateAt(step, start, ops, i) && Answered(step, start, ops, answers)
        invariant Continues(old(upstreams.objects), old(upstreams.closed), upstreams.objects, upstreams.closed)
      {
        ghost var used, objects, closed := Stamps(), upstreams.objects, upstreams.closed;
        var answer := Apply(ops[i]);
        TimesAdvance(ops, i, used, Stamps());
        OneMoreAnswer(step, start, ops, answers, answer);
        assert Described() == step(StateAt(step, start, ops, i), ops[i]);
        Continued(old(upstreams.objects), old(upstreams.closed), objects, closed, upstreams.objects, upstreams.closed);
        answers := answers + [answer];
      }
    }
  }

  /** An update of the common settings that reads the time of the last one: a client asked for
      before and after gets the same configuration both times, so the second answer is a fresh
      build exactly if there is nothing to build or the settings are the same. */
  method QueryAroundUpdate(s: Storage, id: string, ip: Ip, macOf: MacByIp, conf: Common)
    returns (first: Answer, second: Answer)
    requires s.Valid() && s.upstreams.commonConf.Some?
    modifies s.upstreams
    ensures s.Consistent()
    ensures first.client == second.client == StoredClient(s.index.uidToClient, Select(s.index.State(), id, ip, macOf))
    ensures first.common == old(s.upstreams.commonConf.value) && second.common == conf
    ensures FreshAnswer(first) && second.content == first.content
    ensures FreshAnswer(second) <==>
            (first.client.Some? && FilterOut(first.client.value.settings.upstreams) != [] ==> conf == first.common)
  {
    ghost var st := s.index.State();
    first := s.CustomUpstreamConfig(id, ip, macOf);
    assert s.index.State() == st;
    second := AskAgain(s, id, ip, macOf, conf, first);
    StaleIff(first, second);
  }

  method AskAgain(s: Storage, id: string, ip: Ip, macOf: MacByIp, conf: Common, ghost first: Answer)
    returns (second: Answer)
    requires s.Consistent() && first.client == StoredClient(s.index.uidToClient, Select(s.index.State(), id, ip, macOf))
    requires if first.client.Some? then s.upstreams.Ready(first.client.value.uid) == Some(first.content)
             else first.content == None
    modifies s.upstreams
    ensures s.Consistent() && second == Answer(first.client, conf, first.content)
  {
    ghost var st := s.index.State();
    s.UpdateCommon(conf, s.upstreams.confUpdate);
    assert s.index.State() == st;
    second := s.CustomUpstreamConfig(id, ip, macOf);
  }

  lemma {:induction false} StaleIff(first: Answer, second: Answer)
    requires FreshAnswer(first) && second.client == first.client && second.content == first.content
    ensures FreshAnswer(second) <==>
            (first.client.Some? && FilterOut(first.client.value.settings.upstreams) != [] ==>
                second.common == first.common)
  {
  }

  /** Such an update with a stale answer. */
  method StaleAnswer() returns (first: Answer, second: Answer)
    ensures FreshAnswer(first) && first.client.Some? && second.client == first.client
    ensures second.common != first.common && second.content == first.content && !FreshAnswer(second)
  {
    var p := Persistent(1, "client", ["id"], [], [], [], Settings(["1.1.1.1"], 0, false), 0);
    var ip := Ip(Addr(V4, 1), "");
    var s := OneClient(p, Common(0, 10, false, false, false));
    assert "1.1.1.1" in FilterOut(p.settings.upstreams);
    OnlyClient(s.index.State(), p, "id", ip, (_: Ip) => None);
    first, second := QueryAroundUpdate(s, "id", ip, (_: Ip) => None, Common(0, 20, false, false, false));
  }

  lemma {:induction false} OnlyClient(s: IndexState, p: Persistent, id: ClientId, ip: Ip, macOf: MacByIp)
    requires Exact(s) && s.clients == map[p.uid := p] && id in p.clientIds
    ensures Select(s, id, ip, macOf) == Some(p.uid)
  {
    SelectRight(s, id, ip, macOf);
    assert OwnsClientId(s.clients, p.uid, id);
  }

  method OneClient(p: Persistent, conf: Common) returns (s: Storage)
    requires p.uid != 0 && p.name != "" && p.IdCount() > 0
    ensures fresh(s) && fresh(s.upstreams) && s.Valid() && s.index.uidToClient == map[p.uid := p]
    ensures s.upstreams.commonConf == Some(conf)
  {
    s := new Storage((_: Persistent) => true);
    s.UpdateCommon(conf, 5);
    var _ := s.Add(p);
  }

  function Left(ps: FindParams, isClientID: bool, isRemoteIP: bool, isSubnet: bool, isMAC: bool): FindParams {
    FindParams(
      if isClientID then ps.clientId else "",
      if isRemoteIP then ps.remoteIP else None,
      if isSubnet then ps.subnet else None,
      if isMAC then ps.mac else None)
  }
}
