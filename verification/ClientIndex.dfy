/** internal/client/index.go and the identifiers of persistent.go: which persistent client
    an identifier belongs to. */
module ClientIndex {
  import opened Net
  import opened SortedMaps

  /** 0 stands for the zero UUID. */
  type Uid = nat

  /** Never empty: identifiers are validated as host name labels. */
  type ClientId = s: string | s != "" witness "c"

  datatype Ip = Ip(addr: Addr, zone: string)

  /** The upstream settings of a client. */
  datatype Settings = Settings(upstreams: seq<string>, cacheSize: nat, cacheEnabled: bool)

  datatype Persistent = Persistent(
    uid: Uid,
    name: string,
    clientIds: seq<ClientId>,
    ips: seq<Ip>,
    subnets: seq<Prefix>,
    macs: seq<Mac>,
    settings: Settings,
    other: nat)
  {
    function IdCount(): nat { |ips| + |subnets| + |macs| + |clientIds| }
  }

  type Clients = map<Uid, Persistent>

  // ---- The order of subnets ----

  function AddrCompare(x: Addr, y: Addr): int {
    if x == y then 0 else if Less(x, y) then -1 else 1
  }

  /** Longer prefixes first, then by address. */
  function SubnetCompare(x: Prefix, y: Prefix): int {
    if x == y then 0
    else if x.bits == y.bits then AddrCompare(x.addr, y.addr)
    else if x.bits > y.bits then -1
    else 1
  }

  lemma {:induction false} SubnetOrder()
    ensures TotalOrder(SubnetCompare)
  {
    forall a: Prefix, b: Prefix, c: Prefix ensures Chained(SubnetCompare, a, b, c) {
    }
  }

  // ---- Identifier maps ----

  /** m gives every identifier of every stored client that client, and nothing else. */
  ghost predicate Inverse<K(!new)>(m: map<K, Uid>, cs: Clients, has: (Persistent, K) -> bool) {
    && (forall k :: k in m ==> m[k] in cs && has(cs[m[k]], k))
    && (forall u, k :: u in cs && has(cs[u], k) ==> k in m && m[k] == u)
  }

  /** The map after each of the keys was given to u. */
  function Given<K>(m: map<K, Uid>, ks: seq<K>, u: Uid): map<K, Uid> {
    if ks == [] then m else Given(m, ks[..|ks| - 1], u)[ks[|ks| - 1] := u]
  }

  lemma {:induction false} GivenKeys<K(!new)>(m: map<K, Uid>, ks: seq<K>, u: Uid)
    ensures forall k :: k in Given(m, ks, u) <==> k in m || k in ks
    ensures forall k :: k in Given(m, ks, u) ==> Given(m, ks, u)[k] == if k in ks then u else m[k]
  {
    if ks != [] {
      GivenKeys(m, ks[..|ks| - 1], u);
      assert ks == ks[..|ks| - 1] + [ks[|ks| - 1]];
    }
  }

  /** The map after each of the keys was deleted. */
  function Taken<K>(m: map<K, Uid>, ks: seq<K>): map<K, Uid> {
    if ks == [] then m else Taken(m, ks[..|ks| - 1]) - {ks[|ks| - 1]}
  }

  lemma {:induction false} TakenKeys<K(!new)>(m: map<K, Uid>, ks: seq<K>)
    ensures forall k :: k in Taken(m, ks) <==> k in m && k !in ks
    ensures forall k :: k in Taken(m, ks) ==> Taken(m, ks)[k] == m[k]
  {
    if ks != [] {
      TakenKeys(m, ks[..|ks| - 1]);
      assert ks == ks[..|ks| - 1] + [ks[|ks| - 1]];
    }
  }

  lemma {:induction false} GivenOne<K(!new)>(m: map<K, Uid>, k: K, u: Uid)
    ensures Given(m, [k], u) == m[k := u]
  {
    assert [k][..0] == [];
  }

  lemma {:induction false} TakenOne<K(!new)>(m: map<K, Uid>, k: K)
    ensures Taken(m, [k]) == m - {k}
  {
    assert [k][..0] == [];
  }

  /** Some of the keys belongs to a client other than u. */
  predicate ClashIn<K(==)>(m: map<K, Uid>, ks: seq<K>, u: Uid) {
    exists i :: 0 <= i < |ks| && ks[i] in m && m[ks[i]] != u
  }

  lemma {:induction false} GivenInverse<K(!new)>(
      m: map<K, Uid>, cs: Clients, has: (Persistent, K) -> bool, ks: seq<K>, c: Persistent)
    requires Inverse(m, cs, has) && c.uid !in cs
    requires forall k :: k in ks <==> has(c, k)
    requires !ClashIn(m, ks, c.uid)
    ensures Inverse(Given(m, ks, c.uid), cs[c.uid := c], has)
  {
    GivenKeys(m, ks, c.uid);
    forall k | k in ks ensures k !in m {
      var i :| 0 <= i < |ks| && ks[i] == k;
    }
  }

  lemma {:induction false} TakenInverse<K(!new)>(
      m: map<K, Uid>, cs: Clients, has: (Persistent, K) -> bool, ks: seq<K>, u: Uid)
    requires Inverse(m, cs, has) && u in cs
    requires forall k :: k in ks <==> has(cs[u], k)
    ensures Inverse(Taken(m, ks), cs - {u}, has)
  {
    TakenKeys(m, ks);
    assert forall k :: k in ks ==> k in m && m[k] == u;
    var r, left := Taken(m, ks), cs - {u};
    forall k | k in r ensures r[k] in left && has(left[r[k]], k) {
      assert m[k] in cs && has(cs[m[k]], k);
    }
    forall v, k | v in left && has(left[v], k) ensures k in r && r[k] == v {
      assert k in m && m[k] == v;
    }
  }

  /** Deleting the stored client's keys clears the way for any client of the same UID that
      clashes with nobody else. */
  lemma {:induction false} TakenNoClash<K(!new)>(
      m: map<K, Uid>, cs: Clients, has: (Persistent, K) -> bool, old': seq<K>, ks: seq<K>, u: Uid)
    requires Inverse(m, cs, has) && u in cs
    requires forall k :: k in old' <==> has(cs[u], k)
    requires !ClashIn(m, ks, u)
    ensures !ClashIn(Taken(m, old'), ks, u)
  {
    TakenKeys(m, old');
  }

  function HasName(): (Persistent, string) -> bool { (c: Persistent, k: string) => c.name == k }
  function HasClientId(): (Persistent, ClientId) -> bool { (c: Persistent, k: ClientId) => k in c.clientIds }
  function HasIp(): (Persistent, Ip) -> bool { (c: Persistent, k: Ip) => k in c.ips }
  function HasSubnet(): (Persistent, Prefix) -> bool { (c: Persistent, k: Prefix) => k in c.subnets }
  function HasMac(): (Persistent, Mac) -> bool { (c: Persistent, k: Mac) => k in c.macs }

  // ---- Lookup ----

  /** The first subnet in the list that contains the address. */
  function FirstContaining(keys: seq<Prefix>, a: Addr): (p: Option<Prefix>)
    ensures p.Some? ==> p.value in keys && PrefixContains(p.value, a)
    ensures p.None? ==> forall q :: q in keys ==> !PrefixContains(q, a)
  {
    if keys == [] then None
    else if PrefixContains(keys[0], a) then Some(keys[0])
    else FirstContaining(keys[1..], a)
  }

  /** p is longer than q, or as long and written with an address that is not higher. */
  predicate Before(p: Prefix, q: Prefix) {
    q.bits < p.bits || (q.bits == p.bits && !Less(q.addr, p.addr))
  }

  /** In the order of SubnetCompare the first containing subnet is the longest one. */
  lemma {:induction false} FirstIsLongest(keys: seq<Prefix>, a: Addr)
    requires Ascending(SubnetCompare, keys)
    ensures var p := FirstContaining(keys, a);
            p.Some? ==> forall q :: q in keys && PrefixContains(q, a) ==>
                          SubnetCompare(p.value, q) <= 0 && Before(p.value, q)
  {
    if keys != [] {
      if PrefixContains(keys[0], a) {
        forall q | q in keys && PrefixContains(q, a) ensures SubnetCompare(keys[0], q) <= 0 && Before(keys[0], q) {
          var i :| 0 <= i < |keys| && keys[i] == q;
          if i > 0 { assert SubnetCompare(keys[0], keys[i]) < 0; }
        }
      } else {
        FirstIsLongest(keys[1..], a);
      }
    }
  }

  /** The index as a value. */
  datatype IndexState = IndexState(
    clients: Clients,
    byName: map<string, Uid>,
    byClientId: map<ClientId, Uid>,
    byIp: map<Ip, Uid>,
    bySubnet: map<Prefix, Uid>,
    subnetKeys: seq<Prefix>,
    byMac: map<Mac, Uid>)

  /** Every map is exactly the inverse of the identifiers of the stored clients. */
  ghost predicate Exact(s: IndexState) {
    && (forall u :: u in s.clients ==> s.clients[u].uid == u && u != 0)
    && Inverse(s.byName, s.clients, HasName())
    && Inverse(s.byClientId, s.clients, HasClientId())
    && Inverse(s.byIp, s.clients, HasIp())
    && Inverse(s.bySubnet, s.clients, HasSubnet())
    && Inverse(s.byMac, s.clients, HasMac())
    && Ascending(SubnetCompare, s.subnetKeys)
    && (forall p :: p in s.subnetKeys <==> p in s.bySubnet)
  }

  /** No two clients share an identifier of any kind. */
  lemma {:induction false} NoSharedIdentifier(s: IndexState, u: Uid, v: Uid)
    requires Exact(s) && u in s.clients && v in s.clients && u != v
    ensures s.clients[u].name != s.clients[v].name
    ensures forall k :: k in s.clients[u].clientIds ==> k !in s.clients[v].clientIds
    ensures forall k :: k in s.clients[u].ips ==> k !in s.clients[v].ips
    ensures forall k :: k in s.clients[u].subnets ==> k !in s.clients[v].subnets
    ensures forall k :: k in s.clients[u].macs ==> k !in s.clients[v].macs
  {
    var c, d := s.clients[u], s.clients[v];
    if c.name == d.name { OneOwner(s.byName, s.clients, HasName(), u, v, c.name); }
    forall k | k in c.clientIds ensures k !in d.clientIds {
      if k in d.clientIds { OneOwner(s.byClientId, s.clients, HasClientId(), u, v, k); }
    }
    forall k | k in c.ips ensures k !in d.ips {
      if k in d.ips { OneOwner(s.byIp, s.clients, HasIp(), u, v, k); }
    }
    forall k | k in c.subnets ensures k !in d.subnets {
      if k in d.subnets { OneOwner(s.bySubnet, s.clients, HasSubnet(), u, v, k); }
    }
    forall k | k in c.macs ensures k !in d.macs {
      if k in d.macs { OneOwner(s.byMac, s.clients, HasMac(), u, v, k); }
    }
  }

  lemma {:induction false} OneOwner<K(!new)>(
      m: map<K, Uid>, cs: Clients, has: (Persistent, K) -> bool, u: Uid, v: Uid, k: K)
    requires Inverse(m, cs, has) && u in cs && v in cs && has(cs[u], k) && has(cs[v], k)
    ensures u == v
  {
    assert k in m && m[k] == u && m[k] == v;
  }

  /** findByIP */
  function LookupIp(s: IndexState, ip: Ip): (u: Option<Uid>)
    requires forall p :: p in s.subnetKeys ==> p in s.bySubnet
  {
    if ip in s.byIp then Some(s.byIp[ip])
    else
      var p := FirstContaining(s.subnetKeys, ip.addr);
      if p.Some? then Some(s.bySubnet[p.value]) else None
  }

  ghost predicate OwnsIp(cs: Clients, o: Uid, ip: Ip) {
    o in cs && ip in cs[o].ips
  }

  ghost predicate OwnsSubnet(cs: Clients, o: Uid, p: Prefix, a: Addr) {
    o in cs && p in cs[o].subnets && PrefixContains(p, a)
  }

  /** What a lookup by address must find, said only in terms of the stored clients: the
      owner of the exact address, otherwise the owner of the longest containing subnet, of
      equally long ones that written with the lowest address, otherwise nobody. */
  ghost predicate RightForIp(cs: Clients, ip: Ip, u: Option<Uid>) {
    if exists o :: OwnsIp(cs, o, ip) then u.Some? && OwnsIp(cs, u.value, ip)
    else if exists o, q :: OwnsSubnet(cs, o, q, ip.addr) then
      && u.Some?
      && exists p :: OwnsSubnet(cs, u.value, p, ip.addr) &&
           forall o, q :: OwnsSubnet(cs, o, q, ip.addr) ==> Before(p, q)
    else u.None?
  }

  lemma {:induction false} LookupIpRight(s: IndexState, ip: Ip)
    requires Exact(s)
    ensures RightForIp(s.clients, ip, LookupIp(s, ip))
  {
    IpOwner(s, ip);
    if ip !in s.byIp {
      SubnetOwner(s, ip.addr);
    }
  }

  lemma {:induction false} IpOwner(s: IndexState, ip: Ip)
    requires Exact(s)
    ensures if ip in s.byIp then OwnsIp(s.clients, s.byIp[ip], ip) else forall o :: !OwnsIp(s.clients, o, ip)
  {
    assert forall o :: OwnsIp(s.clients, o, ip) <==> o in s.clients && HasIp()(s.clients[o], ip);
  }

  lemma {:induction false} SubnetOwner(s: IndexState, a: Addr)
    requires Exact(s)
    ensures var p := FirstContaining(s.subnetKeys, a);
            if p.Some? then
              && OwnsSubnet(s.clients, s.bySubnet[p.value], p.value, a)
              && forall o, q :: OwnsSubnet(s.clients, o, q, a) ==> Before(p.value, q)
            else forall o, q :: !OwnsSubnet(s.clients, o, q, a)
  {
    FirstIsLongest(s.subnetKeys, a);
    forall o, q | OwnsSubnet(s.clients, o, q, a) ensures q in s.subnetKeys {
      assert HasSubnet()(s.clients[o], q);
    }
    var p := FirstContaining(s.subnetKeys, a);
    if p.Some? {
      assert HasSubnet()(s.clients[s.bySubnet[p.value]], p.value);
    }
  }

  // ---- The index object ----

  /** Some identifier of c belongs to a client with another UID. */
  predicate Clash(s: IndexState, c: Persistent) {
    || ClashIn(s.byName, [c.name], c.uid)
    || ClashIn(s.byClientId, c.clientIds, c.uid)
    || ClashIn(s.byIp, c.ips, c.uid)
    || ClashIn(s.bySubnet, c.subnets, c.uid)
    || ClashIn(s.byMac, c.macs, c.uid)
  }

  function WithClient(s: IndexState, c: Persistent, keys: seq<Prefix>): IndexState {
    IndexState(
      s.clients[c.uid := c],
      Given(s.byName, [c.name], c.uid),
      Given(s.byClientId, c.clientIds, c.uid),
      Given(s.byIp, c.ips, c.uid),
      Given(s.bySubnet, c.subnets, c.uid),
      keys,
      Given(s.byMac, c.macs, c.uid))
  }

  function WithoutClient(s: IndexState, c: Persistent, keys: seq<Prefix>): IndexState {
    IndexState(
      s.clients - {c.uid},
      Taken(s.byName, [c.name]),
      Taken(s.byClientId, c.clientIds),
      Taken(s.byIp, c.ips),
      Taken(s.bySubnet, c.subnets),
      keys,
      Taken(s.byMac, c.macs))
  }

  ghost predicate KeysFit(keys: seq<Prefix>, m: map<Prefix, Uid>) {
    Ascending(SubnetCompare, keys) && forall p :: p in keys <==> p in m
  }

  lemma {:induction false} AddExact(s: IndexState, c: Persistent, keys: seq<Prefix>)
    requires Exact(s) && c.uid != 0 && c.uid !in s.clients && !Clash(s, c)
    requires KeysFit(keys, Given(s.bySubnet, c.subnets, c.uid))
    ensures Exact(WithClient(s, c, keys))
  {
    GivenInverse(s.byName, s.clients, HasName(), [c.name], c);
    GivenInverse(s.byClientId, s.clients, HasClientId(), c.clientIds, c);
    GivenInverse(s.byIp, s.clients, HasIp(), c.ips, c);
    GivenInverse(s.bySubnet, s.clients, HasSubnet(), c.subnets, c);
    GivenInverse(s.byMac, s.clients, HasMac(), c.macs, c);
  }

  lemma {:induction false} RemoveExact(s: IndexState, c: Persistent, keys: seq<Prefix>)
    requires Exact(s) && c.uid in s.clients && s.clients[c.uid] == c
    requires KeysFit(keys, Taken(s.bySubnet, c.subnets))
    ensures Exact(WithoutClient(s, c, keys))
  {
    TakenInverse(s.byName, s.clients, HasName(), [c.name], c.uid);
    TakenInverse(s.byClientId, s.clients, HasClientId(), c.clientIds, c.uid);
    TakenInverse(s.byIp, s.clients, HasIp(), c.ips, c.uid);
    TakenInverse(s.bySubnet, s.clients, HasSubnet(), c.subnets, c.uid);
    TakenInverse(s.byMac, s.clients, HasMac(), c.macs, c.uid);
  }

  lemma {:induction false} RemoveClears(s: IndexState, old': Persistent, c: Persistent, keys: seq<Prefix>)
    requires Exact(s) && old'.uid in s.clients && s.clients[old'.uid] == old' && c.uid == old'.uid
    requires !Clash(s, c)
    ensures !Clash(WithoutClient(s, old', keys), c)
  {
    TakenNoClash(s.byName, s.clients, HasName(), [old'.name], [c.name], c.uid);
    TakenNoClash(s.byClientId, s.clients, HasClientId(), old'.clientIds, c.clientIds, c.uid);
    TakenNoClash(s.byIp, s.clients, HasIp(), old'.ips, c.ips, c.uid);
    TakenNoClash(s.bySubnet, s.clients, HasSubnet(), old'.subnets, c.subnets, c.uid);
    TakenNoClash(s.byMac, s.clients, HasMac(), old'.macs, c.macs, c.uid);
  }

  /** One of the loops of add. */
  method GiveAll<K(==, !new)>(m: map<K, Uid>, ks: seq<K>, u: Uid) returns (r: map<K, Uid>)
    ensures r == Given(m, ks, u)
  {
    r := m;
    for i := 0 to |ks|
      invariant r == Given(m, ks[..i], u)
    {
      assert ks[..i + 1][..i] == ks[..i];
      r := r[ks[i] := u];
    }
    assert ks[..|ks|] == ks;
  }

  /** One of the loops of remove. */
  method TakeAll<K(==, !new)>(m: map<K, Uid>, ks: seq<K>) returns (r: map<K, Uid>)
    ensures r == Taken(m, ks)
  {
    r := m;
    for i := 0 to |ks|
      invariant r == Taken(m, ks[..i])
    {
      assert ks[..i + 1][..i] == ks[..i];
      r := r - {ks[i]};
    }
    assert ks[..|ks|] == ks;
  }

  /** One of the loops of clashes. */
  method FindClash<K(==)>(m: map<K, Uid>, ks: seq<K>, u: Uid) returns (clash: bool)
    ensures clash <==> ClashIn(m, ks, u)
  {
    for i := 0 to |ks|
      invariant forall j :: 0 <= j < i ==> !(ks[j] in m && m[ks[j]] != u)
    {
      if ks[i] in m && m[ks[i]] != u {
        return true;
      }
    }
    clash := false;
  }

  class Index {
    const subnetToUID: SortedMap<Prefix, Uid>
    var nameToUID: map<string, Uid>
    var clientIDToUID: map<ClientId, Uid>
    var ipToUID: map<Ip, Uid>
    var macToUID: map<Mac, Uid>
    var uidToClient: Clients

    ghost function State(): IndexState
      reads this, subnetToUID
    {
      IndexState(uidToClient, nameToUID, clientIDToUID, ipToUID, subnetToUID.vals, subnetToUID.keys, macToUID)
    }

    ghost predicate Valid()
      reads this, subnetToUID
    {
      subnetToUID.Valid() && subnetToUID.cmp == SubnetCompare && Exact(State())
    }

    constructor ()
      ensures Valid() && uidToClient == map[] && fresh(subnetToUID)
    {
      SubnetOrder();
      subnetToUID := new SortedMap(SubnetCompare);
      nameToUID, clientIDToUID, ipToUID, macToUID, uidToClient := map[], map[], map[], map[], map[];
    }

    /** add */
    method Add(c: Persistent)
      requires Valid() && c.uid != 0 && c.uid !in uidToClient && !Clash(State(), c)
      modifies this, subnetToUID
      ensures Valid() && uidToClient == old(uidToClient)[c.uid := c]
    {
      Write(c);
      AddExact(old(State()), c, subnetToUID.keys);
    }

    /** The assignments of add. */
    method Write(c: Persistent)
      requires subnetToUID.Valid()
      modifies this, subnetToUID
      ensures subnetToUID.Valid() && State() == WithClient(old(State()), c, subnetToUID.keys)
      ensures subnetToUID.cmp == SubnetCompare ==> KeysFit(subnetToUID.keys, subnetToUID.vals)
    {
      GivenOne(nameToUID, c.name, c.uid);
      nameToUID := nameToUID[c.name := c.uid];
      clientIDToUID := GiveAll(clientIDToUID, c.clientIds, c.uid);
      ipToUID := GiveAll(ipToUID, c.ips, c.uid);
      SetSubnets(c.subnets, c.uid);
      macToUID := GiveAll(macToUID, c.macs, c.uid);
      uidToClient := uidToClient[c.uid := c];
    }

    method SetSubnets(ps: seq<Prefix>, u: Uid)
      requires subnetToUID.Valid()
      modifies subnetToUID
      ensures subnetToUID.Valid() && subnetToUID.vals == Given(old(subnetToUID.vals), ps, u)
      ensures subnetToUID.cmp == SubnetCompare ==> KeysFit(subnetToUID.keys, subnetToUID.vals)
    {
      for i := 0 to |ps|
        invariant subnetToUID.Valid() && subnetToUID.vals == Given(old(subnetToUID.vals), ps[..i], u)
      {
        assert ps[..i + 1][..i] == ps[..i];
        subnetToUID.Set(ps[i], u);
      }
      assert ps[..|ps|] == ps;
    }

    /** remove */
    method Remove(c: Persistent)
      requires Valid() && c.uid in uidToClient && uidToClient[c.uid] == c
      modifies this, subnetToUID
      ensures Valid() && uidToClient == old(uidToClient) - {c.uid}
      ensures State() == WithoutClient(old(State()), c, subnetToUID.keys)
    {
      Erase(c);
      RemoveExact(old(State()), c, subnetToUID.keys);
    }

    /** The deletions of remove. */
    method Erase(c: Persistent)
      requires subnetToUID.Valid()
      modifies this, subnetToUID
      ensures subnetToUID.Valid() && State() == WithoutClient(old(State()), c, subnetToUID.keys)
      ensures subnetToUID.cmp == SubnetCompare ==> KeysFit(subnetToUID.keys, subnetToUID.vals)
    {
      TakenOne(nameToUID, c.name);
      nameToUID := nameToUID - {c.name};
      clientIDToUID := TakeAll(clientIDToUID, c.clientIds);
      ipToUID := TakeAll(ipToUID, c.ips);
      DelSubnets(c.subnets);
      macToUID := TakeAll(macToUID, c.macs);
      uidToClient := uidToClient - {c.uid};
    }

    /** The remove and add of an update, for a client that keeps its UID. */
    method Replace(stored: Persistent, c: Persistent)
      requires Valid() && stored.uid in uidToClient && uidToClient[stored.uid] == stored
      requires c.uid == stored.uid && !Clash(State(), c)
      modifies this, subnetToUID
      ensures Valid() && uidToClient == old(uidToClient)[c.uid := c]
    {
      ghost var s := State();
      Remove(stored);
      RemoveClears(s, stored, c, subnetToUID.keys);
      Add(c);
    }

    method DelSubnets(ps: seq<Prefix>)
      requires subnetToUID.Valid()
      modifies subnetToUID
      ensures subnetToUID.Valid() && subnetToUID.vals == Taken(old(subnetToUID.vals), ps)
      ensures subnetToUID.cmp == SubnetCompare ==> KeysFit(subnetToUID.keys, subnetToUID.vals)
    {
      for i := 0 to |ps|
        invariant subnetToUID.Valid() && subnetToUID.vals == Taken(old(subnetToUID.vals), ps[..i])
      {
        assert ps[..i + 1][..i] == ps[..i];
        subnetToUID.Del(ps[i]);
      }
      assert ps[..|ps|] == ps;
    }

    /** clashes */
    method Clashes(c: Persistent) returns (clash: bool)
      requires Valid()
      ensures clash <==> Clash(State(), c)
    {
      clash := c.name in nameToUID && uidToClient[nameToUID[c.name]].uid != c.uid;
      assert ClashIn(nameToUID, [c.name], c.uid) <==> clash by { assert [c.name][0] == c.name; }
      if clash {
        return;
      }
      clash := FindClash(clientIDToUID, c.clientIds, c.uid);
      if clash {
        return;
      }
      clash := FindClash(ipToUID, c.ips, c.uid);
      if clash {
        return;
      }
      clash := ClashesSubnet(c.subnets, c.uid);
      if clash {
        return;
      }
      clash := FindClash(macToUID, c.macs, c.uid);
    }

    /** clashesSubnet: looks for each subnet by walking the sorted map. */
    method ClashesSubnet(ps: seq<Prefix>, u: Uid) returns (clash: bool)
      requires subnetToUID.Valid()
      ensures clash <==> ClashIn(subnetToUID.vals, ps, u)
    {
      for i := 0 to |ps|
        invariant forall j :: 0 <= j < i ==> !(ps[j] in subnetToUID.vals && subnetToUID.vals[ps[j]] != u)
      {
        var s := ps[i];
        var stop := subnetToUID.Range((p: Prefix, _: Uid) => s != p);
        if stop.Some? {
          if subnetToUID.vals[subnetToUID.keys[stop.value]] != u {
            return true;
          }
        } else {
          assert s !in subnetToUID.keys;
        }
      }
      clash := false;
    }

    /** findByIP: the exact address, otherwise the first containing subnet. */
    method FindByIP(ip: Ip) returns (u: Option<Uid>)
      requires Valid()
      ensures u == LookupIp(State(), ip)
    {
      if ip in ipToUID {
        return Some(ipToUID[ip]);
      }
      var addr := ip.addr;
      var stop := subnetToUID.Range((p: Prefix, _: Uid) => !PrefixContains(p, addr));
      if stop.Some? {
        FirstAt(subnetToUID.keys, addr, stop.value);
        return Some(subnetToUID.vals[subnetToUID.keys[stop.value]]);
      }
      assert forall q :: q in subnetToUID.keys ==> !PrefixContains(q, addr);
      u := None;
    }

    /** findByCIDR: exact match only. */
    method FindByCIDR(subnet: Prefix) returns (u: Option<Uid>)
      requires Valid()
      ensures u == if subnet in subnetToUID.vals then Some(subnetToUID.vals[subnet]) else None
    {
      var stop := subnetToUID.Range((p: Prefix, _: Uid) => subnet != p);
      if stop.Some? {
        return Some(subnetToUID.vals[subnetToUID.keys[stop.value]]);
      }
      assert subnet !in subnetToUID.keys;
      u := None;
    }
  }

  lemma {:induction false} FirstAt(keys: seq<Prefix>, a: Addr, i: nat)
    requires i < |keys| && PrefixContains(keys[i], a)
    requires forall j :: 0 <= j < i ==> !PrefixContains(keys[j], a)
    ensures FirstContaining(keys, a) == Some(keys[i])
  {
    if i > 0 {
      FirstAt(keys[1..], a, i - 1);
    }
  }
}
