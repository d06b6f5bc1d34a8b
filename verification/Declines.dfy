/** A declined address stays unused (section 18.3.8 of RFC 9915): in runs of DHCPv6 messages
    nothing but a reset unblocks a declined committed address. */
module Declines {
  import opened Net
  import opened IpRange
  import opened LeaseModel
  import opened LeaseInvariant
  import opened Dhcp6
  import opened DhcpServer
  import opened Blocks
  import opened Runs

  /** Valid and generated host names are not empty. */
  ghost predicate ProperNames(c: Conf) {
    !c.validHost("") && forall a: Addr :: c.genHost(a) != ""
  }

  // ---- One interface ----

  /** No name in the index is empty, no client has the blocking hardware address, and
      every held lease is either nameless or the one the index has at its address. */
  ghost predicate Orderly(v: View) {
    && "" !in v.byName && BLOCKED !in v.leases
    && (forall m :: m in v.leases ==> v.heap[v.leases[m]].hostname == "" || IndexedIn(v, m))
  }

  /** The step for mac left the entries of other interfaces alone, except possibly entries
      of mac itself at addresses of this interface's range. */
  ghost predicate Tidy(v: View, w: View, c: Conf, mac: Mac) {
    forall a :: a in v.byAddr && v.byAddr[a].iface != c.id ==>
      || (a in w.byAddr && w.byAddr[a] == v.byAddr[a])
      || (v.heap[v.byAddr[a]].hw == mac && Contains(c.range, a))
  }

  ghost predicate Proper(v: View, w: View, c: Conf, mac: Mac) {
    Orderly(w) && Tidy(v, w, c, mac)
  }

  lemma {:induction false} LowerEmpty(s: string)
    ensures Lower(s) == "" <==> s == ""
  {
  }

  /** In an orderly interface no message unblocks anything: what could be released or taken
      over is indexed as the lease of a client. */
  lemma {:induction false} NeverUnblocks(v: View, c: Conf, msg: Msg6, env: Env, x: Addr)
    requires Sound(v, c) && Orderly(v) && Safe6(v, c, msg, env) && Barred(v, x)
    ensures !Unblocks6(v, c, msg, env, x)
  {
    forall m | m in v.leases && IpOf(v, m) == x ensures Lower(v.heap[v.leases[m]].hostname) !in v.byName {
      LowerEmpty(v.heap[v.leases[m]].hostname);
      assert v.heap[v.leases[m]].hw == m;
    }
  }

  /** Losing the lease of m is harmless, and so is forgetting its address if the index has it
      there. */
  lemma {:induction false} LosingProper(v: View, w: View, c: Conf, m: Mac, mac: Mac)
    requires Sound(v, c) && Orderly(v) && m in v.leases
    requires Kept(v, w) && m !in w.leases && "" !in w.byName
    requires w.byAddr == v.byAddr || (w.byAddr == v.byAddr - {IpOf(v, m)} && IndexedIn(v, m))
    ensures Proper(v, w, c, mac)
  {
    assert v.leases[m].iface == c.id;
    forall n | n in w.leases && w.heap[w.leases[n]].hostname != "" ensures IndexedIn(w, n) {
      assert IndexedIn(v, n) && IpOf(v, n) != IpOf(v, m);
    }
  }

  lemma {:induction false} RemoveProper(v: View, c: Conf, m: Mac)
    requires Sound(v, c) && Orderly(v) && m in v.leases
    ensures var res := IndexRemove(v, c, v.heap[v.leases[m]]);
            res.Some? ==> Proper(v, res.value, c, m)
  {
    var l := v.heap[v.leases[m]];
    LowerEmpty(l.hostname);
    var res := IndexRemove(v, c, l);
    if res.Some? {
      LosingProper(v, res.value, c, m, m);
    }
  }

  lemma {:induction false} BlockProper(v: View, c: Conf, m: Mac, now: int)
    requires Sound(v, c) && Orderly(v) && m in v.leases
    ensures var res := BlockLease(v, c, v.leases[m], now);
            res.Some? && Proper(v, res.value, c, m)
  {
    assert v.heap[v.leases[m]].hw == m;
    BlockShape(v, c, v.leases[m], now);
    DistinctRefs(v, c, m);
    LosingProper(v, BlockLease(v, c, v.leases[m], now).value, c, m, m);
  }

  lemma {:induction false} CommitProper(v: View, c: Conf, m: Mac, fqdn: string, now: int)
    requires Sound(v, c) && Orderly(v) && m in v.leases && ProperNames(c)
    ensures Proper(v, Commit(v, c, v.leases[m], fqdn, now).v, c, m)
  {
    var r := v.leases[m];
    var l := Committing(v.heap[r], c, fqdn, now);
    assert l.hostname != "" && l.hw == m && l.ip == IpOf(v, m);
    DistinctRefs(v, c, m);
    var w := Put(v, r, l);
    if IndexUpdate(w, c, r).Some? {
      LowerEmpty(l.hostname);
      UpdateShape(v, c, m, l);
      RebindingProper(v, IndexUpdate(w, c, r).value, c, m, l);
    } else {
      LosingProper(v, RemoveLease(w, c, l).value, c, m, m);
    }
  }

  lemma {:induction false} UpdateShape(v: View, c: Conf, m: Mac, l: Lease)
    requires m in v.leases && l.hw == m && l.ip == IpOf(v, m)
    ensures var res := IndexUpdate(Put(v, v.leases[m], l), c, v.leases[m]);
            res.Some? ==>
              && res.value.leases == v.leases && res.value.heap == v.heap[v.leases[m] := l]
              && res.value.byAddr == v.byAddr[l.ip := v.leases[m]]
              && res.value.byName == (v.byName - {Lower(l.hostname)})[Lower(l.hostname) := v.leases[m]]
              && (l.ip in v.byAddr && v.byAddr[l.ip] != v.leases[m] ==> v.heap[v.byAddr[l.ip]].hw == m)
  {
  }

  lemma {:induction false} RebindingProper(v: View, w: View, c: Conf, m: Mac, l: Lease)
    requires Sound(v, c) && Orderly(v) && m in v.leases && l.hw == m && l.ip == IpOf(v, m)
    requires w.leases == v.leases && w.heap == v.heap[v.leases[m] := l] && "" !in w.byName
    requires w.byAddr == v.byAddr[l.ip := v.leases[m]]
    requires l.ip in v.byAddr && v.byAddr[l.ip] != v.leases[m] ==> v.heap[v.byAddr[l.ip]].hw == m
    ensures Proper(v, w, c, m)
  {
    DistinctRefs(v, c, m);
    forall n | n in w.leases && n != m && w.heap[w.leases[n]].hostname != "" ensures IndexedIn(w, n) {
      assert IndexedIn(v, n) && IpOf(v, n) != l.ip;
    }
    assert IndexedIn(w, m);
    assert v.leases[m].iface == c.id && Contains(c.range, l.ip);
  }

  lemma {:induction false} AllocateProper(v: View, c: Conf, mac: Mac, env: Env)
    requires Sound(v, c) && Orderly(v) && mac !in v.leases && mac != BLOCKED
    requires ReclaimSafe(v, c, env.now, env.order, env.probe, 0)
    ensures Proper(v, Allocate(v, c, mac, env.now, env.order, env.probe, 0).v, c, mac)
  {
    var a := Allocate(v, c, mac, env.now, env.order, env.probe, 0);
    if NextIP(c.range, v.bits).Found? {
      FreshKeeps(v, c, mac, env.now, env.order, env.probe, 0);
      FreshLeavesOrder(v, c, mac, env.now, a);
    } else if NextIP(c.range, v.bits).NoneFree? && FindExpired(v, env.order, env.now).Some? {
      ReclaimKeeps(v, c, mac, env.now, env.order, env.probe, 0);
      var owner := FindExpired(v, env.order, env.now).value;
      LowerEmpty(v.heap[v.leases[owner]].hostname);
      ReclaimLeavesOrder(v, c, mac, env.now, owner, a);
    }
  }

  lemma {:induction false} FreshLeavesOrder(v: View, c: Conf, mac: Mac, now: int, a: Allocation)
    requires Orderly(v) && mac != BLOCKED
    requires Assigned(v, c, mac, now, a) && a.v.byAddr == v.byAddr && a.v.byName == v.byName
    ensures Proper(v, a.v, c, mac)
  {
  }

  lemma {:induction false} ReclaimLeavesOrder(v: View, c: Conf, mac: Mac, now: int, owner: Mac, a: Allocation)
    requires Sound(v, c) && Orderly(v) && owner in v.leases && mac != BLOCKED && mac !in v.leases
    requires TookOver(v, c, mac, now, owner, a) && IndexedIn(v, owner)
    ensures Proper(v, a.v, c, mac)
  {
    assert v.leases[owner].iface == c.id;
    forall m | m in a.v.leases && m != mac && a.v.heap[a.v.leases[m]].hostname != "" ensures IndexedIn(a.v, m) {
      assert IndexedIn(v, m) && IpOf(v, m) != IpOf(v, owner);
    }
  }

  lemma {:induction false} SameProper(v: View, c: Conf, mac: Mac)
    requires Orderly(v)
    ensures Proper(v, v, c, mac)
  {
  }

  /** A commit after an allocation, which touches no object of another interface. */
  lemma {:induction false} Compose(u: View, v: View, w: View, c: Conf, mac: Mac)
    requires Proper(u, v, c, mac) && Proper(v, w, c, mac) && Local(u, v, c)
    ensures Proper(u, w, c, mac)
  {
  }

  lemma {:induction false} LeaseForProper(v: View, c: Conf, mac: Mac, env: Env)
    requires Sound(v, c) && Orderly(v) && mac != BLOCKED
    requires mac in v.leases || ReclaimSafe(v, c, env.now, env.order, env.probe, 0)
    ensures var a := LeaseFor(v, c, mac, env);
            && Proper(v, a.v, c, mac) && Sound(a.v, c) && Local(v, a.v, c)
            && (a.Leased? ==> mac in a.v.leases && a.v.leases[mac] == a.r)
  {
    LeaseForKeeps(v, c, mac, env);
    if mac !in v.leases { AllocateProper(v, c, mac, env); }
  }

  lemma {:induction false} CommitAfter(u: View, v: View, c: Conf, m: Mac, fqdn: string, now: int)
    requires Sound(v, c) && Proper(u, v, c, m) && Local(u, v, c) && m in v.leases && ProperNames(c)
    ensures Proper(u, Commit(v, c, v.leases[m], fqdn, now).v, c, m)
  {
    CommitProper(v, c, m, fqdn, now);
    Compose(u, v, Commit(v, c, v.leases[m], fqdn, now).v, c, m);
  }

  lemma {:induction false} SolicitProper(v: View, c: Conf, msg: Msg6, env: Env)
    requires Sound(v, c) && Orderly(v) && ProperNames(c) && msg.mac != BLOCKED
    requires msg.kind.Solicit? && Safe6(v, c, msg, env)
    ensures Proper(v, HandleSolicit(v, c, msg, env).v, c, msg.mac)
  {
    SameProper(v, c, msg.mac);
    if NoServerId(msg) && FirstIana(msg.ianas).Some? {
      LeaseForProper(v, c, msg.mac, env);
      var a := LeaseFor(v, c, msg.mac, env);
      if a.Leased? && msg.rapid {
        CommitAfter(v, a.v, c, msg.mac, msg.fqdn, env.now);
      }
    }
  }

  lemma {:induction false} IanaForRequestProper(v: View, c: Conf, msg: Msg6, id: Codec.U32, env: Env)
    requires Sound(v, c) && Orderly(v) && ProperNames(c) && msg.mac != BLOCKED
    requires msg.mac in v.leases || ReclaimSafe(v, c, env.now, env.order, env.probe, 0)
    ensures Proper(v, IanaForRequest(v, c, msg, id, env).v, c, msg.mac)
  {
    LeaseForProper(v, c, msg.mac, env);
    var a := LeaseFor(v, c, msg.mac, env);
    if a.Leased? {
      CommitAfter(v, a.v, c, msg.mac, msg.fqdn, env.now);
    }
  }

  lemma {:induction false} RequestProper(v: View, c: Conf, msg: Msg6, env: Env)
    requires Sound(v, c) && Orderly(v) && ProperNames(c) && msg.mac != BLOCKED
    requires msg.kind.Request? && Safe6(v, c, msg, env)
    ensures Proper(v, HandleRequest(v, c, msg, env).v, c, msg.mac)
  {
    SameProper(v, c, msg.mac);
    var iana := FirstIana(msg.ianas);
    if iana.Some? && ForThisServer(c, msg) {
      var wanted := Codec.RequestedAddr(iana.value);
      if wanted.Some? ==> PrefixContains(c.subnet, wanted.value) {
        assert HandleRequest(v, c, msg, env) == IanaForRequest(v, c, msg, iana.value.id, env);
        IanaForRequestProper(v, c, msg, iana.value.id, env);
      }
    }
  }

  lemma {:induction false} UpdateMessageProper(v: View, c: Conf, msg: Msg6, env: Env)
    requires Sound(v, c) && Orderly(v) && ProperNames(c)
    requires msg.kind.Renew? || msg.kind.Rebind?
    ensures Proper(v, HandleUpdate(v, c, msg, env).v, c, msg.mac)
  {
    SameProper(v, c, msg.mac);
    var iana := FirstIana(msg.ianas);
    if iana.Some? && msg.mac in v.leases {
      IanaForUpdateProper(v, c, msg, iana.value, env);
      assert HandleUpdate(v, c, msg, env).v == v ||
             HandleUpdate(v, c, msg, env) == IanaForUpdate(v, c, msg, iana.value, env);
    } else {
      assert HandleUpdate(v, c, msg, env).v == v;
    }
  }

  lemma {:induction false} IanaForUpdateProper(v: View, c: Conf, msg: Msg6, iana: Codec.Iana, env: Env)
    requires Sound(v, c) && Orderly(v) && ProperNames(c) && msg.mac in v.leases
    ensures Proper(v, IanaForUpdate(v, c, msg, iana, env).v, c, msg.mac)
  {
    SameProper(v, c, msg.mac);
    CommitProper(v, c, msg.mac, msg.fqdn, env.now);
  }

  lemma {:induction false} GiveUpProper(v: View, c: Conf, msg: Msg6, env: Env)
    requires Sound(v, c) && Orderly(v) && (msg.kind.Release? || msg.kind.Decline?)
    ensures Proper(v, HandleGiveUp(v, c, msg, env).v, c, msg.mac)
  {
    SameProper(v, c, msg.mac);
    if msg.mac in v.leases {
      if msg.kind.Decline? { BlockProper(v, c, msg.mac, env.now); } else { RemoveProper(v, c, msg.mac); }
    }
  }

  /** Every DHCPv6 message keeps the order of its interface and leaves the entries of the
      others alone. */
  lemma {:induction false} Handle6Proper(v: View, c: Conf, msg: Msg6, env: Env)
    requires Sound(v, c) && Orderly(v) && ProperNames(c) && msg.mac != BLOCKED
    requires Safe6(v, c, msg, env)
    ensures Proper(v, Handle6(v, c, msg, env).v, c, msg.mac)
  {
    SameProper(v, c, msg.mac);
    match msg.kind
    case Solicit => SolicitProper(v, c, msg, env);
    case Request => RequestProper(v, c, msg, env);
    case Confirm =>
    case Renew => UpdateMessageProper(v, c, msg, env);
    case Rebind => UpdateMessageProper(v, c, msg, env);
    case InfoRequest =>
    case Release => GiveUpProper(v, c, msg, env);
    case Decline => GiveUpProper(v, c, msg, env);
  }

  // ---- The whole server ----

  ghost predicate AllProperNames(cs: seq<Conf>) {
    forall i :: 0 <= i < |cs| ==> ProperNames(cs[i])
  }

  ghost predicate OrderlyServer(s: Server, cs: seq<Conf>) {
    && SoundServer(s, cs) && FiledServer(s)
    && "" !in s.byName
    && forall i :: 0 <= i < |cs| ==> Orderly(ViewOf(s, i))
  }

  /** Only DHCPv6 messages of clients with a real hardware address, and resets. */
  predicate Only6(ev: Event) {
    ev.Reset? || (ev.On6? && ev.msg6.mac != BLOCKED)
  }

  /** The client holds no address of this interface's range on another interface. */
  predicate Alone(s: Server, cs: seq<Conf>, ev: Event)
    requires |cs| == |s.ifaces|
  {
    ev.On6? && ev.i < |cs| ==>
      forall j :: 0 <= j < |cs| && j != ev.i && ev.msg6.mac in s.ifaces[j].leases ==>
        !Contains(cs[ev.i].range, IpOf(ViewOf(s, j), ev.msg6.mac))
  }

  /** Where the ranges are disjoint this is always so. */
  lemma {:induction false} DisjointAlone(s: Server, cs: seq<Conf>, ev: Event)
    requires SoundServer(s, cs)
    requires forall i, j, a: Addr ::
               0 <= i < |cs| && 0 <= j < |cs| && Contains(cs[i].range, a) && Contains(cs[j].range, a) ==> i == j
    ensures Alone(s, cs, ev)
  {
    assert forall j :: 0 <= j < |cs| ==> Sound(ViewOf(s, j), cs[j]);
  }

  lemma {:induction false} OthersOrderly(s: Server, cs: seq<Conf>, i: nat, w: View, mac: Mac, j: nat)
    requires OrderlyServer(s, cs) && i < |cs| && j < |cs| && j != i
    requires Local(ViewOf(s, i), w, cs[i]) && Proper(ViewOf(s, i), w, cs[i], mac)
    requires mac in s.ifaces[j].leases ==> !Contains(cs[i].range, IpOf(ViewOf(s, j), mac))
    ensures Orderly(ViewOf(Back(s, i, w), j))
  {
    var before, after := ViewOf(s, j), ViewOf(Back(s, i, w), j);
    assert Orderly(before) && Sound(before, cs[j]);
    forall m | m in after.leases ensures after.heap[after.leases[m]] == before.heap[before.leases[m]] {
      assert before.leases[m].iface == j;
    }
    forall m | m in after.leases && after.heap[after.leases[m]].hostname != "" ensures IndexedIn(after, m) {
      assert IndexedIn(before, m) && before.heap[before.leases[m]].hw == m;
    }
  }

  /** One step keeps the order, and unless it is a reset it unblocks nothing. */
  lemma {:induction false} StepProper(s: Server, cs: seq<Conf>, ev: Event)
    requires OrderlyServer(s, cs) && AllProperNames(cs) && Only6(ev) && Alone(s, cs, ev) && StepSafe(s, cs, ev)
    ensures OrderlyServer(Step(s, cs, ev).s, cs)
    ensures forall x :: BarredIn(s, x) ==> (Unblocks(s, cs, ev, x) <==> ev.Reset?)
  {
    StepSoundIff(s, cs, ev);
    StepBars(s, cs, ev);
    match ev
    case Reset =>
    case On6(i, msg, env) =>
      if i < |cs| {
        MessageOrderly(s, cs, i, msg, env);
        forall x | BarredIn(s, x) ensures !Unblocks(s, cs, ev, x) {
          NeverUnblocks(ViewOf(s, i), cs[i], msg, env, x);
        }
      }
  }

  lemma {:induction false} MessageOrderly(s: Server, cs: seq<Conf>, i: nat, msg: Msg6, env: Env)
    requires OrderlyServer(s, cs) && AllProperNames(cs) && i < |cs| && msg.mac != BLOCKED
    requires Alone(s, cs, On6(i, msg, env)) && Safe6(ViewOf(s, i), cs[i], msg, env)
    ensures var t := Back(s, i, Handle6(ViewOf(s, i), cs[i], msg, env).v);
            "" !in t.byName && forall j :: 0 <= j < |cs| ==> Orderly(ViewOf(t, j))
  {
    var v := ViewOf(s, i);
    assert Sound(v, cs[i]) && Orderly(v);
    Handle6Keeps(v, cs[i], msg, env);
    Handle6Proper(v, cs[i], msg, env);
    var w := Handle6(v, cs[i], msg, env).v;
    assert ViewOf(Back(s, i, w), i) == w;
    forall j | 0 <= j < |cs| && j != i ensures Orderly(ViewOf(Back(s, i, w), j)) {
      OthersOrderly(s, cs, i, w, msg.mac, j);
    }
  }

  // ---- Loading the database ----

  /** A database with names for all leases and without blocked ones loads into an orderly
      server. */
  lemma {:induction false} LoadOrderly(s: Server, cs: seq<Conf>, db: seq<Lease>)
    requires OrderlyServer(s, cs) && AllIndexed(s)
    requires forall k :: 0 <= k < |db| ==> db[k].hostname != "" && !db[k].IsBlocked()
    ensures OrderlyServer(Load(s, cs, db), cs)
    decreases db
  {
    if db != [] {
      LoadOneKeeps(s, cs, db[0]);
      LoadOneOrderly(s, cs, db[0]);
      LoadOrderly(AdminStep(s, cs, Add, db[0]).s, cs, db[1..]);
    }
  }

  lemma {:induction false} LoadOneOrderly(s: Server, cs: seq<Conf>, l: Lease)
    requires OrderlyServer(s, cs) && AllIndexed(s) && l.hostname != "" && !l.IsBlocked()
    ensures OrderlyServer(AdminStep(s, cs, Add, l).s, cs)
  {
    LoadOneKeeps(s, cs, l);
    LoadedNames(s, cs, l);
    CallBars(s, cs, Add, l);
    var t := AdminStep(s, cs, Add, l).s;
    forall i | 0 <= i < |cs| ensures Orderly(ViewOf(t, i)) {
      assert Orderly(ViewOf(s, i));
      assert forall m :: m in t.ifaces[i].leases ==> IndexedIn(ViewOf(t, i), m);
    }
  }

  lemma {:induction false} LoadedNames(s: Server, cs: seq<Conf>, l: Lease)
    requires |cs| == |s.ifaces| && "" !in s.byName && l.hostname != ""
    ensures var t := AdminStep(s, cs, Add, l).s;
            && "" !in t.byName
            && forall i, m :: 0 <= i < |cs| && m in t.ifaces[i].leases ==> m in s.ifaces[i].leases || m == l.hw
  {
    LowerEmpty(l.hostname);
  }

  lemma {:induction false} StartOrderly(cs: seq<Conf>, db: seq<Lease>)
    requires forall i :: 0 <= i < |cs| ==> cs[i].id == i
    requires forall n :: 0 <= n < |db| ==> db[n].hostname != "" && !db[n].IsBlocked()
    ensures OrderlyServer(Load(Empty(|cs|), cs, db), cs)
  {
    LoadOrderly(Empty(|cs|), cs, db);
  }

  // ---- Every run ----

  ghost function IsOrderly(cs: seq<Conf>): Server -> bool {
    (s: Server) => OrderlyServer(s, cs)
  }

  function IsSafe6(cs: seq<Conf>): (Server, Event) -> bool {
    (s: Server, ev: Event) => |cs| == |s.ifaces| && StepSafe(s, cs, ev) && Only6(ev) && Alone(s, cs, ev)
  }

  function IsReset(): (Server, Event) -> bool {
    (s: Server, ev: Event) => ev.Reset?
  }

  lemma {:induction false} OrderlySteps(cs: seq<Conf>)
    requires AllProperNames(cs)
    ensures forall t, ev :: IsOrderly(cs)(t) && IsSafe6(cs)(t, ev) ==> IsOrderly(cs)(Stepper(cs)(t, ev))
  {
    forall t, ev | IsOrderly(cs)(t) && IsSafe6(cs)(t, ev) ensures IsOrderly(cs)(Stepper(cs)(t, ev)) {
      StepProper(t, cs, ev);
    }
  }

  lemma {:induction false} OrderlyAt(s: Server, cs: seq<Conf>, evs: seq<Event>, k: nat)
    requires OrderlyServer(s, cs) && AllProperNames(cs) && k <= |evs|
    requires EveryStep(Stepper(cs), s, evs, IsSafe6(cs))
    ensures OrderlyServer(StateAt(Stepper(cs), s, evs, k), cs)
  {
    OrderlySteps(cs);
    InvariantAt(Stepper(cs), IsOrderly(cs), IsSafe6(cs), s, evs, k);
    assert IsOrderly(cs)(StateAt(Stepper(cs), s, evs, k));
  }

  lemma {:induction false} OnlyResetEnds(s: Server, cs: seq<Conf>, evs: seq<Event>, n: nat, x: Addr)
    requires OrderlyServer(s, cs) && AllProperNames(cs) && n < |evs|
    requires EveryStep(Stepper(cs), s, evs, IsSafe6(cs))
    requires IsBarred(x)(StateAt(Stepper(cs), s, evs, n))
    ensures EndsWhen(Stepper(cs), IsBarred(x), IsReset(), s, evs, n)
  {
    var t := StateAt(Stepper(cs), s, evs, n);
    OrderlyAt(s, cs, evs, n);
    assert IsSafe6(cs)(t, evs[n]);
    StepProper(t, cs, evs[n]);
    StepBars(t, cs, evs[n]);
  }

  /** In every such run a blocked address stays blocked exactly until a reset. */
  lemma {:induction false} BarredUntilReset(s: Server, cs: seq<Conf>, evs: seq<Event>, j: nat, k: nat, x: Addr)
    requires OrderlyServer(s, cs) && AllProperNames(cs) && j <= k <= |evs|
    requires EveryStep(Stepper(cs), s, evs, IsSafe6(cs))
    requires IsBarred(x)(StateAt(Stepper(cs), s, evs, j))
    ensures Lasts(Stepper(cs), IsBarred(x), s, evs, j, k) <==> Without(Stepper(cs), IsReset(), s, evs, j, k)
  {
    forall n | 0 <= n < |evs| && IsBarred(x)(StateAt(Stepper(cs), s, evs, n))
      ensures EndsWhen(Stepper(cs), IsBarred(x), IsReset(), s, evs, n)
    {
      OnlyResetEnds(s, cs, evs, n, x);
    }
    LastsIff(Stepper(cs), IsBarred(x), IsReset(), s, evs, j, k);
  }

  lemma {:induction false} BarredNotGiven(s: Server, cs: seq<Conf>, evs: seq<Event>, k: nat, x: Addr)
    requires OrderlyServer(s, cs) && AllProperNames(cs) && k < |evs|
    requires EveryStep(Stepper(cs), s, evs, IsSafe6(cs))
    requires IsBarred(x)(StateAt(Stepper(cs), s, evs, k))
    ensures NotAssignedAt(s, cs, evs, k, x)
  {
    var t := StateAt(Stepper(cs), s, evs, k);
    OrderlyAt(s, cs, evs, k);
    OnlyResetEnds(s, cs, evs, k, x);
    assert IsSafe6(cs)(t, evs[k]);
    if Assigns(Step(t, cs, evs[k]).reply, x) { AssignedNotBarred(t, cs, evs[k], x); }
  }

  /** Once a committed address has been declined at step j, no later Reply assigns it to
      anybody before the leases are reset. */
  lemma {:induction false} DeclinedNotReassigned(s: Server, cs: seq<Conf>, evs: seq<Event>, j: nat, k: nat, x: Addr)
    requires OrderlyServer(s, cs) && AllProperNames(cs) && j < k < |evs|
    requires EveryStep(Stepper(cs), s, evs, IsSafe6(cs))
    requires Declining(StateAt(Stepper(cs), s, evs, j), cs, evs[j], x)
    requires Without(Stepper(cs), IsReset(), s, evs, j + 1, k)
    ensures NotAssignedAt(s, cs, evs, k, x)
  {
    OrderlyAt(s, cs, evs, j);
    DeclinedIsBarred(StateAt(Stepper(cs), s, evs, j), cs, evs[j], x);
    assert IsBarred(x)(StateAt(Stepper(cs), s, evs, j + 1));
    BarredUntilReset(s, cs, evs, j + 1, k, x);
    BarredNotGiven(s, cs, evs, k, x);
  }

  /** The same for a server that starts from its database. */
  lemma {:induction false} DeclinedAfterStart(cs: seq<Conf>, db: seq<Lease>, evs: seq<Event>, j: nat, k: nat, x: Addr)
    requires (forall i :: 0 <= i < |cs| ==> cs[i].id == i) && AllProperNames(cs) && j < k < |evs|
    requires forall n :: 0 <= n < |db| ==> db[n].hostname != "" && !db[n].IsBlocked()
    requires EveryStep(Stepper(cs), Load(Empty(|cs|), cs, db), evs, IsSafe6(cs))
    requires Declining(StateAt(Stepper(cs), Load(Empty(|cs|), cs, db), evs, j), cs, evs[j], x)
    requires Without(Stepper(cs), IsReset(), Load(Empty(|cs|), cs, db), evs, j + 1, k)
    ensures NotAssignedAt(Load(Empty(|cs|), cs, db), cs, evs, k, x)
  {
    StartOrderly(cs, db);
    DeclinedNotReassigned(Load(Empty(|cs|), cs, db), cs, evs, j, k, x);
  }
}
