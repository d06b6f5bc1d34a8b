/** internal/dhcpsvc/server.go: all interfaces over one lease index, the messages they
    receive, and what holds in every run. */
module DhcpServer {
  import opened Net
  import opened IpRange
  import opened LeaseModel
  import opened LeaseInvariant
  import opened Dhcp4
  import opened Dhcp6
  import opened Runs

  datatype Iface = Iface(leases: map<Mac, Ref>, bits: set<nat>)

  datatype RawServer = Server(
    heap: map<Ref, Lease>,
    next: nat,
    ifaces: seq<Iface>,
    byAddr: map<Addr, Ref>,
    byName: map<string, Ref>)

  ghost predicate ClosedServer(s: RawServer) {
    && (forall i, m :: 0 <= i < |s.ifaces| && m in s.ifaces[i].leases ==> s.ifaces[i].leases[m] in s.heap)
    && (forall a :: a in s.byAddr ==> s.byAddr[a] in s.heap)
    && (forall n :: n in s.byName ==> s.byName[n] in s.heap)
    && (forall r :: r in s.heap ==> r.n < s.next)
  }

  type Server = s: RawServer | ClosedServer(s) witness Server(map[], 0, [], map[], map[])

  /** Interface i as its handlers see it. */
  function ViewOf(s: Server, i: nat): View
    requires i < |s.ifaces|
  {
    View(s.heap, s.next, s.ifaces[i].leases, s.ifaces[i].bits, s.byAddr, s.byName)
  }

  function Back(s: Server, i: nat, w: View): (t: Server)
    requires i < |s.ifaces| && Grows(ViewOf(s, i), w)
    ensures |t.ifaces| == |s.ifaces|
  {
    Server(w.heap, w.next, s.ifaces[i := Iface(w.leases, w.bits)], w.byAddr, w.byName)
  }

  datatype AdminOp = Add | Update | Remove

  /** A message received on an interface, a call of AddLease, UpdateStaticLease or
      RemoveLease, or a reset. */
  datatype Event =
    | On4(i: nat, msg4: Msg4, env: Env)
    | On6(i: nat, msg6: Msg6, env: Env)
    | Admin(op: AdminOp, l: Lease)
    | Reset

  datatype Reply = Sent4(r4: Reply4) | Sent6(r6: Reply6) | Done(ok: bool) | Nothing

  datatype Result = Result(s: Server, reply: Reply)

  /** Reset forgets all leases but leaves the offset bits of the interfaces set. */
  function ResetServer(s: Server): Server {
    var cleared := seq(|s.ifaces|, i requires 0 <= i < |s.ifaces| => Iface(map[], s.ifaces[i].bits));
    Server(s.heap, s.next, cleared, map[], map[])
  }

  /** ifaceForAddr: the first interface whose range contains the address. */
  function IfaceFor(cs: seq<Conf>, ip: Addr): (i: Option<nat>)
    ensures i.Some? ==> i.value < |cs| && Contains(cs[i.value].range, ip)
    ensures forall j :: 0 <= j < (if i.Some? then i.value else |cs|) ==> !Contains(cs[j].range, ip)
  {
    IfaceForFrom(cs, ip, 0)
  }

  function IfaceForFrom(cs: seq<Conf>, ip: Addr, from: nat): (i: Option<nat>)
    requires from <= |cs|
    ensures i.Some? ==> from <= i.value < |cs| && Contains(cs[i.value].range, ip)
    ensures forall j :: from <= j < (if i.Some? then i.value else |cs|) ==> !Contains(cs[j].range, ip)
    decreases |cs| - from
  {
    if from == |cs| then None
    else if Contains(cs[from].range, ip) then Some(from)
    else IfaceForFrom(cs, ip, from + 1)
  }

  function Empty(n: nat): (s: Server)
    ensures |s.ifaces| == n
  {
    Server(map[], 0, seq(n, _ => Iface(map[], {})), map[], map[])
  }

  /** The new object that holds a copy of l. */
  function Copied(v: View, c: Conf, l: Lease): (w: View)
    ensures Ref(c.id, v.next) in w.heap
  {
    v.(heap := v.heap[Ref(c.id, v.next) := l], next := v.next + 1)
  }

  /** What a call does to the interface of its lease, or None if it is rejected.  A given
      lease becomes a new object. */
  function AdminView(v: View, c: Conf, op: AdminOp, l: Lease): (w: Option<View>)
    ensures w.Some? ==> Grows(v, w.value)
  {
    match op
    case Add => IndexAdd(Copied(v, c, l), c, Ref(c.id, v.next))
    case Update => IndexUpdate(Copied(v, c, l), c, Ref(c.id, v.next))
    case Remove => IndexRemove(v, c, l)
  }

  function AdminStep(s: Server, cs: seq<Conf>, op: AdminOp, l: Lease): (res: Result)
    requires |cs| == |s.ifaces|
    ensures |res.s.ifaces| == |s.ifaces|
  {
    match IfaceFor(cs, l.ip)
    case None => Result(s, Done(false))
    case Some(i) =>
      match AdminView(ViewOf(s, i), cs[i], op, l)
      case None => Result(s, Done(false))
      case Some(w) => Result(Back(s, i, w), Done(true))
  }

  function Step(s: Server, cs: seq<Conf>, ev: Event): (res: Result)
    requires |cs| == |s.ifaces|
    ensures |res.s.ifaces| == |s.ifaces|
  {
    match ev
    case Reset => Result(ResetServer(s), Nothing)
    case Admin(op, l) => AdminStep(s, cs, op, l)
    case On4(i, msg, env) =>
      if i < |cs| then
        var o := Handle4(ViewOf(s, i), cs[i], msg, env);
        Result(Back(s, i, o.v), Sent4(o.reply))
      else Result(s, Nothing)
    case On6(i, msg, env) =>
      if i < |cs| then
        var o := Handle6(ViewOf(s, i), cs[i], msg, env);
        Result(Back(s, i, o.v), Sent6(o.reply))
      else Result(s, Nothing)
  }

  // ---- Every step ----

  ghost predicate SoundServer(s: Server, cs: seq<Conf>) {
    && |cs| == |s.ifaces|
    && (forall i :: 0 <= i < |cs| ==> cs[i].id == i)
    && (forall i :: 0 <= i < |cs| ==> Sound(ViewOf(s, i), cs[i]))
  }

  /** The tests by which the index turns a call away. */
  predicate Rejects(v: View, op: AdminOp, l: Lease) {
    var name := Lower(l.hostname);
    match op
    case Add => l.ip in v.byAddr || name in v.byName || l.hw in v.leases
    case Update =>
      || (l.ip in v.byAddr && v.heap[v.byAddr[l.ip]].hw != l.hw)
      || (name in v.byName && v.heap[v.byName[name]].hw != l.hw)
      || l.hw !in v.leases
    case Remove => l.ip !in v.byAddr || name !in v.byName || l.hw !in v.leases
  }

  lemma {:induction false} RejectedIff(v: View, c: Conf, op: AdminOp, l: Lease)
    ensures AdminView(v, c, op, l).None? <==> Rejects(v, op, l)
  {
    assert Ref(c.id, v.next) !in v.heap;
  }

  /** The guard under which a call is harmless.  None of the index checks look at leases
      that are reserved but not committed, so an address somebody else holds can be taken
      or freed; and an update does not mark the offset of the new address. */
  predicate AdminSafe(v: View, c: Conf, op: AdminOp, l: Lease) {
    Rejects(v, op, l) ||
    (&& (forall m :: m in v.leases && m != l.hw ==> IpOf(v, m) != l.ip)
     && (op.Update? ==> Offset(c.range, l.ip) in v.bits))
  }

  predicate StepSafe(s: Server, cs: seq<Conf>, ev: Event)
    requires |cs| == |s.ifaces|
  {
    match ev
    case Reset => true
    case Admin(op, l) =>
      var i := IfaceFor(cs, l.ip);
      i.Some? ==> AdminSafe(ViewOf(s, i.value), cs[i.value], op, l)
    case On4(i, msg, env) => i < |cs| ==> Safe4(ViewOf(s, i), cs[i], msg, env)
    case On6(i, msg, env) => i < |cs| ==> Safe6(ViewOf(s, i), cs[i], msg, env)
  }

  ghost predicate ReplyOk(s: Server, t: Server, cs: seq<Conf>, ev: Event, reply: Reply)
    requires |cs| == |s.ifaces| == |t.ifaces|
  {
    match reply
    case Nothing => true
    case Done(ok) =>
      && ev.Admin? && (!ok ==> t == s)
      && var i := IfaceFor(cs, ev.l.ip);
         ok == (i.Some? && !Rejects(ViewOf(s, i.value), ev.op, ev.l))
    case Sent4(r) => ev.On4? && ev.i < |cs| && ReplyOk4(ViewOf(s, ev.i), ViewOf(t, ev.i), cs[ev.i], ev.msg4, ev.env, r)
    case Sent6(r) => ev.On6? && ev.i < |cs| && ReplyOk6(ViewOf(t, ev.i), cs[ev.i], ev.msg6, ev.env, r)
  }

  /** A step of one interface does not disturb the others. */
  lemma {:induction false} OthersKept(s: Server, cs: seq<Conf>, i: nat, w: View)
    requires SoundServer(s, cs) && i < |cs| && Local(ViewOf(s, i), w, cs[i])
    ensures ViewOf(Back(s, i, w), i) == w
    ensures forall j :: 0 <= j < |cs| && j != i ==> Sound(ViewOf(Back(s, i, w), j), cs[j])
  {
    var t := Back(s, i, w);
    forall j | 0 <= j < |cs| && j != i ensures Sound(ViewOf(t, j), cs[j]) {
      var before, after := ViewOf(s, j), ViewOf(t, j);
      assert Sound(before, cs[j]);
      assert after.leases == before.leases && after.bits == before.bits;
      KeptSound(before, after, cs[j], {});
    }
  }

  /** After a step of one interface the server is sound exactly when that interface is. */
  lemma {:induction false} BackSoundIff(s: Server, cs: seq<Conf>, i: nat, w: View)
    requires SoundServer(s, cs) && i < |cs| && Grows(ViewOf(s, i), w)
    requires Sound(w, cs[i]) ==> Local(ViewOf(s, i), w, cs[i])
    ensures ViewOf(Back(s, i, w), i) == w
    ensures SoundServer(Back(s, i, w), cs) <==> Sound(w, cs[i])
  {
    assert ViewOf(Back(s, i, w), i) == w;
    if Sound(w, cs[i]) { OthersKept(s, cs, i, w); }
  }

  lemma {:induction false} AddSoundIff(v: View, c: Conf, l: Lease)
    requires Sound(v, c) && Contains(c.range, l.ip) && AdminView(v, c, Add, l).Some?
    ensures Sound(AdminView(v, c, Add, l).value, c) <==> AdminSafe(v, c, Add, l)
    ensures Local(v, AdminView(v, c, Add, l).value, c)
  {
    RejectedIff(v, c, Add, l);
    CopyAdded(v, c, l);
    PlacedSoundIff(v, AdminView(v, c, Add, l).value, c, l);
  }

  /** w holds the leases of v and a new object with the content of l. */
  lemma {:induction false} PlacedSoundIff(v: View, w: View, c: Conf, l: Lease)
    requires Sound(v, c) && Contains(c.range, l.ip) && v.bits <= w.bits
    requires var r := Ref(c.id, v.next); w.heap == v.heap[r := l] && w.leases == v.leases[l.hw := r]
    requires v.next <= w.next
    ensures Sound(w, c) <==> (&& Offset(c.range, l.ip) in w.bits
                              && forall m :: m in v.leases && m != l.hw ==> IpOf(v, m) != l.ip)
    ensures Local(v, w, c)
  {
    assert Ref(c.id, v.next) !in v.heap;
    assert IpOf(w, l.hw) == l.ip;
    if Offset(c.range, l.ip) !in w.bits {
      assert !Marked(w, c);
    } else if m :| m in v.leases && m != l.hw && IpOf(v, m) == l.ip {
      assert m in w.leases && IpOf(w, m) == IpOf(w, l.hw);
    } else {
      OneMoreSound(v, w, c, l.hw);
    }
  }

  lemma {:induction false} CopyAdded(v: View, c: Conf, l: Lease)
    ensures var r := Ref(c.id, v.next);
            var res := AdminView(v, c, Add, l);
            res.Some? ==>
              && l.ip !in v.byAddr && l.hw !in v.leases
              && res.value.heap == v.heap[r := l] && res.value.next == v.next + 1
              && res.value.leases == v.leases[l.hw := r]
              && res.value.bits == v.bits + {Offset(c.range, l.ip)}
              && res.value.byAddr == v.byAddr[l.ip := r]
              && Lower(l.hostname) !in v.byName && res.value.byName == v.byName[Lower(l.hostname) := r]
  {
    assert Ref(c.id, v.next) !in v.heap;
  }

  lemma {:induction false} UpdateSoundIff(v: View, c: Conf, l: Lease)
    requires Sound(v, c) && Contains(c.range, l.ip) && AdminView(v, c, Update, l).Some?
    ensures Sound(AdminView(v, c, Update, l).value, c) <==> AdminSafe(v, c, Update, l)
    ensures Local(v, AdminView(v, c, Update, l).value, c)
  {
    RejectedIff(v, c, Update, l);
    CopyUpdated(v, c, l);
    PlacedSoundIff(v, AdminView(v, c, Update, l).value, c, l);
  }

  lemma {:induction false} CopyUpdated(v: View, c: Conf, l: Lease)
    ensures var r := Ref(c.id, v.next);
            var res := AdminView(v, c, Update, l);
            res.Some? ==>
              && res.value.heap == v.heap[r := l] && res.value.next == v.next + 1
              && res.value.leases == v.leases[l.hw := r] && res.value.bits == v.bits
              && l.hw in v.leases && res.value.byAddr == (v.byAddr - {IpOf(v, l.hw)})[l.ip := r]
              && (l.ip in v.byAddr ==> v.heap[v.byAddr[l.ip]].hw == l.hw)
              && var old' := Lower(v.heap[v.leases[l.hw]].hostname);
                 res.value.byName == (v.byName - {old'})[Lower(l.hostname) := r]
  {
    assert Ref(c.id, v.next) !in v.heap;
  }

  lemma {:induction false} EntryRemoved(v: View, c: Conf, l: Lease)
    ensures var res := AdminView(v, c, Remove, l);
            res.Some? ==>
              && res.value.heap == v.heap && res.value.next == v.next
              && res.value.leases == v.leases - {l.hw} && res.value.bits == v.bits - {Offset(c.range, l.ip)}
              && res.value.byAddr == v.byAddr - {l.ip} && res.value.byName == v.byName - {Lower(l.hostname)}
  {
  }

  lemma {:induction false} RemoveSoundIff(v: View, c: Conf, l: Lease)
    requires Sound(v, c) && Contains(c.range, l.ip) && AdminView(v, c, Remove, l).Some?
    ensures Sound(AdminView(v, c, Remove, l).value, c) <==> AdminSafe(v, c, Remove, l)
    ensures Local(v, AdminView(v, c, Remove, l).value, c)
  {
    RejectedIff(v, c, Remove, l);
    var w := AdminView(v, c, Remove, l).value;
    if AdminSafe(v, c, Remove, l) {
      forall m | m in w.leases ensures Offset(c.range, IpOf(v, m)) != Offset(c.range, l.ip) {
        if Offset(c.range, IpOf(v, m)) == Offset(c.range, l.ip) { OffsetInjective(c.range, IpOf(v, m), l.ip); }
      }
      KeptSound(v, w, c, {Offset(c.range, l.ip)});
    } else {
      var m :| m in v.leases && m != l.hw && IpOf(v, m) == l.ip;
      assert m in w.leases && IpOf(w, m) == l.ip;
    }
  }

  lemma {:induction false} AdminViewSoundIff(v: View, c: Conf, op: AdminOp, l: Lease)
    requires Sound(v, c) && Contains(c.range, l.ip) && AdminView(v, c, op, l).Some?
    ensures Sound(AdminView(v, c, op, l).value, c) <==> AdminSafe(v, c, op, l)
    ensures Local(v, AdminView(v, c, op, l).value, c)
  {
    RejectedIff(v, c, op, l);
    match op
    case Add => AddSoundIff(v, c, l);
    case Update => UpdateSoundIff(v, c, l);
    case Remove => RemoveSoundIff(v, c, l);
  }

  lemma {:induction false} AdminSoundIff(s: Server, cs: seq<Conf>, op: AdminOp, l: Lease)
    requires SoundServer(s, cs)
    ensures var res := AdminStep(s, cs, op, l);
            && (SoundServer(res.s, cs) <==> StepSafe(s, cs, Admin(op, l)))
            && res.reply.Done? && ReplyOk(s, res.s, cs, Admin(op, l), res.reply)
  {
    CallOutcome(s, cs, op, l);
    var found := IfaceFor(cs, l.ip);
    if found.Some? && AdminView(ViewOf(s, found.value), cs[found.value], op, l).Some? {
      AcceptedSoundIff(s, cs, found.value, op, l);
    }
  }

  /** A call is rejected, changing nothing, or is what AdminView makes of its interface. */
  lemma {:induction false} CallOutcome(s: Server, cs: seq<Conf>, op: AdminOp, l: Lease)
    requires |cs| == |s.ifaces|
    ensures var found := IfaceFor(cs, l.ip);
            var accepted := found.Some? && AdminView(ViewOf(s, found.value), cs[found.value], op, l).Some?;
            && (!accepted ==> AdminStep(s, cs, op, l) == Result(s, Done(false)) && StepSafe(s, cs, Admin(op, l)))
            && (accepted ==>
                  var i := found.value;
                  var w := AdminView(ViewOf(s, i), cs[i], op, l).value;
                  && AdminStep(s, cs, op, l) == Result(Back(s, i, w), Done(true))
                  && (StepSafe(s, cs, Admin(op, l)) <==> AdminSafe(ViewOf(s, i), cs[i], op, l)))
            && ReplyOk(s, AdminStep(s, cs, op, l).s, cs, Admin(op, l), AdminStep(s, cs, op, l).reply)
  {
    var found := IfaceFor(cs, l.ip);
    if found.Some? { RejectedIff(ViewOf(s, found.value), cs[found.value], op, l); }
  }

  lemma {:induction false} AcceptedSoundIff(s: Server, cs: seq<Conf>, i: nat, op: AdminOp, l: Lease)
    requires SoundServer(s, cs) && i < |cs| && Contains(cs[i].range, l.ip)
    requires AdminView(ViewOf(s, i), cs[i], op, l).Some?
    ensures SoundServer(Back(s, i, AdminView(ViewOf(s, i), cs[i], op, l).value), cs) <==>
            AdminSafe(ViewOf(s, i), cs[i], op, l)
  {
    assert Sound(ViewOf(s, i), cs[i]);
    AdminViewSoundIff(ViewOf(s, i), cs[i], op, l);
    BackSoundIff(s, cs, i, AdminView(ViewOf(s, i), cs[i], op, l).value);
  }

  /** A step keeps the whole server sound exactly when it is safe, and then its reply is
      right. */
  lemma {:induction false} StepSoundIff(s: Server, cs: seq<Conf>, ev: Event)
    requires SoundServer(s, cs)
    ensures SoundServer(Step(s, cs, ev).s, cs) <==> StepSafe(s, cs, ev)
    ensures StepSafe(s, cs, ev) ==> ReplyOk(s, Step(s, cs, ev).s, cs, ev, Step(s, cs, ev).reply)
  {
    match ev
    case Reset =>
    case Admin(op, l) => AdminSoundIff(s, cs, op, l);
    case On4(i, msg, env) =>
      if i < |cs| {
        var v := ViewOf(s, i);
        var w := Handle4(v, cs[i], msg, env).v;
        assert Sound(v, cs[i]);
        Handle4Keeps(v, cs[i], msg, env);
        BackSoundIff(s, cs, i, w);
      }
    case On6(i, msg, env) =>
      if i < |cs| {
        var v := ViewOf(s, i);
        var w := Handle6(v, cs[i], msg, env).v;
        assert Sound(v, cs[i]);
        Handle6Keeps(v, cs[i], msg, env);
        BackSoundIff(s, cs, i, w);
      }
  }

  // ---- Loading the database ----

  /** indexLeases: copies of the stored leases are added one by one; those without an
      interface and those that clash with one loaded before are skipped. */
  function Load(s: Server, cs: seq<Conf>, db: seq<Lease>): (t: Server)
    requires |cs| == |s.ifaces|
    ensures |t.ifaces| == |s.ifaces|
    decreases db
  {
    if db == [] then s else Load(AdminStep(s, cs, Add, db[0]).s, cs, db[1..])
  }

  /** The index has every held lease at its address. */
  ghost predicate AllIndexed(s: Server) {
    forall i, m :: 0 <= i < |s.ifaces| && m in s.ifaces[i].leases ==> IndexedIn(ViewOf(s, i), m)
  }

  ghost predicate IndexedIn(v: View, m: Mac)
    requires m in v.leases
  {
    IpOf(v, m) in v.byAddr && v.byAddr[IpOf(v, m)] == v.leases[m]
  }

  lemma {:induction false} LoadOneKeeps(s: Server, cs: seq<Conf>, l: Lease)
    requires SoundServer(s, cs) && AllIndexed(s)
    ensures SoundServer(AdminStep(s, cs, Add, l).s, cs) && AllIndexed(AdminStep(s, cs, Add, l).s)
  {
    LoadOneSound(s, cs, l);
    LoadOneIndexed(s, cs, l);
  }

  lemma {:induction false} LoadOneSound(s: Server, cs: seq<Conf>, l: Lease)
    requires SoundServer(s, cs) && AllIndexed(s)
    ensures SoundServer(AdminStep(s, cs, Add, l).s, cs)
  {
    AdminSoundIff(s, cs, Add, l);
    var found := IfaceFor(cs, l.ip);
    if found.Some? {
      LoadIsSafe(ViewOf(s, found.value), cs[found.value], l);
    }
  }

  lemma {:induction false} LoadOneIndexed(s: Server, cs: seq<Conf>, l: Lease)
    requires |cs| == |s.ifaces| && AllIndexed(s)
    ensures AllIndexed(AdminStep(s, cs, Add, l).s)
  {
    AddOutcome(s, cs, l);
    var t := AdminStep(s, cs, Add, l).s;
    if t != s {
      var i := IfaceFor(cs, l.ip).value;
      GrownIndexed(s, t, cs, i, Ref(cs[i].id, s.next), l);
    }
  }

  /** Where the index has every held lease, adding one is always safe. */
  lemma {:induction false} LoadIsSafe(v: View, c: Conf, l: Lease)
    requires forall m :: m in v.leases ==> IndexedIn(v, m)
    ensures AdminSafe(v, c, Add, l)
  {
  }

  lemma {:induction false} GrownIndexed(s: Server, t: Server, cs: seq<Conf>, i: nat, r: Ref, l: Lease)
    requires AllIndexed(s) && Grown(s, t, cs, i, r, l)
    ensures AllIndexed(t)
  {
    forall j, m | 0 <= j < |t.ifaces| && m in t.ifaces[j].leases ensures IndexedIn(ViewOf(t, j), m) {
      if j != i || m != l.hw { assert IndexedIn(ViewOf(s, j), m); }
    }
  }

  /** t is s with the new object r for the lease l on interface i. */
  ghost predicate Grown(s: Server, t: Server, cs: seq<Conf>, i: nat, r: Ref, l: Lease) {
    && |cs| == |s.ifaces| == |t.ifaces| && i < |cs| && IfaceFor(cs, l.ip) == Some(i)
    && r !in s.heap && t.heap == s.heap[r := l]
    && l.hw !in s.ifaces[i].leases && t.ifaces[i].leases == s.ifaces[i].leases[l.hw := r]
    && (forall j :: 0 <= j < |cs| && j != i ==> t.ifaces[j].leases == s.ifaces[j].leases)
    && l.ip !in s.byAddr && t.byAddr == s.byAddr[l.ip := r]
    && Lower(l.hostname) !in s.byName && t.byName == s.byName[Lower(l.hostname) := r]
  }

  /** An added lease is turned away or gets a new object. */
  lemma {:induction false} AddOutcome(s: Server, cs: seq<Conf>, l: Lease)
    requires |cs| == |s.ifaces|
    ensures var t := AdminStep(s, cs, Add, l).s;
            var i := IfaceFor(cs, l.ip);
            if i.None? || Rejects(ViewOf(s, i.value), Add, l) then t == s
            else Grown(s, t, cs, i.value, Ref(cs[i.value].id, s.next), l)
  {
    CallOutcome(s, cs, Add, l);
    var found := IfaceFor(cs, l.ip);
    if found.Some? {
      RejectedIff(ViewOf(s, found.value), cs[found.value], Add, l);
      CopyAdded(ViewOf(s, found.value), cs[found.value], l);
      assert Ref(cs[found.value].id, s.next) !in s.heap;
    }
  }

  lemma {:induction false} LoadKeeps(s: Server, cs: seq<Conf>, db: seq<Lease>)
    requires SoundServer(s, cs) && AllIndexed(s)
    ensures SoundServer(Load(s, cs, db), cs) && AllIndexed(Load(s, cs, db))
    decreases db
  {
    if db != [] {
      LoadOneKeeps(s, cs, db[0]);
      LoadKeeps(AdminStep(s, cs, Add, db[0]).s, cs, db[1..]);
    }
  }

  /** Whatever the database contains, the server starts in a sound state. */
  lemma {:induction false} LoadedSound(cs: seq<Conf>, db: seq<Lease>)
    requires forall i :: 0 <= i < |cs| ==> cs[i].id == i
    ensures SoundServer(Load(Empty(|cs|), cs, db), cs)
  {
    LoadKeeps(Empty(|cs|), cs, db);
  }

  // ---- What is loaded ----

  /** The server holds the lease: on the interface of its address under its hardware address,
      and in the index at its address and under its name. */
  ghost predicate HeldAs(s: Server, cs: seq<Conf>, l: Lease) {
    && |cs| == |s.ifaces| && IfaceFor(cs, l.ip).Some?
    && var leases := s.ifaces[IfaceFor(cs, l.ip).value].leases;
    && l.hw in leases && s.heap[leases[l.hw]] == l
    && l.ip in s.byAddr && s.byAddr[l.ip] == leases[l.hw]
    && Lower(l.hostname) in s.byName && s.byName[Lower(l.hostname)] == leases[l.hw]
  }

  /** The two leases cannot both be loaded. */
  predicate Conflict(cs: seq<Conf>, l: Lease, m: Lease) {
    || l.ip == m.ip
    || Lower(l.hostname) == Lower(m.hostname)
    || (l.hw == m.hw && IfaceFor(cs, l.ip) == IfaceFor(cs, m.ip))
  }

  /** The k-th stored lease is held, or no range contains its address, or an earlier one that
      it conflicts with is held. */
  ghost predicate Accounted(s: Server, cs: seq<Conf>, db: seq<Lease>, k: nat)
    requires k < |db|
  {
    || HeldAs(s, cs, db[k])
    || IfaceFor(cs, db[k].ip).None?
    || exists j :: 0 <= j < k && HeldAs(s, cs, db[j]) && Conflict(cs, db[j], db[k])
  }

  ghost predicate KeyStored(s: Server, cs: seq<Conf>, db: seq<Lease>, i: nat, m: Mac) {
    exists k :: 0 <= k < |db| && HeldAs(s, cs, db[k]) && IfaceFor(cs, db[k].ip) == Some(i) && db[k].hw == m
  }

  ghost predicate AddrStored(s: Server, cs: seq<Conf>, db: seq<Lease>, a: Addr) {
    exists k :: 0 <= k < |db| && HeldAs(s, cs, db[k]) && db[k].ip == a
  }

  ghost predicate NameStored(s: Server, cs: seq<Conf>, db: seq<Lease>, n: string) {
    exists k :: 0 <= k < |db| && HeldAs(s, cs, db[k]) && Lower(db[k].hostname) == n
  }

  /** Every stored lease is accounted for, and nothing else is held or indexed. */
  ghost predicate StartedFrom(s: Server, cs: seq<Conf>, db: seq<Lease>) {
    && |cs| == |s.ifaces|
    && (forall k :: 0 <= k < |db| ==> Accounted(s, cs, db, k))
    && (forall i, m :: 0 <= i < |cs| && m in s.ifaces[i].leases ==> KeyStored(s, cs, db, i, m))
    && (forall a :: a in s.byAddr ==> AddrStored(s, cs, db, a))
    && (forall n :: n in s.byName ==> NameStored(s, cs, db, n))
  }

  /** A lease that is turned away conflicts with one that is held. */
  lemma {:induction false} SkippedAccounted(s: Server, cs: seq<Conf>, db: seq<Lease>, l: Lease)
    requires StartedFrom(s, cs, db)
    requires IfaceFor(cs, l.ip).None? || Rejects(ViewOf(s, IfaceFor(cs, l.ip).value), Add, l)
    ensures StartedFrom(s, cs, db + [l])
  {
    var more := db + [l];
    assert forall k :: 0 <= k < |db| ==> more[k] == db[k];
    forall k | 0 <= k < |more| ensures Accounted(s, cs, more, k) {
      if k < |db| {
        assert Accounted(s, cs, db, k);
        StillAccounted(s, s, cs, db, more, k);
      } else if IfaceFor(cs, l.ip).Some? {
        SomebodyInTheWay(s, cs, db, l);
        var j :| 0 <= j < |db| && HeldAs(s, cs, db[j]) && Conflict(cs, db[j], l);
        assert more[j] == db[j];
      }
    }
    StillStored(s, s, cs, db, more);
  }

  lemma {:induction false} SomebodyInTheWay(s: Server, cs: seq<Conf>, db: seq<Lease>, l: Lease)
    requires StartedFrom(s, cs, db) && IfaceFor(cs, l.ip).Some?
    requires Rejects(ViewOf(s, IfaceFor(cs, l.ip).value), Add, l)
    ensures exists j :: 0 <= j < |db| && HeldAs(s, cs, db[j]) && Conflict(cs, db[j], l)
  {
    var i := IfaceFor(cs, l.ip).value;
    if l.ip in s.byAddr {
      assert AddrStored(s, cs, db, l.ip);
    } else if Lower(l.hostname) in s.byName {
      assert NameStored(s, cs, db, Lower(l.hostname));
    } else {
      assert KeyStored(s, cs, db, i, l.hw);
    }
  }

  lemma {:induction false} StillAccounted(s: Server, t: Server, cs: seq<Conf>, db: seq<Lease>, more: seq<Lease>, k: nat)
    requires k < |db| <= |more| && Accounted(s, cs, db, k)
    requires forall j :: 0 <= j < |db| ==> more[j] == db[j] && (HeldAs(s, cs, db[j]) ==> HeldAs(t, cs, db[j]))
    ensures Accounted(t, cs, more, k)
  {
    if !HeldAs(s, cs, db[k]) && IfaceFor(cs, db[k].ip).Some? {
      var j :| 0 <= j < k && HeldAs(s, cs, db[j]) && Conflict(cs, db[j], db[k]);
      assert HeldAs(t, cs, more[j]) && Conflict(cs, more[j], more[k]);
    }
  }

  lemma {:induction false} StillStored(s: Server, t: Server, cs: seq<Conf>, db: seq<Lease>, more: seq<Lease>)
    requires |db| <= |more|
    requires forall j :: 0 <= j < |db| ==> more[j] == db[j] && (HeldAs(s, cs, db[j]) ==> HeldAs(t, cs, db[j]))
    ensures forall i: nat, m :: KeyStored(s, cs, db, i, m) ==> KeyStored(t, cs, more, i, m)
    ensures forall a :: AddrStored(s, cs, db, a) ==> AddrStored(t, cs, more, a)
    ensures forall n :: NameStored(s, cs, db, n) ==> NameStored(t, cs, more, n)
  {
    forall i: nat, m | KeyStored(s, cs, db, i, m) ensures KeyStored(t, cs, more, i, m) {
      var k :| 0 <= k < |db| && HeldAs(s, cs, db[k]) && IfaceFor(cs, db[k].ip) == Some(i) && db[k].hw == m;
      assert HeldAs(t, cs, more[k]);
    }
    forall a | AddrStored(s, cs, db, a) ensures AddrStored(t, cs, more, a) {
      var k :| 0 <= k < |db| && HeldAs(s, cs, db[k]) && db[k].ip == a;
      assert HeldAs(t, cs, more[k]);
    }
    forall n | NameStored(s, cs, db, n) ensures NameStored(t, cs, more, n) {
      var k :| 0 <= k < |db| && HeldAs(s, cs, db[k]) && Lower(db[k].hostname) == n;
      assert HeldAs(t, cs, more[k]);
    }
  }

  lemma {:induction false} GrownHeld(s: Server, t: Server, cs: seq<Conf>, i: nat, r: Ref, l: Lease, x: Lease)
    requires Grown(s, t, cs, i, r, l)
    ensures HeldAs(t, cs, l) && (HeldAs(s, cs, x) ==> HeldAs(t, cs, x))
  {
  }

  lemma {:induction false} AddedAccounted(
      s: Server, t: Server, cs: seq<Conf>, db: seq<Lease>, i: nat, r: Ref, l: Lease)
    requires StartedFrom(s, cs, db) && Grown(s, t, cs, i, r, l)
    ensures StartedFrom(t, cs, db + [l])
  {
    var more := db + [l];
    assert more[|db|] == l;
    forall j | 0 <= j < |db| ensures more[j] == db[j] && (HeldAs(s, cs, db[j]) ==> HeldAs(t, cs, db[j])) {
      GrownHeld(s, t, cs, i, r, l, db[j]);
    }
    GrownHeld(s, t, cs, i, r, l, l);
    StillStored(s, t, cs, db, more);
    forall k | 0 <= k < |more| ensures Accounted(t, cs, more, k) {
      if k < |db| { StillAccounted(s, t, cs, db, more, k); }
    }
    assert KeyStored(t, cs, more, i, l.hw) && AddrStored(t, cs, more, l.ip);
    assert NameStored(t, cs, more, Lower(l.hostname));
  }

  lemma {:induction false} LoadOneAccounted(s: Server, cs: seq<Conf>, db: seq<Lease>, l: Lease)
    requires StartedFrom(s, cs, db)
    ensures StartedFrom(AdminStep(s, cs, Add, l).s, cs, db + [l])
  {
    AddOutcome(s, cs, l);
    var found := IfaceFor(cs, l.ip);
    if found.None? || Rejects(ViewOf(s, found.value), Add, l) {
      SkippedAccounted(s, cs, db, l);
    } else {
      AddedAccounted(s, AdminStep(s, cs, Add, l).s, cs, db, found.value, Ref(cs[found.value].id, s.next), l);
    }
  }

  lemma {:induction false} LoadAccounted(s: Server, cs: seq<Conf>, done: seq<Lease>, db: seq<Lease>)
    requires StartedFrom(s, cs, done)
    ensures StartedFrom(Load(s, cs, db), cs, done + db)
    decreases db
  {
    if db == [] {
      assert done + db == done;
    } else {
      LoadOneAccounted(s, cs, done, db[0]);
      LoadAccounted(AdminStep(s, cs, Add, db[0]).s, cs, done + [db[0]], db[1..]);
      assert done + [db[0]] + db[1..] == done + db;
    }
  }

  /** The server starts with every stored lease that an interface is there for and that does
      not conflict with one loaded before it, and with nothing else. */
  lemma {:induction false} LoadedAll(cs: seq<Conf>, db: seq<Lease>)
    ensures StartedFrom(Load(Empty(|cs|), cs, db), cs, db)
  {
    LoadAccounted(Empty(|cs|), cs, [], db);
    assert [] + db == db;
  }

  /** A reset leaves no lease and no index entry, but every offset bit: the next search on
      each interface finds what it would have found before. */
  lemma {:induction false} ResetKeepsSearch(s: Server, cs: seq<Conf>, i: nat)
    requires |cs| == |s.ifaces| && i < |cs|
    ensures var v, w := ViewOf(s, i), ViewOf(Step(s, cs, Reset).s, i);
            && w.leases == map[] && w.byAddr == map[] && w.byName == map[]
            && w.bits == v.bits && NextIP(cs[i].range, w.bits) == NextIP(cs[i].range, v.bits)
  {
  }

  /** So an interface that was full before a reset has nothing for anybody after it. */
  lemma {:induction false} FullAfterReset(s: Server, cs: seq<Conf>, i: nat, mac: Mac, env: Env)
    requires |cs| == |s.ifaces| && i < |cs| && NextIP(cs[i].range, s.ifaces[i].bits).NoneFree?
    ensures var t := Step(s, cs, Reset).s;
            Step(t, cs, On4(i, Discover(mac), env)) == Result(t, Sent4(Silent))
  {
    var t := Step(s, cs, Reset).s;
    ResetKeepsSearch(s, cs, i);
    var v := ViewOf(t, i);
    assert Reserve(v, cs[i], mac, env.now, env.order) == Refused;
    assert Back(t, i, v) == t;
  }

  // ---- Every run ----

  function Stepper(cs: seq<Conf>): (Server, Event) -> Server {
    (s: Server, ev: Event) => if |cs| == |s.ifaces| then Step(s, cs, ev).s else s
  }

  function Replier(cs: seq<Conf>): (Server, Event) -> Reply {
    (s: Server, ev: Event) => if |cs| == |s.ifaces| then Step(s, cs, ev).reply else Nothing
  }

  ghost function IsSound(cs: seq<Conf>): Server -> bool {
    (s: Server) => SoundServer(s, cs)
  }

  function IsSafe(cs: seq<Conf>): (Server, Event) -> bool {
    (s: Server, ev: Event) => |cs| == |s.ifaces| && StepSafe(s, cs, ev)
  }

  lemma {:induction false} SafeIsExact(cs: seq<Conf>)
    ensures forall s, ev :: IsSound(cs)(s) ==> (IsSound(cs)(Stepper(cs)(s, ev)) <==> IsSafe(cs)(s, ev))
  {
    forall s, ev | IsSound(cs)(s) ensures IsSound(cs)(Stepper(cs)(s, ev)) <==> IsSafe(cs)(s, ev) {
      StepSoundIff(s, cs, ev);
    }
  }

  /** In every run from a sound state, every state is sound exactly when every take-over
      of an expired lease was safe. */
  lemma {:induction false} RunSoundIff(s: Server, cs: seq<Conf>, evs: seq<Event>)
    requires SoundServer(s, cs)
    ensures Always(Stepper(cs), s, evs, IsSound(cs)) <==> EveryStep(Stepper(cs), s, evs, IsSafe(cs))
  {
    SafeIsExact(cs);
    AlwaysIff(Stepper(cs), IsSound(cs), IsSafe(cs), s, evs);
  }

  /** In every safe run, every reply is right about the state it leaves behind; in
      particular an acknowledged or assigned address is in the index as the lease of the
      client, and an acknowledgement names the address the client asked for. */
  lemma {:induction false} RunRepliesOk(s: Server, cs: seq<Conf>, evs: seq<Event>, k: nat)
    requires SoundServer(s, cs) && EveryStep(Stepper(cs), s, evs, IsSafe(cs)) && k < |evs|
    ensures RightReplyAt(s, cs, evs, k)
  {
    SafeIsExact(cs);
    InvariantAt(Stepper(cs), IsSound(cs), IsSafe(cs), s, evs, k);
    var t := StateAt(Stepper(cs), s, evs, k);
    assert IsSound(cs)(t) && IsSafe(cs)(t, evs[k]);
    StepSoundIff(t, cs, evs[k]);
  }

  /** Both for a server that starts from whatever its database contains. */
  lemma {:induction false} RunsFromDatabase(cs: seq<Conf>, db: seq<Lease>, evs: seq<Event>)
    requires forall i :: 0 <= i < |cs| ==> cs[i].id == i
    ensures var s := Load(Empty(|cs|), cs, db);
            && (Always(Stepper(cs), s, evs, IsSound(cs)) <==> EveryStep(Stepper(cs), s, evs, IsSafe(cs)))
            && (EveryStep(Stepper(cs), s, evs, IsSafe(cs)) ==> RightReplies(s, cs, evs))
  {
    var s := Load(Empty(|cs|), cs, db);
    LoadedSound(cs, db);
    RunSoundIff(s, cs, evs);
    if EveryStep(Stepper(cs), s, evs, IsSafe(cs)) {
      forall k | 0 <= k < |evs| ensures RightReplyAt(s, cs, evs, k) {
        RunRepliesOk(s, cs, evs, k);
      }
    }
  }

  ghost predicate RightReplies(s: Server, cs: seq<Conf>, evs: seq<Event>) {
    forall k :: 0 <= k < |evs| ==> RightReplyAt(s, cs, evs, k)
  }

  ghost predicate RightReplyAt(s: Server, cs: seq<Conf>, evs: seq<Event>, k: nat)
    requires k < |evs|
  {
    var t := StateAt(Stepper(cs), s, evs, k);
    && |t.ifaces| == |cs|
    && ReplyOk(t, Step(t, cs, evs[k]).s, cs, evs[k], Step(t, cs, evs[k]).reply)
    && Step(t, cs, evs[k]).s == StateAt(Stepper(cs), s, evs, k + 1)
  }
}
