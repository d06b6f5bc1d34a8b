/** internal/dhcpsvc/interface.go, leaseindex.go and lease.go as functions on one
    interface together with what it shares with the others.

    A *Lease of the source is a Ref into `heap`, so the object shared by the
    interface map and the two index maps is one object here as well, and a change
    of its fields is seen through all of them. */
module LeaseModel {
  import opened Net
  import opened IpRange

  /** The identity of a lease object; `iface` is the interface it was created for. */
  datatype Ref = Ref(iface: nat, n: nat)

  /** The all-zero hardware address that marks a blocked lease. */
  const BLOCKED: Mac := [0, 0, 0, 0, 0, 0]

  datatype Lease = Lease(ip: Addr, expiry: int, hostname: string, hw: Mac, isStatic: bool)
  {
    predicate IsBlocked() { hw == BLOCKED }

    /** Lease.setExpiry: static leases keep theirs. */
    function WithExpiry(t: int): Lease { if isStatic then this else this.(expiry := t) }

    predicate ExpiredAt(now: int) { !isStatic && expiry < now }
  }

  /** What is fixed about an interface.  Host names are judged by the predicate and
      generated by the function of other packages, so both are parameters. */
  datatype Conf = Conf(
    id: nat,
    range: Range,
    ttl: int,
    subnet: Prefix,
    local: set<Addr>,
    duid: seq<byte>,
    validHost: string -> bool,
    genHost: Addr -> string)

  datatype RawView = View(
    heap: map<Ref, Lease>,
    next: nat,
    leases: map<Mac, Ref>,
    bits: set<nat>,
    byAddr: map<Addr, Ref>,
    byName: map<string, Ref>)

  /** No dangling reference, and `next` is above every identity in use. */
  ghost predicate Closed(v: RawView) {
    && (forall m :: m in v.leases ==> v.leases[m] in v.heap)
    && (forall a :: a in v.byAddr ==> v.byAddr[a] in v.heap)
    && (forall n :: n in v.byName ==> v.byName[n] in v.heap)
    && (forall r :: r in v.heap ==> r.n < v.next)
  }

  type View = v: RawView | Closed(v) witness View(map[], 0, map[], {}, map[], map[])

  /** Lease objects are never destroyed. */
  ghost predicate Grows(v: View, w: View) {
    v.next <= w.next && forall r :: r in v.heap ==> r in w.heap
  }

  function Put(v: View, r: Ref, l: Lease): View
    requires r in v.heap
  {
    v.(heap := v.heap[r := l])
  }

  // ---- netInterface ----

  function AddLease(v: View, c: Conf, r: Ref): Option<View>
    requires r in v.heap
  {
    var l := v.heap[r];
    if l.hw in v.leases then None
    else Some(v.(leases := v.leases[l.hw := r], bits := v.bits + {Offset(c.range, l.ip)}))
  }

  /** removeLease looks only at the address and the hardware address of its argument. */
  function RemoveLease(v: View, c: Conf, l: Lease): Option<View> {
    if l.hw !in v.leases then None
    else Some(v.(leases := v.leases - {l.hw}, bits := v.bits - {Offset(c.range, l.ip)}))
  }

  /** blockLease: the lease leaves the interface but stays in the index. */
  function BlockLease(v: View, c: Conf, r: Ref, now: int): Option<View>
    requires r in v.heap
  {
    match RemoveLease(v, c, v.heap[r])
    case None => None
    case Some(w) =>
      Some(Put(w, r, w.heap[r].(hw := BLOCKED, hostname := "", expiry := now + c.ttl, isStatic := false)))
  }

  // ---- leaseIndex ----

  function IndexAdd(v: View, c: Conf, r: Ref): Option<View>
    requires r in v.heap
  {
    var l := v.heap[r];
    if l.ip in v.byAddr || Lower(l.hostname) in v.byName then None
    else
      match AddLease(v, c, r)
      case None => None
      case Some(w) => Some(w.(byAddr := w.byAddr[l.ip := r], byName := w.byName[Lower(l.hostname) := r]))
  }

  function IndexRemove(v: View, c: Conf, l: Lease): Option<View> {
    if l.ip !in v.byAddr || Lower(l.hostname) !in v.byName then None
    else
      match RemoveLease(v, c, l)
      case None => None
      case Some(w) => Some(w.(byAddr := w.byAddr - {l.ip}, byName := w.byName - {Lower(l.hostname)}))
  }

  /** update: the offset bits stay as they are even if the address changes. */
  function IndexUpdate(v: View, c: Conf, r: Ref): Option<View>
    requires r in v.heap
  {
    var l := v.heap[r];
    var name := Lower(l.hostname);
    if l.ip in v.byAddr && v.heap[v.byAddr[l.ip]].hw != l.hw then None
    else if name in v.byName && v.heap[v.byName[name]].hw != l.hw then None
    else if l.hw !in v.leases then None
    else
      var prev := v.heap[v.leases[l.hw]];
      Some(v.(leases := v.leases[l.hw := r],
              byAddr := (v.byAddr - {prev.ip})[l.ip := r],
              byName := (v.byName - {Lower(prev.hostname)})[name := r]))
  }

  // ---- Allocation ----

  /** findExpiredLease: `order` is the order in which Go happens to walk the map. */
  function FindExpired(v: View, order: seq<Mac>, now: int): (found: Option<Mac>)
    ensures found.Some? ==> found.value in v.leases && v.heap[v.leases[found.value]].ExpiredAt(now)
    ensures found.Some? ==>
              !v.heap[v.leases[found.value]].isStatic && v.heap[v.leases[found.value]].expiry < now
    ensures found.None? ==> forall m :: m in order && m in v.leases ==> !v.heap[v.leases[m]].ExpiredAt(now)
  {
    if order == [] then None
    else if order[0] in v.leases && v.heap[v.leases[order[0]]].ExpiredAt(now) then Some(order[0])
    else FindExpired(v, order[1..], now)
  }

  /** A new lease object for a free address; nothing refers to it yet. */
  function Fresh(v: View, c: Conf, mac: Mac, now: int, ip: Addr): (w: View)
    ensures Ref(c.id, v.next) in w.heap
  {
    v.(heap := v.heap[Ref(c.id, v.next) := Lease(ip, now + c.ttl, "", mac, false)], next := v.next + 1)
  }

  /** The expired lease of `owner` becomes the lease of mac, whether or not it could
      be removed from the index. */
  function TakeOver(v: View, c: Conf, mac: Mac, now: int, owner: Mac): (w: View)
    requires owner in v.leases
    ensures v.leases[owner] in w.heap
  {
    var r := v.leases[owner];
    var removed := IndexRemove(v, c, v.heap[r]);
    var w := if removed.Some? then removed.value else v;
    var l := w.heap[r].(hw := mac, hostname := "", isStatic := false, expiry := now + c.ttl);
    w.(heap := w.heap[r := l], leases := w.leases[mac := r])
  }

  datatype Reservation = Reserved(v: View, r: Ref) | Refused | SearchPanic

  /** reserveLease: a fresh lease for the lowest free address, otherwise an expired
      lease taken over. */
  function Reserve(v: View, c: Conf, mac: Mac, now: int, order: seq<Mac>): (res: Reservation)
    ensures res.Reserved? ==> res.r in res.v.heap
  {
    match NextIP(c.range, v.bits)
    case Panicked => SearchPanic
    case Found(ip) => Reserved(Fresh(v, c, mac, now, ip), Ref(c.id, v.next))
    case NoneFree =>
      match FindExpired(v, order, now)
      case None => Refused
      case Some(owner) => Reserved(TakeOver(v, c, mac, now, owner), v.leases[owner])
  }

  /** The reserved lease becomes the one of mac and its offset is marked. */
  function Occupy(v: View, c: Conf, mac: Mac, r: Ref): View
    requires r in v.heap
  {
    v.(leases := v.leases[mac := r], bits := v.bits + {Offset(c.range, v.heap[r].ip)})
  }

  /** Answer of the address checker to the k-th question of one allocation. */
  datatype Probe = Available | Unavailable | CheckFailed

  type Checker = (nat, Addr) -> Probe

  /** Aborted: the search panicked, which ends the handler with nothing changed. */
  datatype Allocation = Leased(v: View, r: Ref) | NoLease(v: View) | Aborted(v: View)

  /** allocateLease: reserve until the checker accepts.  It ends because an address
      that was reclaimed and blocked is free again for the next round, and a fresh
      reservation cannot be blocked. */
  function Allocate(v: View, c: Conf, mac: Mac, now: int, order: seq<Mac>, probe: Checker, k: nat): (a: Allocation)
    requires mac !in v.leases
    ensures a.Leased? ==> a.r in a.v.heap && a.v.heap[a.r].hw == mac
    ensures a.Leased? ==> mac in a.v.leases && a.v.leases[mac] == a.r
    ensures Grows(v, a.v)
    decreases if NextIP(c.range, v.bits).Found? then 0 else 1
  {
    match Reserve(v, c, mac, now, order)
    case Refused => NoLease(v)
    case SearchPanic => Aborted(v)
    case Reserved(w, r) =>
      match probe(k, w.heap[r].ip)
      case CheckFailed => NoLease(w)
      case Available => Leased(Occupy(w, c, mac, r), r)
      case Unavailable =>
        match BlockLease(w, c, r, now)
        case None => NoLease(w)
        case Some(b) =>
          assert NextIP(c.range, b.bits).Found? by { FreedIsFound(c.range, b.bits, w.heap[r].ip); }
          Allocate(b, c, mac, now, order, probe, k + 1)
  }

  lemma {:induction false} FreedIsFound(r: Range, bits: set<nat>, ip: Addr)
    requires Offset(r, ip) !in bits
    ensures NextIP(r, bits).Found?
  {
    if Contains(r, ip) { OffsetIsDistance(r, ip); }
  }

  /** What a handler takes from its environment: the clock, the order in which Go walks
      the lease map, and the answers of the address checker. */
  datatype Env = Env(now: int, order: seq<Mac>, probe: Checker)

  // ---- What an interface must always satisfy ----

  function IpOf(v: View, m: Mac): Addr
    requires m in v.leases
  {
    v.heap[v.leases[m]].ip
  }

  ghost predicate Keyed(v: View, c: Conf) {
    forall m :: m in v.leases ==> v.leases[m].iface == c.id && v.heap[v.leases[m]].hw == m
  }

  ghost predicate Exclusive(v: View) {
    forall m, n :: m in v.leases && n in v.leases && IpOf(v, m) == IpOf(v, n) ==> m == n
  }

  ghost predicate Marked(v: View, c: Conf) {
    forall m :: m in v.leases ==> Contains(c.range, IpOf(v, m)) && Offset(c.range, IpOf(v, m)) in v.bits
  }

  /** Every key is the hardware address of its lease, no two keys hold the same
      address, and every held address is in range with its bit set. */
  ghost predicate Sound(v: View, c: Conf) {
    Keyed(v, c) && Exclusive(v) && Marked(v, c)
  }

  /** Objects of other interfaces are not touched, and identities only grow. */
  ghost predicate Local(v: View, w: View, c: Conf) {
    && Grows(v, w)
    && (forall r :: r in v.heap && r.iface != c.id ==> w.heap[r] == v.heap[r])
    && (forall r :: r in w.heap && r !in v.heap ==> r.iface == c.id)
  }
}
