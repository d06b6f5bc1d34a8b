/** What each operation on an interface keeps, and exactly when an allocation keeps it. */
module LeaseInvariant {
  import opened Net
  import opened IpRange
  import opened LeaseModel

  /** w holds some of the leases of v, unchanged. */
  ghost predicate Kept(v: View, w: View) {
    forall m :: m in w.leases ==>
      m in v.leases && w.leases[m] == v.leases[m] && w.heap[w.leases[m]] == v.heap[v.leases[m]]
  }

  lemma {:induction false} KeptSound(v: View, w: View, c: Conf, gone: set<nat>)
    requires Sound(v, c) && Kept(v, w)
    requires v.bits - gone <= w.bits
    requires forall m :: m in w.leases ==> Offset(c.range, IpOf(v, m)) !in gone
    ensures Sound(w, c)
  {
    assert forall m :: m in w.leases ==> IpOf(w, m) == IpOf(v, m);
  }

  /** w holds the leases of v and one more, of mac, at an address nobody holds. */
  lemma {:induction false} OneMoreSound(v: View, w: View, c: Conf, mac: Mac)
    requires Sound(v, c) && mac in w.leases
    requires forall m :: m in w.leases && m != mac ==>
               m in v.leases && w.leases[m] == v.leases[m] && w.heap[w.leases[m]] == v.heap[v.leases[m]]
    requires w.leases[mac].iface == c.id && w.heap[w.leases[mac]].hw == mac
    requires forall m :: m in v.leases && m in w.leases && m != mac ==> IpOf(v, m) != IpOf(w, mac)
    requires v.bits <= w.bits
    requires Contains(c.range, IpOf(w, mac)) && Offset(c.range, IpOf(w, mac)) in w.bits
    ensures Sound(w, c)
  {
    assert forall m :: m in w.leases && m != mac ==> IpOf(w, m) == IpOf(v, m);
  }

  /** The objects behind two keys are different. */
  lemma {:induction false} DistinctRefs(v: View, c: Conf, m: Mac)
    requires Sound(v, c) && m in v.leases
    ensures forall n :: n in v.leases && n != m ==> v.leases[n] != v.leases[m]
  {
    forall n | n in v.leases && n != m ensures v.leases[n] != v.leases[m] {
      assert v.heap[v.leases[n]].hw == n && v.heap[v.leases[m]].hw == m;
    }
  }

  lemma {:induction false} DistinctOffsets(v: View, c: Conf, m: Mac)
    requires Sound(v, c) && m in v.leases
    ensures forall n :: n in v.leases && n != m ==> Offset(c.range, IpOf(v, n)) != Offset(c.range, IpOf(v, m))
  {
    forall n | n in v.leases && n != m ensures Offset(c.range, IpOf(v, n)) != Offset(c.range, IpOf(v, m)) {
      if Offset(c.range, IpOf(v, n)) == Offset(c.range, IpOf(v, m)) {
        OffsetInjective(c.range, IpOf(v, n), IpOf(v, m));
      }
    }
  }

  /** A held lease can always be removed; the rest stays sound. */
  lemma {:induction false} RemoveKeeps(v: View, c: Conf, m: Mac)
    requires Sound(v, c) && m in v.leases
    ensures var res := RemoveLease(v, c, v.heap[v.leases[m]]);
            && res.Some? && Sound(res.value, c) && Local(v, res.value, c)
            && res.value.leases == v.leases - {m}
  {
    DistinctOffsets(v, c, m);
    KeptSound(v, RemoveLease(v, c, v.heap[v.leases[m]]).value, c, {Offset(c.range, IpOf(v, m))});
  }

  lemma {:induction false} BlockKeeps(v: View, c: Conf, m: Mac, now: int)
    requires Sound(v, c) && m in v.leases
    ensures var res := BlockLease(v, c, v.leases[m], now);
            && res.Some? && Sound(res.value, c) && Local(v, res.value, c)
            && res.value.leases == v.leases - {m}
            && res.value.byAddr == v.byAddr && res.value.byName == v.byName
            && res.value.heap[v.leases[m]].IsBlocked()
            && res.value.heap[v.leases[m]].ip == IpOf(v, m)
  {
    RemoveKeeps(v, c, m);
    DistinctRefs(v, c, m);
    var b := BlockLease(v, c, v.leases[m], now).value;
    KeptSound(RemoveLease(v, c, v.heap[v.leases[m]]).value, b, c, {});
  }

  /** Changing the name and the expiry of a held lease in place is harmless. */
  lemma {:induction false} TouchKeeps(v: View, c: Conf, m: Mac, l: Lease)
    requires Sound(v, c) && m in v.leases
    requires l.ip == IpOf(v, m) && l.hw == m
    ensures Sound(Put(v, v.leases[m], l), c) && Local(v, Put(v, v.leases[m], l), c)
  {
    var w := Put(v, v.leases[m], l);
    assert forall n :: n in w.leases ==> IpOf(w, n) == IpOf(v, n) && w.heap[w.leases[n]].hw == v.heap[v.leases[n]].hw;
  }

  /** Updating the index with the object the interface already holds. */
  lemma {:induction false} UpdateKeeps(v: View, c: Conf, m: Mac)
    requires Sound(v, c) && m in v.leases
    ensures var res := IndexUpdate(v, c, v.leases[m]);
            res.Some? ==>
              && Sound(res.value, c) && Local(v, res.value, c)
              && res.value.leases == v.leases && res.value.heap == v.heap && res.value.bits == v.bits
              && IpOf(v, m) in res.value.byAddr && res.value.byAddr[IpOf(v, m)] == v.leases[m]
  {
    var res := IndexUpdate(v, c, v.leases[m]);
    if res.Some? {
      assert res.value.leases == v.leases;
    }
  }

  lemma {:induction false} IndexRemoveKeeps(v: View, c: Conf, m: Mac)
    requires Sound(v, c) && m in v.leases
    ensures var res := IndexRemove(v, c, v.heap[v.leases[m]]);
            res.Some? ==>
              && Sound(res.value, c) && Local(v, res.value, c)
              && res.value.leases == v.leases - {m} && res.value.heap == v.heap
              && IpOf(v, m) !in res.value.byAddr
              && Offset(c.range, IpOf(v, m)) !in res.value.bits
  {
    RemoveKeeps(v, c, m);
  }

  /** The guard under which taking over an expired lease is correct: the lease is in
      the index under its address and its name, so that it can be removed, and the
      checker does not fail on its address. */
  predicate ReclaimSafe(v: View, c: Conf, now: int, order: seq<Mac>, probe: Checker, k: nat) {
    NextIP(c.range, v.bits).NoneFree? && FindExpired(v, order, now).Some? ==>
      var l := v.heap[v.leases[FindExpired(v, order, now).value]];
      l.ip in v.byAddr && Lower(l.hostname) in v.byName && !probe(k, l.ip).CheckFailed?
  }

  /** The result of an allocation: mac holds a new, still nameless, dynamic lease for the
      full lifetime, or none, and every other lease that is left is what it was. */
  ghost predicate Assigned(v: View, c: Conf, mac: Mac, now: int, a: Allocation) {
    && (a.Leased? ==>
          && mac in a.v.leases && a.v.leases[mac] == a.r
          && a.v.heap[a.r].hostname == "" && !a.v.heap[a.r].isStatic && a.v.heap[a.r].expiry == now + c.ttl)
    && (!a.Leased? ==> mac !in a.v.leases)
    && (forall m :: m in a.v.leases && m != mac ==>
          m in v.leases && a.v.leases[m] == v.leases[m] && a.v.heap[a.v.leases[m]] == v.heap[v.leases[m]])
  }

  /** A fresh reservation is tried once. */
  lemma {:induction false} FreshOnce(v: View, c: Conf, mac: Mac, now: int, order: seq<Mac>, probe: Checker, k: nat)
    requires mac !in v.leases && NextIP(c.range, v.bits).Found?
    ensures var ip := NextIP(c.range, v.bits).ip;
            var w := Fresh(v, c, mac, now, ip);
            var r := Ref(c.id, v.next);
            Allocate(v, c, mac, now, order, probe, k) ==
            if probe(k, ip).Available? then Leased(Occupy(w, c, mac, r), r) else NoLease(w)
  {
    var ip := NextIP(c.range, v.bits).ip;
    var w := Fresh(v, c, mac, now, ip);
    assert Reserve(v, c, mac, now, order) == Reserved(w, Ref(c.id, v.next));
    assert RemoveLease(w, c, w.heap[Ref(c.id, v.next)]).None?;
  }

  lemma {:induction false} FreshSound(v: View, c: Conf, mac: Mac, now: int, ip: Addr)
    requires Sound(v, c) && mac !in v.leases
    requires Contains(c.range, ip) && Offset(c.range, ip) !in v.bits
    ensures var w := Fresh(v, c, mac, now, ip);
            && Sound(w, c) && Local(v, w, c)
            && Sound(Occupy(w, c, mac, Ref(c.id, v.next)), c)
  {
    var r := Ref(c.id, v.next);
    assert r !in v.heap;
    var w := Fresh(v, c, mac, now, ip);
    KeptSound(v, w, c, {});
    OneMoreSound(v, Occupy(w, c, mac, r), c, mac);
  }

  lemma {:induction false} FreshKeeps(v: View, c: Conf, mac: Mac, now: int, order: seq<Mac>, probe: Checker, k: nat)
    requires Sound(v, c) && mac !in v.leases
    requires NextIP(c.range, v.bits).Found?
    ensures var a := Allocate(v, c, mac, now, order, probe, k);
            && Sound(a.v, c) && Local(v, a.v, c) && Assigned(v, c, mac, now, a)
            && a.v.byAddr == v.byAddr && a.v.byName == v.byName
            && (forall r :: r in v.heap ==> a.v.heap[r] == v.heap[r])
  {
    var ip := NextIP(c.range, v.bits).ip;
    OffsetIsDistance(c.range, ip);
    FreshOnce(v, c, mac, now, order, probe, k);
    FreshSound(v, c, mac, now, ip);
  }

  /** The effect of taking over a lease that the index knows. */
  lemma {:induction false} TakeOverShape(v: View, c: Conf, mac: Mac, now: int, owner: Mac)
    requires owner in v.leases && v.heap[v.leases[owner]].hw == owner
    requires IndexRemove(v, c, v.heap[v.leases[owner]]).Some?
    ensures var w := TakeOver(v, c, mac, now, owner);
            && w.leases == (v.leases - {owner})[mac := v.leases[owner]]
            && w.bits == v.bits - {Offset(c.range, IpOf(v, owner))}
            && w.byAddr == v.byAddr - {IpOf(v, owner)}
            && w.byName == v.byName - {Lower(v.heap[v.leases[owner]].hostname)}
            && w.next == v.next && w.heap == v.heap[v.leases[owner] := Reclaimed(v, c, mac, now, owner)]
  {
  }

  function Reclaimed(v: View, c: Conf, mac: Mac, now: int, owner: Mac): Lease
    requires owner in v.leases
  {
    Lease(IpOf(v, owner), now + c.ttl, "", mac, false)
  }

  lemma {:induction false} TakeOverSound(v: View, c: Conf, mac: Mac, now: int, owner: Mac)
    requires Sound(v, c) && mac !in v.leases && owner in v.leases
    requires IndexRemove(v, c, v.heap[v.leases[owner]]).Some?
    ensures Sound(Occupy(TakeOver(v, c, mac, now, owner), c, mac, v.leases[owner]), c)
  {
    TakeOverShape(v, c, mac, now, owner);
    DistinctRefs(v, c, owner);
    RemoveKeeps(v, c, owner);
    var x := RemoveLease(v, c, v.heap[v.leases[owner]]).value;
    assert forall m :: m in x.leases ==> IpOf(v, m) != IpOf(v, owner);
    OneMoreSound(x, Occupy(TakeOver(v, c, mac, now, owner), c, mac, v.leases[owner]), c, mac);
  }

  lemma {:induction false} BlockShape(v: View, c: Conf, r: Ref, now: int)
    requires r in v.heap && v.heap[r].hw in v.leases
    ensures var b := BlockLease(v, c, r, now);
            && b.Some? && b.value.next == v.next
            && b.value.byAddr == v.byAddr && b.value.byName == v.byName
            && b.value.leases == v.leases - {v.heap[r].hw}
            && b.value.bits == v.bits - {Offset(c.range, v.heap[r].ip)}
            && b.value.heap == v.heap[r := Lease(v.heap[r].ip, now + c.ttl, "", BLOCKED, false)]
  {
  }

  /** Losing the lease of m, whatever becomes of the object, keeps the rest sound. */
  lemma {:induction false} DroppedSound(v: View, b: View, c: Conf, m: Mac, l: Lease)
    requires Sound(v, c) && m in v.leases
    requires b.leases == v.leases - {m} && b.heap == v.heap[v.leases[m] := l]
    requires b.bits == v.bits - {Offset(c.range, IpOf(v, m))} && b.next == v.next
    ensures Sound(b, c) && Local(v, b, c)
  {
    DistinctRefs(v, c, m);
    DistinctOffsets(v, c, m);
    KeptSound(v, b, c, {Offset(c.range, IpOf(v, m))});
  }

  /** Blocking right after the take-over: the interface loses the expired lease, and
      its address is free again. */
  lemma {:induction false} BlockedTakeOver(v: View, c: Conf, mac: Mac, now: int, owner: Mac)
    requires Sound(v, c) && mac !in v.leases && owner in v.leases
    requires IndexRemove(v, c, v.heap[v.leases[owner]]).Some?
    ensures var w := TakeOver(v, c, mac, now, owner);
            var b := BlockLease(w, c, v.leases[owner], now);
            && b.Some? && Sound(b.value, c) && b.value.leases == v.leases - {owner}
            && Offset(c.range, IpOf(v, owner)) !in b.value.bits
            && b.value.byAddr == v.byAddr - {IpOf(v, owner)}
            && b.value.byName == v.byName - {Lower(v.heap[v.leases[owner]].hostname)}
            && Local(v, b.value, c)
            && (forall r :: r in v.heap && r != v.leases[owner] ==> b.value.heap[r] == v.heap[r])
  {
    BlockedShape(v, c, mac, now, owner);
    var b := BlockLease(TakeOver(v, c, mac, now, owner), c, v.leases[owner], now).value;
    DroppedSound(v, b, c, owner, Lease(IpOf(v, owner), now + c.ttl, "", BLOCKED, false));
  }

  lemma {:induction false} BlockedShape(v: View, c: Conf, mac: Mac, now: int, owner: Mac)
    requires mac !in v.leases && owner in v.leases && v.heap[v.leases[owner]].hw == owner
    requires IndexRemove(v, c, v.heap[v.leases[owner]]).Some?
    ensures var r := v.leases[owner];
            var b := BlockLease(TakeOver(v, c, mac, now, owner), c, r, now);
            && b.Some? && b.value.leases == v.leases - {owner} && b.value.next == v.next
            && b.value.bits == v.bits - {Offset(c.range, IpOf(v, owner))}
            && b.value.byAddr == v.byAddr - {IpOf(v, owner)}
            && b.value.byName == v.byName - {Lower(v.heap[v.leases[owner]].hostname)}
            && b.value.heap == v.heap[r := Lease(IpOf(v, owner), now + c.ttl, "", BLOCKED, false)]
  {
    var r := v.leases[owner];
    TakeOverShape(v, c, mac, now, owner);
    var w := TakeOver(v, c, mac, now, owner);
    BlockShape(w, c, r, now);
    assert (v.leases - {owner})[mac := r] - {mac} == v.leases - {owner};
    assert v.heap[r := w.heap[r]][r := Lease(IpOf(v, owner), now + c.ttl, "", BLOCKED, false)] ==
           v.heap[r := Lease(IpOf(v, owner), now + c.ttl, "", BLOCKED, false)];
  }

  lemma {:induction false} ReclaimUnfold(v: View, c: Conf, mac: Mac, now: int, order: seq<Mac>, probe: Checker, k: nat)
    requires mac !in v.leases
    requires NextIP(c.range, v.bits).NoneFree? && FindExpired(v, order, now).Some?
    requires !probe(k, IpOf(v, FindExpired(v, order, now).value)).CheckFailed?
    ensures var owner := FindExpired(v, order, now).value;
            var r := v.leases[owner];
            var w := TakeOver(v, c, mac, now, owner);
            var b := BlockLease(w, c, r, now);
            && (probe(k, IpOf(v, owner)).Available? ==>
                  Allocate(v, c, mac, now, order, probe, k) == Leased(Occupy(w, c, mac, r), r))
            && (probe(k, IpOf(v, owner)).Unavailable? && b.Some? && mac !in b.value.leases ==>
                  Allocate(v, c, mac, now, order, probe, k) == Allocate(b.value, c, mac, now, order, probe, k + 1))
  {
    var owner := FindExpired(v, order, now).value;
    var w := TakeOver(v, c, mac, now, owner);
    assert Reserve(v, c, mac, now, order) == Reserved(w, v.leases[owner]);
    assert w.heap[v.leases[owner]].ip == IpOf(v, owner);
  }

  /** What an allocation that took over the lease of `owner` leaves behind. */
  ghost predicate TookOver(v: View, c: Conf, mac: Mac, now: int, owner: Mac, a: Allocation)
    requires owner in v.leases
  {
    && Sound(a.v, c) && Local(v, a.v, c) && Assigned(v, c, mac, now, a)
    && owner !in a.v.leases
    && a.v.byAddr == v.byAddr - {IpOf(v, owner)}
    && a.v.byName == v.byName - {Lower(v.heap[v.leases[owner]].hostname)}
    && (forall r :: r in v.heap && r != v.leases[owner] ==> a.v.heap[r] == v.heap[r])
  }

  lemma {:induction false} ReclaimAccepted(v: View, c: Conf, mac: Mac, now: int, owner: Mac)
    requires Sound(v, c) && mac !in v.leases && owner in v.leases
    requires IndexRemove(v, c, v.heap[v.leases[owner]]).Some?
    ensures var r := v.leases[owner];
            TookOver(v, c, mac, now, owner, Leased(Occupy(TakeOver(v, c, mac, now, owner), c, mac, r), r))
  {
    TakeOverShape(v, c, mac, now, owner);
    DistinctRefs(v, c, owner);
    TakeOverSound(v, c, mac, now, owner);
  }

  lemma {:induction false} ReclaimRejected(
      v: View, c: Conf, mac: Mac, now: int, order: seq<Mac>, probe: Checker, k: nat, owner: Mac)
    requires Sound(v, c) && mac !in v.leases && owner in v.leases
    requires IndexRemove(v, c, v.heap[v.leases[owner]]).Some?
    ensures var b := BlockLease(TakeOver(v, c, mac, now, owner), c, v.leases[owner], now);
            && b.Some? && mac !in b.value.leases
            && TookOver(v, c, mac, now, owner, Allocate(b.value, c, mac, now, order, probe, k))
  {
    DistinctRefs(v, c, owner);
    BlockedTakeOver(v, c, mac, now, owner);
    var b := BlockLease(TakeOver(v, c, mac, now, owner), c, v.leases[owner], now).value;
    FreedIsFound(c.range, b.bits, IpOf(v, owner));
    FreshKeeps(b, c, mac, now, order, probe, k);
    ComposeLocal(v, b, Allocate(b, c, mac, now, order, probe, k).v, c);
  }

  lemma {:induction false} ReclaimKeeps(v: View, c: Conf, mac: Mac, now: int, order: seq<Mac>, probe: Checker, k: nat)
    requires Sound(v, c) && mac !in v.leases
    requires NextIP(c.range, v.bits).NoneFree? && FindExpired(v, order, now).Some?
    requires ReclaimSafe(v, c, now, order, probe, k)
    ensures TookOver(v, c, mac, now, FindExpired(v, order, now).value, Allocate(v, c, mac, now, order, probe, k))
  {
    var owner := FindExpired(v, order, now).value;
    ReclaimUnfold(v, c, mac, now, order, probe, k);
    if probe(k, IpOf(v, owner)).Unavailable? {
      ReclaimRejected(v, c, mac, now, order, probe, k + 1, owner);
    } else {
      ReclaimAccepted(v, c, mac, now, owner);
    }
  }

  lemma {:induction false} ComposeLocal(u: View, v: View, w: View, c: Conf)
    requires Local(u, v, c) && Local(v, w, c)
    ensures Local(u, w, c)
  {
  }

  /** Taking over a lease that the index does not know leaves the old key behind. */
  lemma {:induction false} UnindexedTakeOver(v: View, c: Conf, mac: Mac, now: int, owner: Mac)
    requires Sound(v, c) && mac !in v.leases && owner in v.leases
    requires IndexRemove(v, c, v.heap[v.leases[owner]]).None?
    ensures var w := TakeOver(v, c, mac, now, owner);
            && w.leases == v.leases[mac := v.leases[owner]] && owner != mac
            && w.bits == v.bits
            && w.heap[v.leases[owner]].hw == mac && w.heap[v.leases[owner]].ip == IpOf(v, owner)
  {
  }

  /** If the address of such a lease is then found unavailable, the second round picks
      the same address again while the old key still holds it. */
  lemma {:induction false} UnindexedBlocked(
      v: View, c: Conf, mac: Mac, now: int, order: seq<Mac>, probe: Checker, k: nat, owner: Mac, b: View)
    requires Sound(v, c) && mac !in v.leases && owner in v.leases
    requires NextIP(c.range, v.bits).NoneFree?
    requires b.leases == v.leases && b.bits == v.bits - {Offset(c.range, IpOf(v, owner))}
    requires IpOf(b, owner) == IpOf(v, owner)
    ensures var a := Allocate(b, c, mac, now, order, probe, k);
            !Sound(a.v, c) && (a.Leased? ==> BrokenBeside(a.v, mac))
  {
    var ip := IpOf(v, owner);
    LowestIsFreed(v, c, b, ip);
    FreshOnce(b, c, mac, now, order, probe, k);
    var a := Allocate(b, c, mac, now, order, probe, k);
    assert Ref(c.id, b.next) !in b.heap;
    assert owner in a.v.leases && IpOf(a.v, owner) == ip;
    if a.Leased? {
      assert IpOf(a.v, mac) == ip;
    } else {
      assert Offset(c.range, ip) !in a.v.bits;
    }
  }

  /** Taking over a lease that is not in the index, or giving up after the take-over,
      always breaks the interface. */
  lemma {:induction false} UnsafeReclaimBreaks(
      v: View, c: Conf, mac: Mac, now: int, order: seq<Mac>, probe: Checker, k: nat)
    requires Sound(v, c) && mac !in v.leases
    requires !ReclaimSafe(v, c, now, order, probe, k)
    ensures var a := Allocate(v, c, mac, now, order, probe, k);
            !Sound(a.v, c) && (a.Leased? ==> BrokenBeside(a.v, mac))
  {
    var owner := FindExpired(v, order, now).value;
    if IndexRemove(v, c, v.heap[v.leases[owner]]).Some? {
      TakeOverShape(v, c, mac, now, owner);
      var w := TakeOver(v, c, mac, now, owner);
      assert Allocate(v, c, mac, now, order, probe, k) == NoLease(w);
      assert IpOf(w, mac) == IpOf(v, owner) && Offset(c.range, IpOf(v, owner)) !in w.bits;
    } else {
      UnindexedReclaimBreaks(v, c, mac, now, order, probe, k, owner);
    }
  }

  lemma {:induction false} UnindexedReclaimBreaks(
      v: View, c: Conf, mac: Mac, now: int, order: seq<Mac>, probe: Checker, k: nat, owner: Mac)
    requires Sound(v, c) && mac !in v.leases
    requires NextIP(c.range, v.bits).NoneFree? && FindExpired(v, order, now) == Some(owner)
    requires IndexRemove(v, c, v.heap[v.leases[owner]]).None?
    ensures var a := Allocate(v, c, mac, now, order, probe, k);
            !Sound(a.v, c) && (a.Leased? ==> BrokenBeside(a.v, mac))
  {
    var r := v.leases[owner];
    var w := TakeOver(v, c, mac, now, owner);
    UnindexedTakeOver(v, c, mac, now, owner);
    StaleKey(w, c, mac, owner, r);
    if probe(k, IpOf(v, owner)).CheckFailed? {
      assert Reserve(v, c, mac, now, order) == Reserved(w, r);
    } else {
      ReclaimUnfold(v, c, mac, now, order, probe, k);
      if probe(k, IpOf(v, owner)).Unavailable? {
        UnindexedShape(v, c, mac, now, owner);
        UnindexedBlocked(v, c, mac, now, order, probe, k + 1, owner, BlockLease(w, c, r, now).value);
      }
    }
  }

  lemma {:induction false} StaleKey(w: View, c: Conf, mac: Mac, owner: Mac, r: Ref)
    requires owner in w.leases && w.leases[owner] == r && owner != mac && w.heap[r].hw == mac
    ensures !Sound(w, c) && !Sound(Occupy(w, c, mac, r), c) && BrokenBeside(Occupy(w, c, mac, r), mac)
  {
    var o := Occupy(w, c, mac, r);
    assert owner in o.leases && o.heap[o.leases[owner]].hw == mac;
  }

  lemma {:induction false} UnindexedShape(v: View, c: Conf, mac: Mac, now: int, owner: Mac)
    requires Sound(v, c) && mac !in v.leases && owner in v.leases
    requires IndexRemove(v, c, v.heap[v.leases[owner]]).None?
    ensures var b := BlockLease(TakeOver(v, c, mac, now, owner), c, v.leases[owner], now);
            && b.Some? && b.value.leases == v.leases && IpOf(b.value, owner) == IpOf(v, owner)
            && b.value.bits == v.bits - {Offset(c.range, IpOf(v, owner))}
  {
    var r := v.leases[owner];
    UnindexedTakeOver(v, c, mac, now, owner);
    BlockShape(TakeOver(v, c, mac, now, owner), c, r, now);
    assert v.leases[mac := r] - {mac} == v.leases;
  }

  /** Some key other than mac is already wrong, or shares the address of mac. */
  ghost predicate BrokenBeside(v: View, mac: Mac) {
    exists m :: m in v.leases && m != mac && mac in v.leases &&
                (v.heap[v.leases[m]].hw == mac || IpOf(v, m) == IpOf(v, mac))
  }

  lemma {:induction false} LowestIsFreed(v: View, c: Conf, b: View, ip: Addr)
    requires NextIP(c.range, v.bits).NoneFree?
    requires Contains(c.range, ip) && b.bits == v.bits - {Offset(c.range, ip)}
    ensures NextIP(c.range, b.bits) == Found(ip)
  {
    OffsetIsDistance(c.range, ip);
    FreedIsFound(c.range, b.bits, ip);
    var found := NextIP(c.range, b.bits).ip;
    assert found.val - c.range.start.val !in b.bits;
  }

  /** An allocation keeps the interface sound exactly when its reclaim is safe. */
  lemma {:induction false} AllocateSoundIff(v: View, c: Conf, mac: Mac, now: int, order: seq<Mac>, probe: Checker)
    requires Sound(v, c) && mac !in v.leases
    ensures var a := Allocate(v, c, mac, now, order, probe, 0);
            && (Sound(a.v, c) <==> ReclaimSafe(v, c, now, order, probe, 0))
            && (Sound(a.v, c) ==> Local(v, a.v, c) && Assigned(v, c, mac, now, a))
  {
    if !ReclaimSafe(v, c, now, order, probe, 0) {
      UnsafeReclaimBreaks(v, c, mac, now, order, probe, 0);
    } else if NextIP(c.range, v.bits).Found? {
      FreshKeeps(v, c, mac, now, order, probe, 0);
    } else if NextIP(c.range, v.bits).NoneFree? && FindExpired(v, order, now).Some? {
      ReclaimKeeps(v, c, mac, now, order, probe, 0);
    }
  }

  /** An allocation is aborted exactly if its first search panics. */
  lemma {:induction false} AbortedIff(v: View, c: Conf, mac: Mac, now: int, order: seq<Mac>, probe: Checker, k: nat)
    requires mac !in v.leases
    ensures Allocate(v, c, mac, now, order, probe, k).Aborted? <==> NextIP(c.range, v.bits).Panicked?
  {
    if NextIP(c.range, v.bits).Found? {
      FreshNotAborted(v, c, mac, now, order, probe, k);
    } else if NextIP(c.range, v.bits).NoneFree? && FindExpired(v, order, now).Some? {
      TakeOverNotAborted(v, c, mac, now, order, probe, k);
    }
  }

  lemma {:induction false} FreshNotAborted(
      v: View, c: Conf, mac: Mac, now: int, order: seq<Mac>, probe: Checker, k: nat)
    requires mac !in v.leases && NextIP(c.range, v.bits).Found?
    ensures !Allocate(v, c, mac, now, order, probe, k).Aborted?
  {
    FreshOnce(v, c, mac, now, order, probe, k);
  }

  lemma {:induction false} TakeOverNotAborted(
      v: View, c: Conf, mac: Mac, now: int, order: seq<Mac>, probe: Checker, k: nat)
    requires mac !in v.leases && NextIP(c.range, v.bits).NoneFree? && FindExpired(v, order, now).Some?
    ensures !Allocate(v, c, mac, now, order, probe, k).Aborted?
  {
    var owner := FindExpired(v, order, now).value;
    var r := v.leases[owner];
    var w := TakeOver(v, c, mac, now, owner);
    if probe(k, IpOf(v, owner)).CheckFailed? {
      assert Reserve(v, c, mac, now, order) == Reserved(w, r) && w.heap[r].ip == IpOf(v, owner);
    } else {
      ReclaimUnfold(v, c, mac, now, order, probe, k);
      BlockShape(w, c, r, now);
      if probe(k, IpOf(v, owner)).Unavailable? {
        var b := BlockLease(w, c, r, now).value;
        FreedIsFound(c.range, b.bits, w.heap[r].ip);
        FreshNotAborted(b, c, mac, now, order, probe, k + 1);
      }
    }
  }

  /** The address that a safe allocation gives: the lowest free one, otherwise that of the
      expired lease, if the checker accepts it; the latter is offered to the checker twice. */
  function Gives(v: View, c: Conf, now: int, order: seq<Mac>, probe: Checker, k: nat): Option<Addr> {
    match NextIP(c.range, v.bits)
    case Panicked => None
    case Found(ip) => if probe(k, ip).Available? then Some(ip) else None
    case NoneFree =>
      match FindExpired(v, order, now)
      case None => None
      case Some(owner) =>
        var ip := IpOf(v, owner);
        if probe(k, ip).Available? || (probe(k, ip).Unavailable? && probe(k + 1, ip).Available?) then Some(ip) else None
  }

  ghost predicate GivesAt(a: Allocation, given: bool, ip: Addr) {
    (a.Leased? <==> given) && (a.Leased? ==> a.r in a.v.heap && a.v.heap[a.r].ip == ip)
  }

  lemma {:induction false} AllocateGives(v: View, c: Conf, mac: Mac, now: int, order: seq<Mac>, probe: Checker, k: nat)
    requires Sound(v, c) && mac !in v.leases && ReclaimSafe(v, c, now, order, probe, k)
    ensures var a := Allocate(v, c, mac, now, order, probe, k);
            var ip := Gives(v, c, now, order, probe, k);
            && (a.Leased? <==> ip.Some?) && (a.Leased? ==> a.v.heap[a.r].ip == ip.value)
            && (NextIP(c.range, v.bits).Panicked? ==> a == Aborted(v))
            && (NextIP(c.range, v.bits).NoneFree? && FindExpired(v, order, now).None? ==> a == NoLease(v))
  {
    if NextIP(c.range, v.bits).Found? {
      FreshOnce(v, c, mac, now, order, probe, k);
    } else if NextIP(c.range, v.bits).NoneFree? && FindExpired(v, order, now).Some? {
      TakeOverGives(v, c, mac, now, order, probe, k, FindExpired(v, order, now).value);
    }
  }

  lemma {:induction false} TakeOverGives(
      v: View, c: Conf, mac: Mac, now: int, order: seq<Mac>, probe: Checker, k: nat, owner: Mac)
    requires Sound(v, c) && mac !in v.leases && ReclaimSafe(v, c, now, order, probe, k)
    requires NextIP(c.range, v.bits).NoneFree? && FindExpired(v, order, now) == Some(owner)
    ensures var ip := IpOf(v, owner);
            var given := probe(k, ip).Available? || (probe(k, ip).Unavailable? && probe(k + 1, ip).Available?);
            GivesAt(Allocate(v, c, mac, now, order, probe, k), given, ip)
  {
    ReclaimUnfold(v, c, mac, now, order, probe, k);
    var r := v.leases[owner];
    if probe(k, IpOf(v, owner)).Available? {
      OccupiedAt(v, c, mac, now, owner);
    } else {
      BlockedGives(v, c, mac, now, order, probe, k, owner);
    }
  }

  lemma {:induction false} OccupiedAt(v: View, c: Conf, mac: Mac, now: int, owner: Mac)
    requires owner in v.leases
    ensures var r := v.leases[owner];
            GivesAt(Leased(Occupy(TakeOver(v, c, mac, now, owner), c, mac, r), r), true, IpOf(v, owner))
  {
  }

  lemma {:induction false} BlockedGives(
      v: View, c: Conf, mac: Mac, now: int, order: seq<Mac>, probe: Checker, k: nat, owner: Mac)
    requires Sound(v, c) && mac !in v.leases && owner in v.leases && NextIP(c.range, v.bits).NoneFree?
    requires IndexRemove(v, c, v.heap[v.leases[owner]]).Some?
    ensures var b := BlockLease(TakeOver(v, c, mac, now, owner), c, v.leases[owner], now);
            && b.Some? && mac !in b.value.leases
            && var ip := IpOf(v, owner);
               GivesAt(Allocate(b.value, c, mac, now, order, probe, k + 1), probe(k + 1, ip).Available?, ip)
  {
    BlockedShape(v, c, mac, now, owner);
    var b := BlockLease(TakeOver(v, c, mac, now, owner), c, v.leases[owner], now).value;
    SecondRoundGives(v, c, mac, now, order, probe, k, b, IpOf(v, owner));
  }

  lemma {:induction false} SecondRoundGives(
      v: View, c: Conf, mac: Mac, now: int, order: seq<Mac>, probe: Checker, k: nat, b: View, ip: Addr)
    requires NextIP(c.range, v.bits).NoneFree? && Contains(c.range, ip)
    requires mac !in b.leases && b.bits == v.bits - {Offset(c.range, ip)}
    ensures GivesAt(Allocate(b, c, mac, now, order, probe, k + 1), probe(k + 1, ip).Available?, ip)
  {
    LowestIsFreed(v, c, b, ip);
    FreshOnce(b, c, mac, now, order, probe, k + 1);
  }
}
