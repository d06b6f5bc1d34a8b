/** The lease engine as the objects of the source: a shared index, interfaces with their
    lease maps and bit sets, and the handlers that change them in place.  Each method is
    proved to do to the state exactly what the corresponding function does. */
module LeaseEngine {
  import opened Net
  import opened IpRange
  import opened BitSets
  import opened LeaseModel
  import opened DhcpServer

  /** leaseIndex, together with the lease objects all its maps point to. */
  class LeaseIndex {
    var heap: map<Ref, Lease>
    var next: nat
    var byAddr: map<Addr, Ref>
    var byName: map<string, Ref>

    constructor ()
      ensures heap == map[] && next == 0 && byAddr == map[] && byName == map[]
    {
      heap, next, byAddr, byName := map[], 0, map[], map[];
    }

    /** add */
    method Add(r: Ref, iface: NetInterface) returns (ok: bool)
      requires iface.index == this && iface.Valid() && r in heap
      modifies this, iface, iface.leasedOffsets
      ensures iface.Valid()
      ensures ok == IndexAdd(old(iface.State()), iface.conf, r).Some?
      ensures iface.State() == if ok then IndexAdd(old(iface.State()), iface.conf, r).value else old(iface.State())
    {
      var l := heap[r];
      var loweredName := Lower(l.hostname);
      if l.ip in byAddr {
        return false;
      } else if loweredName in byName {
        return false;
      }
      ok := iface.AddLease(r);
      if !ok {
        return;
      }
      byAddr := byAddr[l.ip := r];
      byName := byName[loweredName := r];
    }

    /** remove */
    method Remove(l: Lease, iface: NetInterface) returns (ok: bool)
      requires iface.index == this && iface.Valid()
      modifies this, iface, iface.leasedOffsets
      ensures iface.Valid()
      ensures ok == IndexRemove(old(iface.State()), iface.conf, l).Some?
      ensures iface.State() == if ok then IndexRemove(old(iface.State()), iface.conf, l).value else old(iface.State())
    {
      var loweredName := Lower(l.hostname);
      if l.ip !in byAddr {
        return false;
      } else if loweredName !in byName {
        return false;
      }
      ok := iface.RemoveLease(l);
      if !ok {
        return;
      }
      byAddr := byAddr - {l.ip};
      byName := byName - {loweredName};
    }

    /** update */
    method Update(r: Ref, iface: NetInterface) returns (ok: bool)
      requires iface.index == this && iface.Valid() && r in heap
      modifies this, iface
      ensures iface.Valid()
      ensures ok == IndexUpdate(old(iface.State()), iface.conf, r).Some?
      ensures iface.State() == if ok then IndexUpdate(old(iface.State()), iface.conf, r).value else old(iface.State())
    {
      var l := heap[r];
      var loweredName := Lower(l.hostname);
      if l.ip in byAddr && heap[byAddr[l.ip]].hw != l.hw {
        return false;
      }
      if loweredName in byName && heap[byName[loweredName]].hw != l.hw {
        return false;
      }
      var prev := iface.UpdateLease(r);
      if prev.None? {
        return false;
      }
      byAddr := byAddr - {heap[prev.value].ip};
      byName := byName - {Lower(heap[prev.value].hostname)};
      byAddr := byAddr[l.ip := r];
      byName := byName[loweredName := r];
      ok := true;
    }
  }

  class NetInterface {
    const conf: Conf
    const index: LeaseIndex
    const leasedOffsets: BitSet
    var leases: map<Mac, Ref>

    ghost predicate Valid()
      reads this, index, leasedOffsets
    {
      Closed(View(index.heap, index.next, leases, leasedOffsets.Contents(), index.byAddr, index.byName))
    }

    ghost function State(): View
      requires Valid()
      reads this, index, leasedOffsets
    {
      View(index.heap, index.next, leases, leasedOffsets.Contents(), index.byAddr, index.byName)
    }

    constructor (conf: Conf, index: LeaseIndex)
      requires Closed(View(index.heap, index.next, map[], {}, index.byAddr, index.byName))
      ensures this.conf == conf && this.index == index && fresh(leasedOffsets)
      ensures Valid() && leases == map[] && leasedOffsets.Contents() == {}
    {
      this.conf, this.index, leases := conf, index, map[];
      leasedOffsets := new BitSet();
    }

    method AddLease(r: Ref) returns (ok: bool)
      requires Valid() && r in index.heap
      modifies this, leasedOffsets
      ensures Valid()
      ensures ok == LeaseModel.AddLease(old(State()), conf, r).Some?
      ensures State() == if ok then LeaseModel.AddLease(old(State()), conf, r).value else old(State())
    {
      var l := index.heap[r];
      if l.hw in leases {
        return false;
      }
      leases := leases[l.hw := r];
      leasedOffsets.Set(Offset(conf.range, l.ip), true);
      ok := true;
    }

    /** AddLease, UpdateStaticLease and RemoveLease of the server, for the interface of the
        lease, and the loading of a stored lease. */
    method Apply(op: AdminOp, l: Lease) returns (ok: bool)
      requires Valid()
      modifies this, leasedOffsets, index
      ensures Valid()
      ensures ok == AdminView(old(State()), conf, op, l).Some?
      ensures State() == if ok then AdminView(old(State()), conf, op, l).value else old(State())
    {
      if op.Remove? {
        ok := index.Remove(l, this);
        return;
      }
      var heap, next := index.heap, index.next;
      var r := Ref(conf.id, next);
      index.heap, index.next := heap[r := l], next + 1;
      assert State() == Copied(old(State()), conf, l);
      if op.Add? {
        ok := index.Add(r, this);
      } else {
        ok := index.Update(r, this);
      }
      if !ok {
        // Nothing refers to the new object.
        index.heap, index.next := heap, next;
      }
    }

    /** updateLease: the previous lease of the same hardware address, if there is one. */
    method UpdateLease(r: Ref) returns (prev: Option<Ref>)
      requires Valid() && r in index.heap
      modifies this
      ensures Valid()
      ensures prev == if index.heap[r].hw in old(leases) then Some(old(leases)[index.heap[r].hw]) else None
      ensures leases == if prev.Some? then old(leases)[index.heap[r].hw := r] else old(leases)
    {
      var l := index.heap[r];
      if l.hw !in leases {
        return None;
      }
      prev := Some(leases[l.hw]);
      leases := leases[l.hw := r];
    }

    method RemoveLease(l: Lease) returns (ok: bool)
      requires Valid()
      modifies this, leasedOffsets
      ensures Valid()
      ensures ok == LeaseModel.RemoveLease(old(State()), conf, l).Some?
      ensures State() == if ok then LeaseModel.RemoveLease(old(State()), conf, l).value else old(State())
    {
      if l.hw !in leases {
        return false;
      }
      leases := leases - {l.hw};
      leasedOffsets.Set(Offset(conf.range, l.ip), false);
      ok := true;
    }

    method BlockLease(r: Ref, now: int) returns (ok: bool)
      requires Valid() && r in index.heap
      modifies this, leasedOffsets, index
      ensures Valid()
      ensures ok == LeaseModel.BlockLease(old(State()), conf, r, now).Some?
      ensures State() == if ok then LeaseModel.BlockLease(old(State()), conf, r, now).value else old(State())
    {
      ok := RemoveLease(index.heap[r]);
      if !ok {
        return;
      }
      var l := index.heap[r];
      l := l.(hw := BLOCKED);
      l := l.(hostname := "");
      l := l.(expiry := now + conf.ttl);
      l := l.(isStatic := false);
      index.heap := index.heap[r := l];
    }

    /** nextIP: walks the range and asks the bit set about each offset. */
    method NextFree() returns (res: Search)
      ensures res == NextIP(conf.range, leasedOffsets.Contents())
    {
      ghost var taken := leasedOffsets.Contents();
      var r := conf.range;
      var ip := r.start;
      while true
        invariant Contains(r, ip)
        invariant forall off :: 0 <= off < ip.val - r.start.val ==> off in taken
        decreases r.end.val - ip.val
      {
        OffsetIsDistance(r, ip);
        var set' := leasedOffsets.IsSet(Offset(r, ip));
        if !set' {
          res := Found(ip);
          LowestFreeUnique(r, taken, res, NextIP(r, taken));
          return;
        }
        var next := Next(ip);
        if next.None? {
          res := Panicked;
          LowestFreeUnique(r, taken, res, NextIP(r, taken));
          return;
        }
        if Less(r.end, next.value) {
          res := NoneFree;
          LowestFreeUnique(r, taken, res, NextIP(r, taken));
          return;
        }
        ip := next.value;
      }
    }

    /** findExpiredLease over the map in the given order. */
    method FindExpiredLease(order: seq<Mac>, now: int) returns (found: Option<Mac>)
      requires Valid()
      ensures found == FindExpired(State(), order, now)
    {
      for i := 0 to |order|
        invariant FindExpired(State(), order, now) == FindExpired(State(), order[i..], now)
      {
        if order[i] in leases && index.heap[leases[order[i]]].ExpiredAt(now) {
          return Some(order[i]);
        }
        assert order[i..][1..] == order[i + 1..];
      }
      found := None;
    }

    method ReserveLease(mac: Mac, now: int, order: seq<Mac>) returns (res: Search, r: Option<Ref>)
      requires Valid()
      modifies this, leasedOffsets, index
      ensures Valid()
      ensures var spec := Reserve(old(State()), conf, mac, now, order);
              && (r.Some? <==> spec.Reserved?) && (res.Panicked? <==> spec.SearchPanic?)
              && (r.Some? ==> r.value == spec.r && State() == spec.v)
              && (r.None? ==> State() == old(State()))
    {
      res := NextFree();
      match res {
        case Panicked =>
          r := None;
        case Found(ip) =>
          var fresh' := Ref(conf.id, index.next);
          index.heap := index.heap[fresh' := Lease(ip, now + conf.ttl, "", mac, false)];
          index.next := index.next + 1;
          r := Some(fresh');
        case NoneFree =>
          var owner := FindExpiredLease(order, now);
          if owner.None? {
            r := None;
            return;
          }
          var reclaimed := Reclaim(mac, now, owner.value);
          r := Some(reclaimed);
      }
    }

    /** The end of reserveLease: the expired lease is handed over. */
    method Reclaim(mac: Mac, now: int, owner: Mac) returns (r: Ref)
      requires Valid() && owner in leases
      modifies this, leasedOffsets, index
      ensures Valid() && r == old(leases)[owner] && State() == TakeOver(old(State()), conf, mac, now, owner)
    {
      r := leases[owner];
      ghost var v := State();
      var ok := index.Remove(index.heap[r], this);
      assert State() == if ok then IndexRemove(v, conf, v.heap[r]).value else v;
      var l := index.heap[r];
      l := l.(hw := mac);
      l := l.(hostname := "");
      l := l.(isStatic := false);
      l := l.WithExpiry(now + conf.ttl);
      index.heap := index.heap[r := l];
      leases := leases[mac := r];
    }

    /** One round of allocateLease. */
    method Attempt(mac: Mac, env: Env, k: nat) returns (r: Option<Ref>, end: Ending)
      requires Valid()
      modifies this, leasedOffsets, index
      ensures Valid()
      ensures var spec := Round(old(State()), conf, mac, env, k);
              end == spec.end && State() == spec.v && r == spec.r
    {
      var res, reserved := ReserveLease(mac, env.now, env.order);
      if reserved.None? {
        return None, if res.Panicked? then Panic else GaveUp;
      }
      var ip := index.heap[reserved.value].ip;
      match env.probe(k, ip)
      case CheckFailed =>
        return None, GaveUp;
      case Available =>
        leases := leases[mac := reserved.value];
        leasedOffsets.Set(Offset(conf.range, ip), true);
        return reserved, Success;
      case Unavailable =>
        var ok := BlockLease(reserved.value, env.now);
        return None, if ok then Again else GaveUp;
    }

    /** allocateLease: the loop over reservations until the checker accepts one. */
    method AllocateLease(mac: Mac, env: Env) returns (r: Option<Ref>, panicked: bool)
      requires Valid() && mac !in leases
      modifies this, leasedOffsets, index
      ensures Valid()
      ensures var spec := Allocate(old(State()), conf, mac, env.now, env.order, env.probe, 0);
              && State() == spec.v
              && (r.Some? <==> spec.Leased?) && (r.Some? ==> r.value == spec.r)
              && (panicked <==> spec.Aborted?)
    {
      ghost var spec := Allocate(State(), conf, mac, env.now, env.order, env.probe, 0);
      var k := 0;
      while true
        invariant Valid() && mac !in leases
        invariant Allocate(State(), conf, mac, env.now, env.order, env.probe, k) == spec
        decreases if NextIP(conf.range, leasedOffsets.Contents()).Found? then 0 else 1
      {
        AllocateByRounds(State(), conf, mac, env, k);
        var end;
        r, end := Attempt(mac, env, k);
        if !end.Again? {
          return r, end.Panic?;
        }
        k := k + 1;
      }
    }
  }

  datatype Ending = Success | GaveUp | Panic | Again

  datatype RoundResult = RoundResult(end: Ending, v: View, r: Option<Ref>)

  function Round(v: View, c: Conf, mac: Mac, env: Env, k: nat): RoundResult {
    match Reserve(v, c, mac, env.now, env.order)
    case Refused => RoundResult(GaveUp, v, None)
    case SearchPanic => RoundResult(Panic, v, None)
    case Reserved(w, r) =>
      match env.probe(k, w.heap[r].ip)
      case CheckFailed => RoundResult(GaveUp, w, None)
      case Available => RoundResult(Success, Occupy(w, c, mac, r), Some(r))
      case Unavailable =>
        match BlockLease(w, c, r, env.now)
        case None => RoundResult(GaveUp, w, None)
        case Some(b) => RoundResult(Again, b, None)
  }

  /** Allocate is rounds until one does not ask for another, which happens after two. */
  lemma {:induction false} AllocateByRounds(v: View, c: Conf, mac: Mac, env: Env, k: nat)
    requires mac !in v.leases
    ensures var one := Round(v, c, mac, env, k);
            var a := Allocate(v, c, mac, env.now, env.order, env.probe, k);
            match one.end
            case Success => one.r.Some? && a == Leased(one.v, one.r.value)
            case GaveUp => one.r.None? && a == NoLease(one.v)
            case Panic => one.r.None? && a == Aborted(one.v)
            case Again =>
              && mac !in one.v.leases && a == Allocate(one.v, c, mac, env.now, env.order, env.probe, k + 1)
              && NextIP(c.range, one.v.bits).Found? && !NextIP(c.range, v.bits).Found?
  {
    match Reserve(v, c, mac, env.now, env.order)
    case Refused =>
    case SearchPanic =>
    case Reserved(w, r) =>
      if Round(v, c, mac, env, k).end.Again? {
        FreedIsFound(c.range, Round(v, c, mac, env, k).v.bits, w.heap[r].ip);
      }
  }
}
