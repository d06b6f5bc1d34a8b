/** Concrete runs that show why the run theorems carry their conditions. */
module Counterexamples {
  import opened Net
  import opened IpRange
  import opened LeaseModel
  import opened LeaseInvariant
  import opened Dhcp4
  import opened DhcpServer
  import opened IndexViews

  const A1: Addr := Addr(V4, 1)
  const A2: Addr := Addr(V4, 2)
  const POOL: Range := Range(A1, A2)

  function SmallConf(): Conf {
    Conf(0, POOL, 10, Prefix(Addr(V4, 0), 0), {Addr(V4, 9)}, [], (s: string) => s != "", (a: Addr) => "host")
  }

  const M1: Mac := [0, 0, 0, 0, 0, 1]
  const M2: Mac := [0, 0, 0, 0, 0, 2]
  const M3: Mac := [0, 0, 0, 0, 0, 3]

  function At(now: int, order: seq<Mac>): Env {
    Env(now, order, (k: nat, a: Addr) => Available)
  }

  const START: View := View(map[], 0, map[], {}, map[], map[])

  lemma {:induction false} Offsets()
    ensures Offset(POOL, A1) == 0 && Offset(POOL, A2) == 1
  {
    OffsetIsDistance(POOL, A1);
    OffsetIsDistance(POOL, A2);
  }

  lemma {:induction false} Searches(bits: set<nat>)
    ensures 0 !in bits ==> NextIP(POOL, bits) == Found(A1)
    ensures 0 in bits && 1 !in bits ==> NextIP(POOL, bits) == Found(A2)
    ensures 0 in bits && 1 in bits ==> NextIP(POOL, bits) == NoneFree
  {
    var res := NextIP(POOL, bits);
    if 0 !in bits {
      LowestFreeUnique(POOL, bits, res, Found(A1));
    } else if 1 !in bits {
      LowestFreeUnique(POOL, bits, res, Found(A2));
    } else {
      LowestFreeUnique(POOL, bits, res, NoneFree);
    }
  }

  function Discovered(v: View, mac: Mac, ip: Addr, now: int): View {
    var c := SmallConf();
    Occupy(Fresh(v, c, mac, now, ip), c, mac, Ref(0, v.next))
  }

  lemma {:induction false} DiscoverFresh(v: View, mac: Mac, ip: Addr, now: int)
    requires mac !in v.leases && NextIP(POOL, v.bits) == Found(ip)
    ensures Handle4(v, SmallConf(), Discover(mac), At(now, [])).v == Discovered(v, mac, ip, now)
  {
    FreshOnce(v, SmallConf(), mac, now, [], At(now, []).probe, 0);
  }

  const R0: Ref := Ref(0, 0)
  const R1: Ref := Ref(0, 1)
  const R2: Ref := Ref(0, 2)

  /** Both addresses of the pool reserved, none committed. */
  const FULL: View := View(
    map[R0 := Lease(A1, 10, "", M1, false), R1 := Lease(A2, 10, "", M2, false)],
    2, map[M1 := R0, M2 := R1], {0, 1}, map[], map[])

  lemma {:induction false} ReachFull()
    ensures var c := SmallConf();
            Handle4(Handle4(START, c, Discover(M1), At(0, [])).v, c, Discover(M2), At(0, [])).v == FULL
  {
    Offsets();
    Searches({});
    Searches({0});
    DiscoverFresh(START, M1, A1, 0);
    var v1 := Discovered(START, M1, A1, 0);
    assert v1.bits == {0};
    DiscoverFresh(v1, M2, A2, 0);
    assert Discovered(v1, M2, A2, 0) == FULL;
  }

  lemma {:induction false} FullSound()
    ensures Sound(FULL, SmallConf())
  {
    Offsets();
  }

  /** After the reservations expire a third client takes over the first one, and from then
      on two keys hold the same address. */
  lemma {:induction false} UncommittedReservationReclaimed()
    ensures var c := SmallConf();
            var v := Handle4(FULL, c, Discover(M3), At(100, [M1, M2])).v;
            && Sound(FULL, c) && !Sound(v, c)
            && M1 in v.leases && M3 in v.leases && IpOf(v, M1) == IpOf(v, M3)
  {
    var c, e := SmallConf(), At(100, [M1, M2]);
    FullSound();
    Searches({0, 1});
    assert FindExpired(FULL, [M1, M2], 100) == Some(M1);
    assert IndexRemove(FULL, c, FULL.heap[R0]).None?;
    UnsafeReclaimBreaks(FULL, c, M3, 100, [M1, M2], e.probe, 0);
    ReclaimUnfold(FULL, c, M3, 100, [M1, M2], e.probe, 0);
    UnindexedTakeOver(FULL, c, M3, 100, M1);
  }

  // ---- A declined DHCPv4 address can be assigned again ----

  function Ask(mac: Mac, host: string): Msg4 {
    Request(mac, Some(Addr(V4, 9)), Some(A1), None, host)
  }

  /** The first client has committed the first address under the name "a". */
  const COMMITTED: View := View(
    map[R0 := Lease(A1, 10, "a", M1, false)], 1, map[M1 := R0], {0}, map[A1 := R0], map["a" := R0])

  const BLOCKED_ONE: View := View(
    map[R0 := Lease(A1, 10, "", BLOCKED, false)], 1, map[], {}, map[A1 := R0], map["a" := R0])

  /** It has declined the address, and a second client got it offered. */
  const OFFERED: View := View(
    map[R0 := Lease(A1, 10, "", BLOCKED, false), R1 := Lease(A1, 10, "", M2, false)],
    2, map[M2 := R1], {0}, map[A1 := R0], map["a" := R0])

  /** The second client asked for it under the name "a", was refused, and released it. */
  const RELEASED: View := View(
    map[R0 := Lease(A1, 10, "", BLOCKED, false), R1 := Lease(A1, 10, "a", M2, false)],
    2, map[], {}, map[], map[])

  lemma {:induction false} LowerLiterals()
    ensures Lower("a") == "a" && Lower("b") == "b" && Lower("") == ""
  {
  }

  lemma {:induction false} ReachCommitted()
    ensures var c := SmallConf();
            var v := Handle4(START, c, Discover(M1), At(0, [])).v;
            Handle4(v, c, Ask(M1, "a"), At(0, [])) == Outcome4(COMMITTED, Ack(M1, A1, "a", 10))
  {
    Offsets();
    Searches({});
    DiscoverFresh(START, M1, A1, 0);
    assert Discovered(START, M1, A1, 0) == RESERVED;
    AskFirst();
  }

  const RESERVED: View := View(
    map[R0 := Lease(A1, 10, "", M1, false)], 1, map[M1 := R0], {0}, map[], map[])

  lemma {:induction false} AskFirst()
    ensures Handle4(RESERVED, SmallConf(), Ask(M1, "a"), At(0, [])) == Outcome4(COMMITTED, Ack(M1, A1, "a", 10))
  {
    LowerLiterals();
    var w := Put(RESERVED, R0, Lease(A1, 10, "a", M1, false));
    var u := IndexUpdate(w, SmallConf(), R0).value;
    assert u.heap == COMMITTED.heap && u.leases == COMMITTED.leases && u.bits == COMMITTED.bits;
    assert u.byAddr == COMMITTED.byAddr && u.byName == COMMITTED.byName;
  }

  lemma {:induction false} ReachOffered()
    ensures var c := SmallConf();
            var v := Handle4(COMMITTED, c, Decline(M1, Some(A1)), At(0, [])).v;
            Handle4(v, c, Discover(M2), At(0, [])).v == OFFERED
  {
    Offsets();
    Searches({});
    DeclineFirst();
    DiscoverFresh(BLOCKED_ONE, M2, A1, 0);
    assert Discovered(BLOCKED_ONE, M2, A1, 0) == OFFERED;
  }

  lemma {:induction false} DeclineFirst()
    ensures Handle4(COMMITTED, SmallConf(), Decline(M1, Some(A1)), At(0, [])).v == BLOCKED_ONE
  {
    InPool();
    BlockFirst();
  }

  lemma {:induction false} BlockFirst()
    ensures BlockLease(COMMITTED, SmallConf(), R0, 0) == Some(BLOCKED_ONE)
  {
    Offsets();
    BlockShape(COMMITTED, SmallConf(), R0, 0);
    var b := BlockLease(COMMITTED, SmallConf(), R0, 0).value;
    assert b.heap == BLOCKED_ONE.heap && b.leases == map[] && b.bits == {};
  }

  lemma {:induction false} InPool()
    ensures PrefixContains(SmallConf().subnet, A1)
  {
    Divides(Pow2(32), 1);
  }

  lemma {:induction false} Divides(n: nat, k: nat)
    requires n > k
    ensures k / n == 0 && 0 / n == 0
  {
  }

  lemma {:induction false} ReachReleased()
    ensures var c := SmallConf();
            var o := Handle4(OFFERED, c, Ask(M2, "a"), At(0, []));
            && o.reply == Nak(M2)
            && Handle4(o.v, c, Release(M2, Some(A1)), At(0, [])).v == RELEASED
  {
    RefuseSecond();
    ReleaseSecond();
  }

  /** The refused request has named the second client's lease all the same. */
  const REFUSED: View := View(
    map[R0 := Lease(A1, 10, "", BLOCKED, false), R1 := Lease(A1, 10, "a", M2, false)],
    2, map[M2 := R1], {0}, map[A1 := R0], map["a" := R0])

  lemma {:induction false} RefuseSecond()
    ensures Handle4(OFFERED, SmallConf(), Ask(M2, "a"), At(0, [])) == Outcome4(REFUSED, Nak(M2))
  {
    LowerLiterals();
    var w := Put(OFFERED, R1, Lease(A1, 10, "a", M2, false));
    assert w.heap == REFUSED.heap;
    assert IndexUpdate(w, SmallConf(), R1).None?;
  }

  lemma {:induction false} ReleaseSecond()
    ensures Handle4(REFUSED, SmallConf(), Release(M2, Some(A1)), At(0, [])).v == RELEASED
  {
    InPool();
    RemoveSecond();
  }

  lemma {:induction false} RemoveSecond()
    ensures IndexRemove(REFUSED, SmallConf(), REFUSED.heap[R1]) == Some(RELEASED)
  {
    Offsets();
    LowerLiterals();
    var b := IndexRemove(REFUSED, SmallConf(), REFUSED.heap[R1]).value;
    assert b.leases == map[] && b.bits == {} && b.byAddr == map[] && b.byName == map[];
  }

  /** A third client is then acknowledged for the address that was declined, although the
      leases have not been reset. */
  lemma {:induction false} DeclinedAddressAcknowledged()
    ensures var c := SmallConf();
            var v := Handle4(RELEASED, c, Discover(M3), At(0, [])).v;
            Handle4(v, c, Ask(M3, "b"), At(0, [])).reply == Ack(M3, A1, "b", 10)
  {
    Offsets();
    Searches({});
    LowerLiterals();
    DiscoverFresh(RELEASED, M3, A1, 0);
    var v := Discovered(RELEASED, M3, A1, 0);
    var w := Put(v, R2, Lease(A1, 10, "b", M3, false));
    assert v.leases[M3] == R2 && IpOf(v, M3) == A1;
    assert IndexUpdate(w, SmallConf(), R2).Some?;
  }

  // ---- Lease calls that break an interface ----

  lemma {:induction false} ReservedSound()
    ensures Sound(RESERVED, SmallConf())
  {
    Offsets();
  }

  lemma {:induction false} CommittedSound()
    ensures Sound(COMMITTED, SmallConf())
  {
    Offsets();
  }

  /** Two committed leases. */
  const TWO: View := View(
    map[R0 := Lease(A1, 10, "a", M1, false), R1 := Lease(A2, 10, "b", M2, false)],
    2, map[M1 := R0, M2 := R1], {0, 1}, map[A1 := R0, A2 := R1], map["a" := R0, "b" := R1])

  lemma {:induction false} TwoSound()
    ensures Sound(TWO, SmallConf())
  {
    assert Keyed(TWO, SmallConf()) && Exclusive(TWO);
    assert Marked(TWO, SmallConf()) by { Offsets(); }
  }

  /** AddLease of an address that is reserved but not committed is accepted. */
  lemma {:induction false} AddBreaks()
    ensures var c, l := SmallConf(), Lease(A1, 0, "b", M2, true);
            && Sound(RESERVED, c) && Contains(c.range, l.ip) && AdminView(RESERVED, c, Add, l).Some?
            && !Sound(AdminView(RESERVED, c, Add, l).value, c)
  {
    var c, l := SmallConf(), Lease(A1, 0, "b", M2, true);
    ReservedSound();
    RejectedIff(RESERVED, c, Add, l);
    AddSoundIff(RESERVED, c, l);
    assert IpOf(RESERVED, M1) == A1 && M1 != M2;
  }

  /** UpdateStaticLease to a free address does not mark its offset. */
  lemma {:induction false} UpdateBreaks()
    ensures var c, l := SmallConf(), Lease(A2, 0, "a", M1, true);
            && Sound(COMMITTED, c) && Contains(c.range, l.ip) && AdminView(COMMITTED, c, Update, l).Some?
            && !Sound(AdminView(COMMITTED, c, Update, l).value, c)
  {
    var c, l := SmallConf(), Lease(A2, 0, "a", M1, true);
    Offsets();
    LowerLiterals();
    CommittedSound();
    RejectedIff(COMMITTED, c, Update, l);
    UpdateSoundIff(COMMITTED, c, l);
  }

  lemma {:induction false} RemoveAccepted()
    ensures AdminView(TWO, SmallConf(), Remove, Lease(A1, 10, "a", M2, false)).Some?
  {
    LowerLiterals();
  }

  /** RemoveLease of one client's address and name and another one's hardware address frees
      the address that the first one still holds. */
  lemma {:induction false} RemoveBreaks()
    ensures var c, l := SmallConf(), Lease(A1, 10, "a", M2, false);
            && Sound(TWO, c) && Contains(c.range, l.ip) && AdminView(TWO, c, Remove, l).Some?
            && !Sound(AdminView(TWO, c, Remove, l).value, c)
  {
    var c, l := SmallConf(), Lease(A1, 10, "a", M2, false);
    TwoSound();
    RemoveAccepted();
    RejectedIff(TWO, c, Remove, l);
    RemoveSoundIff(TWO, c, l);
    assert IpOf(TWO, M1) == A1 && M1 != M2;
  }

  lemma {:induction false} TwoAgrees()
    ensures Agree(TWO)
  {
    LowerLiterals();
    ValuesOfTwo(M1, M2, R0, R1);
    ValuesOfTwo(A1, A2, R0, R1);
    ValuesOfTwo("a", "b", R0, R1);
  }

  lemma {:induction false} ValuesOfTwo<K, V>(k: K, l: K, x: V, y: V)
    requires k != l
    ensures map[k := x, l := y].Values == {x, y}
  {
    var m := map[k := x, l := y];
    assert m[k] == x && m[l] == y;
  }

  /** The same call leaves the three views of the index in disagreement. */
  lemma {:induction false} RemoveDisagrees()
    ensures var c, l := SmallConf(), Lease(A1, 10, "a", M2, false);
            Agree(TWO) && IndexRemove(TWO, c, l).Some? && !Agree(IndexRemove(TWO, c, l).value)
  {
    TwoAgrees();
    RemoveAccepted();
    RemoveAgreesIff(TWO, SmallConf(), Lease(A1, 10, "a", M2, false));
  }

  /** A full range that ends at the last address of its family. */
  lemma {:induction false} SearchPanics()
    ensures NextIP(Range(Addr(V4, TWO_32 - 2), Addr(V4, TWO_32 - 1)), {0, 1}) == Panicked
  {
    var r := Range(Addr(V4, TWO_32 - 2), Addr(V4, TWO_32 - 1));
    LowestFreeUnique(r, {0, 1}, NextIP(r, {0, 1}), Panicked);
  }

  // ---- Names that stay behind ----

  /** A request acknowledged under a new name leaves the old one in the index. */
  lemma {:induction false} AcknowledgedRename()
    ensures var c, o := SmallConf(), Handle4(COMMITTED, SmallConf(), Ask(M1, "b"), At(0, []));
            NamesFiled(COMMITTED) && o.reply.Ack? && !NamesFiled(o.v)
  {
    var c, msg := SmallConf(), Ask(M1, "b");
    LowerLiterals();
    CommittedSound();
    assert Served(COMMITTED, c, msg) && NamedAt(COMMITTED, M1);
    AckIff(COMMITTED, c, msg, At(0, []));
    NamesFiledIff(COMMITTED, c, msg, At(0, []));
  }

  /** So does one that is refused because the new name is another client's. */
  lemma {:induction false} RefusedRename()
    ensures var o := Handle4(TWO, SmallConf(), Ask(M1, "b"), At(0, []));
            NamesFiled(TWO) && o.reply == Nak(M1) && !NamesFiled(o.v)
  {
    var c, msg := SmallConf(), Ask(M1, "b");
    TwoSound();
    ServedInTwo();
    AckIff(TWO, c, msg, At(0, []));
    RequestRoutes(TWO, c, msg, At(0, []));
    NamesFiledIff(TWO, c, msg, At(0, []));
  }

  lemma {:induction false} ServedInTwo()
    ensures NamesFiled(TWO) && Served(TWO, SmallConf(), Ask(M1, "b")) && Misnames(TWO, SmallConf(), Ask(M1, "b"))
    ensures !NobodyElse(TWO, M1, A1, Lower("b"))
  {
    LowerLiterals();
  }
}
