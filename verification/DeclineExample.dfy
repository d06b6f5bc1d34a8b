/** A run that the theorems about declined addresses speak of. */
module DeclineExample {
  import opened Net
  import opened IpRange
  import opened LeaseModel
  import opened Dhcp6
  import opened DhcpServer
  import opened Blocks
  import opened Declines
  import opened Runs
  import opened Counterexamples

  const X6: Addr := Addr(V6, 1)

  function Conf6(): Conf {
    Conf(0, Range(X6, Addr(V6, 2)), 10, Prefix(Addr(V6, 0), 0), {}, [7], (s: string) => s != "", (a: Addr) => "host")
  }

  function DeclineX6(): Msg6 {
    var iana := Codec.Iana(1, 0, 0, [Codec.IaAddr(X6, 0, 0)]);
    Msg6(Decline, M1, true, Some([7]), "", false, [Codec.EncodeSpec(iana)], false)
  }

  const INFO: Msg6 := Msg6(InfoRequest, M2, true, None, "", false, [], false)

  function DeclineRun(): seq<Event> {
    [On6(0, DeclineX6(), At(0, [])), On6(0, INFO, At(0, []))]
  }

  const STORED: Lease := Lease(X6, 0, "a", M1, false)

  const LOADED: Server :=
    Server(map[R0 := STORED], 1, [Iface(map[M1 := R0], {0})], map[X6 := R0], map["a" := R0])

  lemma {:induction false} LoadStored()
    ensures Load(Empty(1), [Conf6()], [STORED]) == LOADED
  {
    assert IfaceFor([Conf6()], X6) == Some(0);
    AddStored();
    assert [STORED][1..] == [];
    assert Load(LOADED, [Conf6()], []) == LOADED;
  }

  lemma {:induction false} AddStored()
    ensures AdminView(ViewOf(Empty(1), 0), Conf6(), Add, STORED) ==
            Some(View(LOADED.heap, 1, map[M1 := R0], {0}, LOADED.byAddr, LOADED.byName))
  {
    LowerLiterals();
    OffsetIsDistance(Conf6().range, X6);
    var v := ViewOf(Empty(1), 0);
    RejectedIff(v, Conf6(), Add, STORED);
    CopyAdded(v, Conf6(), STORED);
    var w := AdminView(v, Conf6(), Add, STORED).value;
    assert w.byName == map["a" := R0] && w.bits == {0};
  }

  /** A loaded lease is declined and another client asks for information: all conditions of
      the four theorems are met. */
  lemma {:induction false} DeclineWitness()
    ensures var cs, evs := [Conf6()], DeclineRun();
            var s := Load(Empty(1), cs, [STORED]);
            && AllProperNames(cs) && OrderlyServer(s, cs) && IsFiled(cs)(s)
            && EveryStep(Stepper(cs), s, evs, IsSafe6(cs)) && EveryStep(Stepper(cs), s, evs, IsSafeReal(cs))
            && Declining(StateAt(Stepper(cs), s, evs, 0), cs, evs[0], X6)
            && Without(Stepper(cs), IsReset(), s, evs, 1, 1)
            && Without(Stepper(cs), IsUnblocking(cs, X6), s, evs, 1, 2)
  {
    LoadStored();
    StartOrderly([Conf6()], [STORED]);
    DeclinesX6();
    RunIsSafe();
    NothingUnblocked();
  }

  lemma {:induction false} NothingUnblocked()
    ensures Without(Stepper([Conf6()]), IsUnblocking([Conf6()], X6), LOADED, DeclineRun(), 1, 2)
    ensures Without(Stepper([Conf6()]), IsReset(), LOADED, DeclineRun(), 1, 1)
  {
    OneInterface(LOADED, 1);
    NotUnblocking(StateAt(Stepper([Conf6()]), LOADED, DeclineRun(), 1));
  }

  lemma {:induction false} RunIsSafe()
    ensures var cs := [Conf6()];
            && EveryStep(Stepper(cs), LOADED, DeclineRun(), IsSafe6(cs))
            && EveryStep(Stepper(cs), LOADED, DeclineRun(), IsSafeReal(cs))
  {
    var cs, evs := [Conf6()], DeclineRun();
    forall k | 0 <= k < |evs|
      ensures IsSafe6(cs)(StateAt(Stepper(cs), LOADED, evs, k), evs[k])
      ensures IsSafeReal(cs)(StateAt(Stepper(cs), LOADED, evs, k), evs[k])
    {
      OneInterface(LOADED, k);
      SafeEvent(StateAt(Stepper(cs), LOADED, evs, k), k);
    }
  }

  lemma {:induction false} OneInterface(s: Server, k: nat)
    requires |s.ifaces| == 1 && k <= 2
    ensures var t: Server := StateAt(Stepper([Conf6()]), s, DeclineRun(), k); |t.ifaces| == 1
  {
    if k > 0 { OneInterface(s, k - 1); }
  }

  lemma {:induction false} SafeEvent(t: Server, k: nat)
    requires |t.ifaces| == 1 && k < 2
    ensures IsSafe6([Conf6()])(t, DeclineRun()[k]) && IsSafeReal([Conf6()])(t, DeclineRun()[k])
  {
    var ev := DeclineRun()[k];
    assert StepSafe(t, [Conf6()], ev) by { assert !Allocates(ViewOf(t, 0), Conf6(), ev.msg6); }
    assert Only6(ev) && RealClient(ev) && Alone(t, [Conf6()], ev);
  }

  lemma {:induction false} NotUnblocking(t: Server)
    requires |t.ifaces| == 1
    ensures !IsUnblocking([Conf6()], X6)(t, DeclineRun()[1])
  {
    assert !Unblocks6(ViewOf(t, 0), Conf6(), INFO, At(0, []), X6);
  }

  lemma {:induction false} DeclinesX6()
    ensures Declining(LOADED, [Conf6()], DeclineRun()[0], X6)
  {
    Codec.RoundTrip(Codec.Iana(1, 0, 0, [Codec.IaAddr(X6, 0, 0)]));
  }
}
