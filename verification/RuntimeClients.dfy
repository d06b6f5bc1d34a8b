/** internal/client/runtimeindex.go and client.go: what is known about addresses from ARP,
    the hosts file, DHCP, reverse DNS and WHOIS, and how a source is refreshed. */
module RuntimeClients {
  import opened Net
  import opened ClientIndex
  import opened Runs

  datatype Source = Whois | Arp | Rdns | Dhcp | HostsFile

  datatype Data = Names(names: seq<string>) | WhoisInfo(info: nat)

  /** None is the nil of the source: no information from it. */
  datatype Runtime = Runtime(
      whois: Option<Data>, arp: Option<Data>, rdns: Option<Data>, dhcp: Option<Data>, hostsFile: Option<Data>)
  {
    function From(src: Source): Option<Data> {
      match src
      case Whois => whois
      case Arp => arp
      case Rdns => rdns
      case Dhcp => dhcp
      case HostsFile => hostsFile
    }

    function With(src: Source, d: Option<Data>): (r: Runtime)
      ensures forall s :: r.From(s) == if s == src then d else From(s)
    {
      match src
      case Whois => this.(whois := d)
      case Arp => this.(arp := d)
      case Rdns => this.(rdns := d)
      case Dhcp => this.(dhcp := d)
      case HostsFile => this.(hostsFile := d)
    }

    predicate IsEmpty() {
      whois.None? && arp.None? && rdns.None? && dhcp.None? && hostsFile.None?
    }

    /** Info: the source with the highest priority that has information. */
    function Info(): Option<Source> {
      if hostsFile.Some? then Some(HostsFile)
      else if dhcp.Some? then Some(Dhcp)
      else if rdns.Some? then Some(Rdns)
      else if arp.Some? then Some(Arp)
      else if whois.Some? then Some(Whois)
      else None
    }
  }

  const NOTHING: Runtime := Runtime(None, None, None, None, None)

  lemma {:induction false} EmptyIff(r: Runtime)
    ensures r.IsEmpty() <==> forall s :: r.From(s).None?
  {
    if forall s :: r.From(s).None? {
      assert r.From(Whois).None? && r.From(Arp).None? && r.From(Rdns).None? && r.From(Dhcp).None? &&
          r.From(HostsFile).None?;
    }
  }

  function Priority(s: Source): nat {
    match s case Whois => 1 case Arp => 2 case Rdns => 3 case Dhcp => 4 case HostsFile => 5
  }

  lemma {:induction false} InfoIsHighest(r: Runtime)
    ensures r.Info().None? <==> r.IsEmpty()
    ensures r.Info().Some? ==> r.From(r.Info().value).Some?
    ensures forall s :: r.From(s).Some? ==> r.Info().Some? && Priority(s) <= Priority(r.Info().value)
  {
    forall s | r.From(s).Some? ensures r.Info().Some? && Priority(s) <= Priority(r.Info().value) {
      match s case Whois => case Arp => case Rdns => case Dhcp => case HostsFile =>
    }
  }

  type Entries = map<Ip, Runtime>

  /** What is known about the address from the source. */
  function Known(m: Entries, ip: Ip, src: Source): Option<Data> {
    if ip in m then m[ip].From(src) else None
  }

  ghost predicate NoEmpty(m: Entries) {
    forall ip :: ip in m ==> !m[ip].IsEmpty()
  }

  /** Runtime.setInfo stores an empty list for an empty name. */
  function Normal(hosts: seq<string>): Data {
    Names(if hosts == [""] then [] else hosts)
  }

  /** The name of the last update for the address. */
  function LastName(ups: seq<(Ip, string)>, ip: Ip): Option<string> {
    if ups == [] then None
    else if ups[|ups| - 1].0 == ip then Some(ups[|ups| - 1].1)
    else LastName(ups[..|ups| - 1], ip)
  }

  /** What the update says about the address. */
  function Told(ups: seq<(Ip, string)>, ip: Ip): Option<Data> {
    var n := LastName(ups, ip);
    if n.Some? then Some(Normal([n.value])) else None
  }

  class RuntimeIndex {
    var index: Entries

    constructor ()
      ensures index == map[]
    {
      index := map[];
    }

    /** Stores information for an address, creating its entry if there is none. */
    method SetData(ip: Ip, src: Source, d: Data)
      modifies this
      ensures forall i, s :: Known(index, i, s) == if i == ip && s == src then Some(d) else old(Known(index, i, s))
      ensures old(NoEmpty(index)) ==> NoEmpty(index)
    {
      var rc := if ip in index then index[ip] else NOTHING;
      rc := rc.With(src, Some(d));
      assert rc.From(src).Some?;
      EmptyIff(rc);
      index := index[ip := rc];
      assert forall s :: NOTHING.From(s).None?;
    }

    /** setInfo; for the WHOIS source it only makes an entry, which is then empty. */
    method SetInfo(ip: Ip, src: Source, hosts: seq<string>)
      modifies this
      ensures forall i, s :: Known(index, i, s) ==
                if i == ip && s == src && src != Whois then Some(Normal(hosts)) else old(Known(index, i, s))
      ensures old(NoEmpty(index)) ==> (NoEmpty(index) <==> src != Whois || ip in old(index))
    {
      if src.Whois? {
        assert forall s :: NOTHING.From(s).None?;
        if ip !in index {
          index := index[ip := NOTHING];
          assert index[ip].IsEmpty();
        }
      } else {
        SetData(ip, src, Normal(hosts));
      }
    }

    /** clearSource */
    method ClearSource(src: Source)
      modifies this
      ensures forall i, s :: Known(index, i, s) == if s == src then None else old(Known(index, i, s))
    {
      var left := index.Keys;
      while left != {}
        invariant index.Keys == old(index).Keys && left <= index.Keys
        invariant forall i :: i in index ==>
                    index[i] == if i in left then old(index)[i] else old(index)[i].With(src, None)
        decreases left
      {
        var ip :| ip in left;
        left := left - {ip};
        index := index[ip := index[ip].With(src, None)];
      }
    }

    /** removeEmpty: deletes while walking, and changes nothing that is known. */
    method RemoveEmpty() returns (n: nat)
      modifies this
      ensures NoEmpty(index) && n == |old(index)| - |index|
      ensures forall i, s :: Known(index, i, s) == old(Known(index, i, s))
    {
      n := 0;
      var left := index.Keys;
      while left != {}
        invariant left <= old(index).Keys && n + |index.Keys| == |old(index).Keys|
        invariant forall i :: i in index <==> i in old(index) && (i in left || !old(index)[i].IsEmpty())
        invariant forall i :: i in index ==> index[i] == old(index)[i]
        decreases left
      {
        var ip :| ip in left;
        left := left - {ip};
        if index[ip].IsEmpty() {
          assert (index - {ip}).Keys == index.Keys - {ip};
          index := index - {ip};
          n := n + 1;
        }
      }
      forall i, s ensures Known(index, i, s) == old(Known(index, i, s)) {
        if i in old(index) && i !in index { EmptyIff(old(index)[i]); }
      }
    }

    /** The refresh of addFromSystemARP, addFromHostsFile and UpdateDHCP: afterwards the
        source is known for exactly the addresses of the update, with the last name given,
        every other source is as before, and no entry without information remains. */
    method Refresh(src: Source, ups: seq<(Ip, string)>)
      requires src.Arp? || src.HostsFile? || src.Dhcp?
      modifies this
      ensures NoEmpty(index)
      ensures forall i :: Known(index, i, src) == Told(ups, i)
      ensures forall i, s :: s != src ==> Known(index, i, s) == old(Known(index, i, s))
    {
      ClearSource(src);
      for k := 0 to |ups|
        invariant forall i :: Known(index, i, src) == Told(ups[..k], i)
        invariant forall i, s :: s != src ==> Known(index, i, s) == old(Known(index, i, s))
      {
        assert ups[..k + 1][..k] == ups[..k];
        SetInfo(ups[k].0, src, [ups[k].1]);
      }
      assert ups[..|ups|] == ups;
      var _ := RemoveEmpty();
    }

    /** addFromSystemARP ignores an empty update. */
    method RefreshArp(ups: seq<(Ip, string)>)
      requires NoEmpty(index)
      modifies this
      ensures NoEmpty(index)
      ensures ups == [] ==> index == old(index)
      ensures ups != [] ==> forall i :: Known(index, i, Arp) == Told(ups, i)
      ensures forall i, s :: s != Arp ==> Known(index, i, s) == old(Known(index, i, s))
    {
      if |ups| == 0 {
        return;
      }
      Refresh(Arp, ups);
    }

    /** UpdateAddress; WHOIS data is ignored for an address of a persistent client. */
    method UpdateAddress(ip: Ip, host: string, info: Option<nat>, persistent: bool)
      requires NoEmpty(index)
      modifies this
      ensures NoEmpty(index)
      ensures forall i, s :: Known(index, i, s) ==
                if i == ip && s == Rdns && host != "" then Some(Normal([host]))
                else if i == ip && s == Whois && info.Some? && !persistent then Some(WhoisInfo(info.value))
                else old(Known(index, i, s))
    {
      if host != "" {
        SetInfo(ip, Rdns, [host]);
      }
      if info.Some? && !persistent {
        SetData(ip, Whois, WhoisInfo(info.value));
      }
    }

    /** In every run of updates what is known is what a plain table would hold, and no entry
        without information remains. */
    method Run(ops: seq<Op>)
      requires NoEmpty(index)
      modifies this
      ensures NoEmpty(index)
      ensures forall i, s :: Known(index, i, s) == StateAt(Stepping(), TableOf(old(index)), ops, |ops|)(i, s)
    {
      ghost var start := TableOf(index);
      for k := 0 to |ops|
        invariant NoEmpty(index)
        invariant forall i, s :: Known(index, i, s) == StateAt(Stepping(), start, ops, k)(i, s)
      {
        ghost var before := StateAt(Stepping(), start, ops, k);
        match ops[k] {
          case ArpOp(ups) => RefreshArp(ups);
          case HostsOp(ups) => Refresh(HostsFile, ups);
          case DhcpOp(ups) => Refresh(Dhcp, ups);
          case AddressOp(ip, host, info, persistent) => UpdateAddress(ip, host, info, persistent);
        }
        assert StateAt(Stepping(), start, ops, k + 1) == Stepping()(before, ops[k]);
      }
    }
  }

  // ---- What is known, as a plain table ----

  type Table = (Ip, Source) -> Option<Data>

  datatype Op =
    | ArpOp(ups: seq<(Ip, string)>)
    | HostsOp(ups: seq<(Ip, string)>)
    | DhcpOp(ups: seq<(Ip, string)>)
    | AddressOp(ip: Ip, host: string, info: Option<nat>, persistent: bool)

  function TableOf(m: Entries): Table {
    (i: Ip, s: Source) => Known(m, i, s)
  }

  function Refreshed(t: Table, src: Source, ups: seq<(Ip, string)>): Table {
    (i: Ip, s: Source) => if s == src then Told(ups, i) else t(i, s)
  }

  function After(t: Table, op: Op): Table {
    match op
    case ArpOp(ups) => if ups == [] then t else Refreshed(t, Arp, ups)
    case HostsOp(ups) => Refreshed(t, HostsFile, ups)
    case DhcpOp(ups) => Refreshed(t, Dhcp, ups)
    case AddressOp(ip, host, info, persistent) =>
      (i: Ip, s: Source) =>
        if i == ip && s == Rdns && host != "" then Some(Normal([host]))
        else if i == ip && s == Whois && info.Some? && !persistent then Some(WhoisInfo(info.value))
        else t(i, s)
  }

  function Stepping(): (Table, Op) -> Table {
    (t: Table, op: Op) => After(t, op)
  }
}
