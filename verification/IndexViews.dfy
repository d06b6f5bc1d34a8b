/** The three views of the leases of one interface: by hardware address in the interface,
    by address and by lower-case name in the index (leaseindex.go). */
module IndexViews {
  import opened Net
  import opened LeaseModel

  /** Each view files a lease under the lease's own field. */
  ghost predicate FiledByField(v: View) {
    && (forall m :: m in v.leases ==> v.heap[v.leases[m]].hw == m)
    && (forall a :: a in v.byAddr ==> v.heap[v.byAddr[a]].ip == a)
    && (forall n :: n in v.byName ==> Lower(v.heap[v.byName[n]].hostname) == n)
  }

  /** The three views describe the same set of leases, each under its own field. */
  ghost predicate Agree(v: View) {
    FiledByField(v) && v.leases.Values == v.byAddr.Values == v.byName.Values
  }

  /** The lease r is found in every view. */
  ghost predicate FiledEverywhere(v: View, r: Ref)
    requires r in v.heap
  {
    var l := v.heap[r];
    && l.hw in v.leases && v.leases[l.hw] == r
    && l.ip in v.byAddr && v.byAddr[l.ip] == r
    && Lower(l.hostname) in v.byName && v.byName[Lower(l.hostname)] == r
  }

  lemma {:induction false} AgreeMeansEverywhere(v: View)
    requires FiledByField(v)
    ensures Agree(v) <==>
            && (forall m :: m in v.leases ==> FiledEverywhere(v, v.leases[m]))
            && (forall a :: a in v.byAddr ==> FiledEverywhere(v, v.byAddr[a]))
            && (forall n :: n in v.byName ==> FiledEverywhere(v, v.byName[n]))
  {
    if Agree(v) {
      forall r | r in v.leases.Values ensures FiledEverywhere(v, r) {
        assert r in v.byAddr.Values && r in v.byName.Values;
      }
      assert forall m :: m in v.leases ==> v.leases[m] in v.leases.Values;
      assert forall a :: a in v.byAddr ==> v.byAddr[a] in v.byAddr.Values;
      assert forall n :: n in v.byName ==> v.byName[n] in v.byName.Values;
    }
    if && (forall m :: m in v.leases ==> FiledEverywhere(v, v.leases[m]))
       && (forall a :: a in v.byAddr ==> FiledEverywhere(v, v.byAddr[a]))
       && (forall n :: n in v.byName ==> FiledEverywhere(v, v.byName[n])) {
      assert forall m :: m in v.leases ==> v.leases[m] in v.byAddr.Values && v.leases[m] in v.byName.Values;
      assert forall a :: a in v.byAddr ==> v.byAddr[a] in v.leases.Values;
      assert forall n :: n in v.byName ==> v.byName[n] in v.leases.Values;
    }
  }

  /** Adding a new object keeps the views in agreement and adds just that object. */
  lemma {:induction false} AddAgrees(v: View, c: Conf, r: Ref)
    requires Agree(v) && r in v.heap && r !in v.leases.Values
    ensures var res := IndexAdd(v, c, r);
            && (res.Some? <==> && v.heap[r].hw !in v.leases && v.heap[r].ip !in v.byAddr
                               && Lower(v.heap[r].hostname) !in v.byName)
            && (res.Some? ==> Agree(res.value) && res.value.leases.Values == v.leases.Values + {r})
  {
    var res := IndexAdd(v, c, r);
    if res.Some? {
      ValuesOfNewKey(v.leases, v.heap[r].hw, r);
      ValuesOfNewKey(v.byAddr, v.heap[r].ip, r);
      ValuesOfNewKey(v.byName, Lower(v.heap[r].hostname), r);
    }
  }

  lemma {:induction false} ValuesOfNewKey<K, V>(m: map<K, V>, k: K, x: V)
    requires k !in m
    ensures m[k := x].Values == m.Values + {x}
  {
    var n := m[k := x];
    assert forall y :: y in m.Values ==> y in n.Values by {
      forall y | y in m.Values ensures y in n.Values { var j :| j in m && m[j] == y; assert n[j] == y; }
    }
    assert n[k] == x;
  }

  /** Dropping a key from an injective map drops its value. */
  lemma {:induction false} ValuesWithoutKey<K, V>(m: map<K, V>, k: K)
    requires k in m
    requires forall j :: j in m && m[j] == m[k] ==> j == k
    ensures (m - {k}).Values == m.Values - {m[k]}
  {
    var n := m - {k};
    forall y | y in m.Values - {m[k]} ensures y in n.Values {
      var j :| j in m && m[j] == y;
      assert n[j] == y;
    }
    forall y | y in n.Values ensures y in m.Values - {m[k]} {
      var j :| j in n && n[j] == y;
      assert m[j] == y;
    }
  }

  /** Removing keeps the views in agreement exactly when the address, the name and the
      hardware address given all belong to one stored lease. */
  lemma {:induction false} RemoveAgreesIff(v: View, c: Conf, l: Lease)
    requires Agree(v)
    ensures var res := IndexRemove(v, c, l);
            && (res.Some? <==> l.hw in v.leases && l.ip in v.byAddr && Lower(l.hostname) in v.byName)
            && (res.Some? ==>
                  (Agree(res.value) <==> v.leases[l.hw] == v.byAddr[l.ip] == v.byName[Lower(l.hostname)]))
            && (res.Some? && Agree(res.value) ==> res.value.leases.Values == v.leases.Values - {v.leases[l.hw]})
  {
    var res := IndexRemove(v, c, l);
    if res.Some? {
      AgreeMeansEverywhere(v);
      var name := Lower(l.hostname);
      assert v.leases[l.hw] in v.leases.Values && v.byAddr[l.ip] in v.byAddr.Values &&
          v.byName[name] in v.byName.Values;
      ValuesWithoutKey(v.leases, l.hw);
      ValuesWithoutKey(v.byAddr, l.ip);
      ValuesWithoutKey(v.byName, name);
      assert FiledByField(res.value);
    }
  }

  /** Updating with an object that is either stored already or new keeps the views in
      agreement and exchanges the previous lease of that hardware address for it. */
  lemma {:induction false} UpdateAgrees(v: View, c: Conf, r: Ref)
    requires Agree(v) && r in v.heap
    ensures var res := IndexUpdate(v, c, r);
            res.Some? ==>
              && Agree(res.value)
              && v.heap[r].hw in v.leases
              && res.value.leases.Values == v.leases.Values - {v.leases[v.heap[r].hw]} + {r}
  {
    var res := IndexUpdate(v, c, r);
    if res.Some? {
      AgreeMeansEverywhere(v);
      var l := v.heap[r];
      var p := v.leases[l.hw];
      var prev := v.heap[p];
      assert FiledEverywhere(v, p);
      var name, old' := Lower(l.hostname), Lower(prev.hostname);
      assert l.ip in v.byAddr ==> v.byAddr[l.ip] == p;
      assert name in v.byName ==> v.byName[name] == p;
      ValuesWithoutKey(v.leases, l.hw);
      ValuesWithoutKey(v.byAddr, prev.ip);
      ValuesWithoutKey(v.byName, old');
      ValuesOfNewKey(v.leases - {l.hw}, l.hw, r);
      ValuesOfNewKey(v.byAddr - {prev.ip}, l.ip, r);
      ValuesOfNewKey(v.byName - {old'}, name, r);
      assert (v.leases - {l.hw})[l.hw := r] == v.leases[l.hw := r];
    }
  }
}
