/** internal/aghalg/sortedmap.go: a map that can be walked in the order of a comparison
    function. */
module SortedMaps {
  import opened Net

  /** A strict total order whose zero is equality. */
  ghost predicate TotalOrder<K(!new)>(cmp: (K, K) -> int) {
    && (forall a, b :: cmp(a, b) == 0 <==> a == b)
    && (forall a, b :: cmp(a, b) < 0 <==> cmp(b, a) > 0)
    && (forall a, b, c :: Chained(cmp, a, b, c))
  }

  ghost predicate Chained<K>(cmp: (K, K) -> int, a: K, b: K, c: K) {
    cmp(a, b) < 0 && cmp(b, c) < 0 ==> cmp(a, c) < 0
  }

  ghost predicate Ascending<K>(cmp: (K, K) -> int, s: seq<K>) {
    forall i, j :: 0 <= i < j < |s| ==> cmp(s[i], s[j]) < 0
  }

  /** The loop of slices.BinarySearchFunc: the first position that is not below the target. */
  method FirstNotBelow<E>(s: seq<E>, below: E -> bool) returns (i: nat)
    requires forall a, b :: 0 <= a < b < |s| && below(s[b]) ==> below(s[a])
    ensures i <= |s|
    ensures forall j :: 0 <= j < i ==> below(s[j])
    ensures forall j :: i <= j < |s| ==> !below(s[j])
  {
    i := 0;
    var j := |s|;
    while i < j
      invariant 0 <= i <= j <= |s|
      invariant forall k :: 0 <= k < i ==> below(s[k])
      invariant forall k :: j <= k < |s| ==> !below(s[k])
    {
      var h := (i + j) / 2;
      if below(s[h]) {
        i := h + 1;
      } else {
        j := h;
      }
    }
  }

  /** slices.BinarySearchFunc: the first position not below the target, and whether the target
      is there. */
  method BinarySearch<K(!new)>(s: seq<K>, target: K, cmp: (K, K) -> int) returns (i: nat, found: bool)
    requires TotalOrder(cmp) && Ascending(cmp, s)
    ensures i <= |s|
    ensures forall j :: 0 <= j < i ==> cmp(s[j], target) < 0
    ensures forall j :: i <= j < |s| ==> cmp(s[j], target) >= 0
    ensures found <==> target in s
    ensures found ==> i < |s| && s[i] == target
  {
    forall a, b | 0 <= a < b < |s| && cmp(s[b], target) < 0 ensures cmp(s[a], target) < 0 {
      assert Chained(cmp, s[a], s[b], target);
    }
    i := FirstNotBelow(s, (k: K) => cmp(k, target) < 0);
    found := i < |s| && cmp(s[i], target) == 0;
    FoundIffMember(s, target, cmp, i);
  }

  lemma {:induction false} FoundIffMember<K(!new)>(s: seq<K>, target: K, cmp: (K, K) -> int, i: nat)
    requires TotalOrder(cmp) && Ascending(cmp, s) && i <= |s|
    requires forall j :: 0 <= j < i ==> cmp(s[j], target) < 0
    requires forall j :: i <= j < |s| ==> cmp(s[j], target) >= 0
    ensures target in s <==> i < |s| && cmp(s[i], target) == 0
  {
    if target in s {
      var k :| 0 <= k < |s| && s[k] == target;
      assert cmp(s[k], target) == 0;
      assert forall j :: i < j < |s| ==> cmp(s[i], s[j]) < 0;
    }
  }

  lemma {:induction false} FirstIsLeast<K(!new)>(cmp: (K, K) -> int, s: seq<K>)
    requires TotalOrder(cmp) && Ascending(cmp, s)
    ensures s != [] ==> s[0] in s
    ensures forall k :: k in s ==> cmp(s[0], k) <= 0
  {
    forall k | k in s ensures cmp(s[0], k) <= 0 {
      var i :| 0 <= i < |s| && s[i] == k;
      assert i > 0 ==> cmp(s[0], s[i]) < 0;
      assert i == 0 ==> cmp(s[0], s[i]) == 0;
    }
  }

  /** The keys of an ascending sequence determine it. */
  lemma {:induction false} AscendingUnique<K(!new)>(cmp: (K, K) -> int, s: seq<K>, t: seq<K>)
    requires TotalOrder(cmp) && Ascending(cmp, s) && Ascending(cmp, t)
    requires forall k :: k in s <==> k in t
    ensures s == t
    decreases |s|
  {
    FirstIsLeast(cmp, s);
    FirstIsLeast(cmp, t);
    if s != [] {
      assert cmp(s[0], t[0]) <= 0 && cmp(t[0], s[0]) <= 0;
      assert s[0] == t[0];
      forall k ensures k in s[1..] <==> k in t[1..] {
        TailMembers(cmp, s, k);
        TailMembers(cmp, t, k);
      }
      AscendingUnique(cmp, s[1..], t[1..]);
    }
  }

  lemma {:induction false} TailMembers<K(!new)>(cmp: (K, K) -> int, s: seq<K>, k: K)
    requires TotalOrder(cmp) && Ascending(cmp, s) && s != []
    ensures k in s[1..] <==> k in s && k != s[0]
  {
    if k in s[1..] {
      var i :| 0 <= i < |s[1..]| && s[1..][i] == k;
      assert cmp(s[0], s[i + 1]) < 0;
    }
  }

  /** Inserting at the position found keeps the order and adds just the new key. */
  lemma {:induction false} Inserted<K(!new)>(cmp: (K, K) -> int, s: seq<K>, i: nat, key: K)
    requires TotalOrder(cmp) && Ascending(cmp, s) && i <= |s| && key !in s
    requires forall j :: 0 <= j < i ==> cmp(s[j], key) < 0
    requires forall j :: i <= j < |s| ==> cmp(s[j], key) >= 0
    ensures var t := s[..i] + [key] + s[i..];
            Ascending(cmp, t) && forall k :: k in t <==> k in s || k == key
  {
    forall j | i <= j < |s| ensures cmp(key, s[j]) < 0 {
      assert s[j] in s;
      assert cmp(s[j], key) != 0;
    }
    InsertedAscending(cmp, s, i, key);
    InsertedMembers(s, i, key);
  }

  lemma {:induction false} InsertedAscending<K>(cmp: (K, K) -> int, s: seq<K>, i: nat, key: K)
    requires Ascending(cmp, s) && i <= |s|
    requires forall j :: 0 <= j < i ==> cmp(s[j], key) < 0
    requires forall j :: i <= j < |s| ==> cmp(key, s[j]) < 0
    ensures Ascending(cmp, s[..i] + [key] + s[i..])
  {
  }

  lemma {:induction false} InsertedMembers<K(!new)>(s: seq<K>, i: nat, key: K)
    requires i <= |s|
    ensures forall k :: k in s[..i] + [key] + s[i..] <==> k in s || k == key
  {
    assert s == s[..i] + s[i..];
  }

  /** Deleting a position keeps the order and drops just its key. */
  lemma {:induction false} Deleted<K(!new)>(cmp: (K, K) -> int, s: seq<K>, i: nat)
    requires TotalOrder(cmp) && Ascending(cmp, s) && i < |s|
    ensures var t := s[..i] + s[i + 1..];
            Ascending(cmp, t) && forall k :: k in t <==> k in s && k != s[i]
  {
    forall j | 0 <= j < |s| && j != i ensures s[j] != s[i] {
      assert if j < i then cmp(s[j], s[i]) < 0 else cmp(s[i], s[j]) < 0;
    }
    DeletedMembers(s, i);
  }

  lemma {:induction false} DeletedMembers<K(!new)>(s: seq<K>, i: nat)
    requires i < |s| && forall j :: 0 <= j < |s| && j != i ==> s[j] != s[i]
    ensures forall k :: k in s[..i] + s[i + 1..] <==> k in s && k != s[i]
  {
    var t := s[..i] + s[i + 1..];
    forall k ensures k in t <==> k in s && k != s[i] {
      if k in s && k != s[i] {
        var j :| 0 <= j < |s| && s[j] == k;
        assert t[if j < i then j else j - 1] == k;
      }
    }
  }

  class SortedMap<K(==, !new), V> {
    var vals: map<K, V>
    var keys: seq<K>
    const cmp: (K, K) -> int

    /** The keys are strictly sorted and are exactly those of the value map. */
    ghost predicate Valid()
      reads this
    {
      TotalOrder(cmp) && Ascending(cmp, keys) && forall k :: k in keys <==> k in vals
    }

    constructor (cmp: (K, K) -> int)
      requires TotalOrder(cmp)
      ensures Valid() && vals == map[] && this.cmp == cmp
    {
      this.cmp, vals, keys := cmp, map[], [];
    }

    method Set(key: K, val: V)
      requires Valid()
      modifies this
      ensures Valid() && vals == old(vals)[key := val]
    {
      vals := vals[key := val];
      var i, has := BinarySearch(keys, key, cmp);
      if has {
        assert keys[i := key] == keys;
        keys := keys[i := key];
      } else {
        Inserted(cmp, keys, i, key);
        keys := keys[..i] + [key] + keys[i..];
      }
    }

    method Get(key: K) returns (val: Option<V>)
      requires Valid()
      ensures val == if key in vals then Some(vals[key]) else None
    {
      val := if key in vals then Some(vals[key]) else None;
    }

    method Del(key: K)
      requires Valid()
      modifies this
      ensures Valid() && vals == old(vals) - {key}
    {
      if key !in vals {
        return;
      }
      vals := vals - {key};
      var i, has := BinarySearch(keys, key, cmp);
      Deleted(cmp, keys, i);
      keys := keys[..i] + keys[i + 1..];
    }

    method Clear()
      requires Valid()
      modifies this
      ensures Valid() && vals == map[]
    {
      keys := keys[..0];
      vals := map[];
    }

    /** Range: calls cb on the entries in order until it answers false; the result is the
        position at which it did. */
    method Range(cb: (K, V) -> bool) returns (stop: Option<nat>)
      requires Valid()
      ensures stop.Some? ==> stop.value < |keys| && !cb(keys[stop.value], vals[keys[stop.value]])
      ensures forall i :: 0 <= i < (if stop.Some? then stop.value else |keys|) ==> cb(keys[i], vals[keys[i]])
    {
      for i := 0 to |keys|
        invariant forall j :: 0 <= j < i ==> cb(keys[j], vals[keys[j]])
      {
        if !cb(keys[i], vals[keys[i]]) {
          return Some(i);
        }
      }
      stop := None;
    }
  }

  datatype Op<K, V> = SetOp(key: K, val: V) | DelOp(key: K) | ClearOp

  /** What a sequence of operations does to a mathematical map. */
  function Meaning<K, V>(ops: seq<Op<K, V>>): map<K, V> {
    if ops == [] then map[]
    else
      var m := Meaning(ops[..|ops| - 1]);
      match ops[|ops| - 1]
      case SetOp(k, v) => m[k := v]
      case DelOp(k) => m - {k}
      case ClearOp => map[]
  }

  /** After any sequence of operations the sorted map holds what a mathematical map would
      hold, and its keys are the sorted sequence of that map's domain, so the whole state
      depends only on the map and not on how it was reached. */
  method RunOps<K(==, !new), V>(cmp: (K, K) -> int, ops: seq<Op<K, V>>) returns (m: SortedMap<K, V>)
    requires TotalOrder(cmp)
    ensures fresh(m) && m.Valid() && m.cmp == cmp && m.vals == Meaning(ops)
    ensures forall s :: Ascending(cmp, s) && (forall k :: k in s <==> k in Meaning(ops)) ==> m.keys == s
  {
    m := new SortedMap(cmp);
    for i := 0 to |ops|
      invariant fresh(m) && m.Valid() && m.cmp == cmp && m.vals == Meaning(ops[..i])
    {
      assert ops[..i + 1][..i] == ops[..i];
      match ops[i]
      case SetOp(k, v) => m.Set(k, v);
      case DelOp(k) => m.Del(k);
      case ClearOp => m.Clear();
    }
    assert ops[..|ops|] == ops;
    forall s | Ascending(cmp, s) && (forall k :: k in s <==> k in Meaning(ops)) ensures m.keys == s {
      AscendingUnique(cmp, m.keys, s);
    }
  }
}
