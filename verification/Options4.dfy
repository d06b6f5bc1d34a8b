/** internal/dhcpsvc/options4.go: merging the default and the configured DHCPv4 options, and
    choosing the ones that go into a response. */
module Options4 {
  import opened Net
  import opened SortedMaps

  datatype Opt = Opt(code: byte, data: seq<byte>)

  /** Sorted by code, each code once. */
  ghost predicate ByCode(os: seq<Opt>) {
    forall i, j :: 0 <= i < j < |os| ==> os[i].code < os[j].code
  }

  predicate HasCode(os: seq<Opt>, code: int) {
    exists i :: 0 <= i < |os| && os[i].code == code
  }

  /** The data of the last option with the code. */
  function LastData(os: seq<Opt>, code: int): (d: Option<seq<byte>>)
    ensures d.Some? <==> HasCode(os, code)
  {
    if os == [] then None
    else if os[|os| - 1].code == code then Some(os[|os| - 1].data)
    else
      assert HasCode(os, code) <==> HasCode(os[..|os| - 1], code) by {
        if HasCode(os, code) {
          var i :| 0 <= i < |os| && os[i].code == code;
          assert os[..|os| - 1][i].code == code;
        }
      }
      LastData(os[..|os| - 1], code)
  }

  function Without(os: seq<Opt>, drop: int -> bool): seq<Opt> {
    if os == [] then []
    else Without(os[..|os| - 1], drop) + (if drop(os[|os| - 1].code) then [] else [os[|os| - 1]])
  }

  lemma {:induction false} WithoutMembers(os: seq<Opt>, drop: int -> bool)
    ensures forall o :: o in Without(os, drop) <==> o in os && !drop(o.code)
  {
    if os != [] {
      WithoutMembers(os[..|os| - 1], drop);
      assert os == os[..|os| - 1] + [os[|os| - 1]];
    }
  }

  /** slices.BinarySearchFunc with compareV4OptionCodes: the first position whose code is not
      below the given one. */
  method Search(os: seq<Opt>, code: byte) returns (i: nat, found: bool)
    requires ByCode(os)
    ensures i <= |os| && (found <==> HasCode(os, code))
    ensures forall j :: 0 <= j < i ==> os[j].code < code
    ensures forall j :: i <= j < |os| ==> os[j].code >= code
    ensures found ==> i < |os| && os[i].code == code
  {
    i := FirstNotBelow(os, (o: Opt) => o.code < code);
    found := i < |os| && os[i].code == code;
    assert forall j :: i < j < |os| ==> os[i].code < os[j].code;
  }

  /** One configured option: the explicit list after it was merged. */
  ghost predicate Merged(exp: seq<Opt>, configured: seq<Opt>) {
    && ByCode(exp)
    && (forall i :: 0 <= i < |exp| ==> LastData(configured, exp[i].code) == Some(exp[i].data))
    && (forall i :: 0 <= i < |configured| ==> HasCode(exp, configured[i].code))
  }

  lemma {:induction false} MergeReplaced(exp: seq<Opt>, before: seq<Opt>, o: Opt, i: nat)
    requires Merged(exp, before) && i < |exp| && exp[i].code == o.code
    ensures Merged(exp[i := o], before + [o])
  {
    LastOfMore(before, o);
    var after := exp[i := o];
    CodesKept(exp, before, o, i, true, after);
    forall j | 0 <= j < |after| ensures LastData(before + [o], after[j].code) == Some(after[j].data) {
      if j != i {
        assert after[j] == exp[j] && exp[j].code != exp[i].code;
      }
    }
  }

  lemma {:induction false} MergeInserted(exp: seq<Opt>, before: seq<Opt>, o: Opt, i: nat)
    requires Merged(exp, before) && i <= |exp| && !HasCode(exp, o.code)
    requires forall j :: 0 <= j < i ==> exp[j].code < o.code
    requires forall j :: i <= j < |exp| ==> exp[j].code >= o.code
    ensures Merged(exp[..i] + [o] + exp[i..], before + [o])
  {
    LastOfMore(before, o);
    var after := exp[..i] + [o] + exp[i..];
    CodesKept(exp, before, o, i, false, after);
    InsertedByCode(exp, o, i);
    forall j | 0 <= j < |after| ensures LastData(before + [o], after[j].code) == Some(after[j].data) {
      if j != i {
        var old' := if j < i then j else j - 1;
        assert after[j] == exp[old'];
      }
    }
  }

  lemma {:induction false} InsertedByCode(exp: seq<Opt>, o: Opt, i: nat)
    requires ByCode(exp) && i <= |exp| && !HasCode(exp, o.code)
    requires forall j :: 0 <= j < i ==> exp[j].code < o.code
    requires forall j :: i <= j < |exp| ==> exp[j].code >= o.code
    ensures ByCode(exp[..i] + [o] + exp[i..])
    ensures forall j :: 0 <= j < |exp| ==> exp[j].code != o.code
  {
    assert forall j :: 0 <= j < |exp| ==> exp[j].code != o.code;
  }

  lemma {:induction false} LastOfMore(before: seq<Opt>, o: Opt)
    ensures forall c :: LastData(before + [o], c) == if c == o.code then Some(o.data) else LastData(before, c)
  {
    assert (before + [o])[..|before|] == before;
  }

  lemma {:induction false} CodesKept(exp: seq<Opt>, before: seq<Opt>, o: Opt, i: nat, found: bool, after: seq<Opt>)
    requires forall k :: 0 <= k < |before| ==> HasCode(exp, before[k].code)
    requires i <= |exp| && (found ==> i < |exp| && exp[i].code == o.code && after == exp[i := o])
    requires !found ==> after == exp[..i] + [o] + exp[i..]
    ensures forall k :: 0 <= k < |before + [o]| ==> HasCode(after, (before + [o])[k].code)
  {
    forall k | 0 <= k < |before + [o]| ensures HasCode(after, (before + [o])[k].code) {
      if k < |before| {
        var j :| 0 <= j < |exp| && exp[j].code == before[k].code;
        assert after[if found || j < i then j else j + 1].code == before[k].code;
      } else {
        assert after[i] == o;
      }
    }
  }

  /** Deleting the one option with a code, where there is one. */
  lemma {:induction false} WithoutOne(os: seq<Opt>, drop: int -> bool, code: int, i: nat)
    requires ByCode(os) && i < |os| && os[i].code == code
    requires forall c: int :: drop(c) <==> c == code
    ensures Without(os, drop) == os[..i] + os[i + 1..]
  {
    var init := os[..|os| - 1];
    if i == |os| - 1 {
      WithoutNone(init, drop);
      assert os[..i] + os[i + 1..] == init;
    } else {
      WithoutOne(init, drop, code, i);
      assert os[i].code < os[|os| - 1].code;
      assert os[..i] + os[i + 1..] == (init[..i] + init[i + 1..]) + [os[|os| - 1]];
    }
  }

  lemma {:induction false} WithoutNone(os: seq<Opt>, drop: int -> bool)
    requires forall i :: 0 <= i < |os| ==> !drop(os[i].code)
    ensures Without(os, drop) == os
  {
    if os != [] {
      WithoutNone(os[..|os| - 1], drop);
      assert os == os[..|os| - 1] + [os[|os| - 1]];
    }
  }

  lemma {:induction false} WithoutTwice(os: seq<Opt>, a: int -> bool, b: int -> bool, both: int -> bool)
    requires forall c: int :: both(c) <==> a(c) || b(c)
    ensures Without(Without(os, a), b) == Without(os, both)
  {
    if os != [] {
      WithoutTwice(os[..|os| - 1], a, b, both);
      var last := os[|os| - 1];
      var kept := Without(os[..|os| - 1], a);
      if a(last.code) {
        assert Without(os, a) == kept;
        assert Without(os, both) == Without(os[..|os| - 1], both);
      } else {
        assert (kept + [last])[..|kept + [last]| - 1] == kept;
      }
    }
  }

  lemma {:induction false} WithoutByCode(os: seq<Opt>, drop: int -> bool)
    requires ByCode(os)
    ensures ByCode(Without(os, drop))
  {
    if os != [] {
      WithoutByCode(os[..|os| - 1], drop);
      WithoutMembers(os[..|os| - 1], drop);
      var r := Without(os[..|os| - 1], drop);
      forall i | 0 <= i < |r| ensures r[i].code < os[|os| - 1].code {
        assert r[i] in r;
        var j :| 0 <= j < |os| - 1 && os[j] == r[i];
      }
    }
  }

  function CodeIn(os: seq<Opt>): int -> bool {
    (c: int) => HasCode(os, c)
  }

  /** IPv4Config.options: `exp` has every configured code once, sorted, with the last data
      given for it; `imp` are the sorted defaults without the configured codes. */
  method Options(defaults: seq<Opt>, configured: seq<Opt>) returns (imp: seq<Opt>, exp: seq<Opt>)
    requires ByCode(defaults)
    ensures Merged(exp, configured)
    ensures ByCode(imp) && imp == Without(defaults, CodeIn(configured))
  {
    imp, exp := defaults, [];
    assert configured[..0] == [];
    WithoutNone(defaults, CodeIn(configured[..0]));
    for k := 0 to |configured|
      invariant Merged(exp, configured[..k])
      invariant ByCode(imp) && imp == Without(defaults, CodeIn(configured[..k]))
    {
      ghost var before := configured[..k];
      imp := DropImplicit(defaults, before, imp, configured[k]);
      exp := MergeExplicit(exp, before, configured[k]);
      OneMore(configured, k);
    }
    assert configured[..|configured|] == configured;
  }

  lemma {:induction false} OneMore(os: seq<Opt>, k: nat)
    requires k < |os|
    ensures os[..k + 1] == os[..k] + [os[k]]
  {
  }

  /** The implicit half of one round. */
  method DropImplicit(ghost defaults: seq<Opt>, ghost before: seq<Opt>, imp: seq<Opt>, o: Opt) returns (after: seq<Opt>)
    requires ByCode(defaults) && ByCode(imp) && imp == Without(defaults, CodeIn(before))
    ensures ByCode(after) && after == Without(defaults, CodeIn(before + [o]))
  {
    var i, found := Search(imp, o.code);
    ImplicitStep(defaults, before, o, imp, i, found);
    after := if found then imp[..i] + imp[i + 1..] else imp;
  }

  /** The explicit half of one round. */
  method MergeExplicit(exp: seq<Opt>, ghost before: seq<Opt>, o: Opt) returns (after: seq<Opt>)
    requires Merged(exp, before)
    ensures Merged(after, before + [o])
  {
    var i, found := Search(exp, o.code);
    if found {
      MergeReplaced(exp, before, o, i);
      after := exp[i := exp[i].(data := o.data)];
    } else {
      MergeInserted(exp, before, o, i);
      after := exp[..i] + [o] + exp[i..];
    }
  }

  lemma {:induction false} ImplicitStep(
      defaults: seq<Opt>, before: seq<Opt>, o: Opt, imp: seq<Opt>, i: nat, found: bool)
    requires ByCode(defaults) && ByCode(imp) && imp == Without(defaults, CodeIn(before))
    requires found <==> HasCode(imp, o.code)
    requires found ==> i < |imp| && imp[i].code == o.code
    ensures var next := if found then imp[..i] + imp[i + 1..] else imp;
            ByCode(next) && next == Without(defaults, CodeIn(before + [o]))
  {
    var one := (c: int) => c == o.code;
    forall c: int ensures CodeIn(before + [o])(c) <==> CodeIn(before)(c) || one(c) {
      if CodeIn(before)(c) {
        var j :| 0 <= j < |before| && before[j].code == c;
        assert (before + [o])[j].code == c;
      }
      if one(c) { assert (before + [o])[|before|].code == c; }
    }
    WithoutTwice(defaults, CodeIn(before), one, CodeIn(before + [o]));
    if found {
      WithoutOne(imp, one, o.code, i);
    } else {
      WithoutNone(imp, one);
    }
    WithoutByCode(imp, one);
  }

  // ---- Responses ----

  /** The defaults that were asked for, in the order of the request. */
  function Picked(imp: seq<Opt>, requested: seq<byte>): seq<Opt> {
    if requested == [] then []
    else
      var code := requested[|requested| - 1];
      Picked(imp, requested[..|requested| - 1]) + (if HasCode(imp, code) then [ByItsCode(imp, code)] else [])
  }

  function ByItsCode(os: seq<Opt>, code: int): (o: Opt)
    requires HasCode(os, code)
    ensures o in os && o.code == code
  {
    if os[0].code == code then os[0] else
      assert HasCode(os[1..], code) by {
        var i :| 0 <= i < |os| && os[i].code == code;
        assert os[1..][i - 1].code == code;
      }
      ByItsCode(os[1..], code)
  }

  /** The codes configured without data. */
  function Emptied(exp: seq<Opt>): int -> bool {
    (c: int) => exists i :: 0 <= i < |exp| && exp[i].code == c && exp[i].data == []
  }

  function NonEmpty(exp: seq<Opt>): seq<Opt> {
    if exp == [] then []
    else NonEmpty(exp[..|exp| - 1]) + (if exp[|exp| - 1].data != [] then [exp[|exp| - 1]] else [])
  }

  lemma {:induction false} NonEmptyMembers(exp: seq<Opt>)
    ensures forall o :: o in NonEmpty(exp) <==> o in exp && o.data != []
  {
    if exp != [] {
      NonEmptyMembers(exp[..|exp| - 1]);
      assert exp == exp[..|exp| - 1] + [exp[|exp| - 1]];
    }
  }

  /** appendRequestedOptions: the given options and the requested defaults, without the codes
      configured empty, followed by the explicit options that have data. */
  method AppendRequested(opts: seq<Opt>, requested: seq<byte>, imp: seq<Opt>, exp: seq<Opt>) returns (res: seq<Opt>)
    requires ByCode(imp) && ByCode(exp)
    ensures res == Without(opts + Picked(imp, requested), Emptied(exp)) + NonEmpty(exp)
  {
    res := opts;
    for k := 0 to |requested|
      invariant res == opts + Picked(imp, requested[..k])
    {
      assert requested[..k + 1][..k] == requested[..k];
      var i, has := Search(imp, requested[k]);
      if has {
        OnlyOne(imp, i);
        res := res + [imp[i]];
      }
    }
    assert requested[..|requested|] == requested;
    ghost var base := res;
    WithoutNone(base, Emptied([]));
    for k := 0 to |exp|
      invariant res == Without(base, Emptied(exp[..k])) + NonEmpty(exp[..k])
    {
      ExplicitStep(base, exp, k);
      var opt := exp[k];
      if |opt.data| > 0 {
        res := res + [opt];
      } else {
        res := Without(res, (c: int) => c == opt.code);
      }
    }
    assert exp[..|exp|] == exp;
  }

  lemma {:induction false} OnlyOne(os: seq<Opt>, i: nat)
    requires ByCode(os) && i < |os|
    ensures HasCode(os, os[i].code) && ByItsCode(os, os[i].code) == os[i]
  {
    if i > 0 {
      assert os[0].code < os[i].code;
      OnlyOne(os[1..], i - 1);
    }
  }

  lemma {:induction false} WithoutConcat(a: seq<Opt>, b: seq<Opt>, drop: int -> bool)
    ensures Without(a + b, drop) == Without(a, drop) + Without(b, drop)
  {
    if b == [] {
      assert a + b == a;
    } else {
      var init := b[..|b| - 1];
      assert (a + b)[..|a + b| - 1] == a + init;
      WithoutConcat(a, init, drop);
    }
  }

  lemma {:induction false} EmptiedStep(exp: seq<Opt>, k: nat, c: int)
    requires k < |exp|
    ensures Emptied(exp[..k + 1])(c) <==> Emptied(exp[..k])(c) || (exp[k].data == [] && c == exp[k].code)
  {
    var before, after := exp[..k], exp[..k + 1];
    if Emptied(before)(c) {
      var i :| 0 <= i < |before| && before[i].code == c && before[i].data == [];
      assert after[i] == before[i];
    }
    if exp[k].data == [] && c == exp[k].code { assert after[k] == exp[k]; }
    if Emptied(after)(c) {
      var i :| 0 <= i < |after| && after[i].code == c && after[i].data == [];
      if i < k { assert before[i] == after[i]; }
    }
  }

  /** No explicit option appended so far has the code of the next one. */
  lemma {:induction false} NotAppendedYet(exp: seq<Opt>, k: nat, drop: int -> bool)
    requires ByCode(exp) && k < |exp| && forall c: int :: drop(c) <==> c == exp[k].code
    ensures Without(NonEmpty(exp[..k]), drop) == NonEmpty(exp[..k])
  {
    var os := NonEmpty(exp[..k]);
    NonEmptyMembers(exp[..k]);
    forall i | 0 <= i < |os| ensures !drop(os[i].code) {
      assert os[i] in os;
      var j :| 0 <= j < k && exp[j] == os[i];
    }
    WithoutNone(os, drop);
  }

  lemma {:induction false} NonEmptyStep(exp: seq<Opt>, k: nat)
    requires k < |exp|
    ensures NonEmpty(exp[..k + 1]) == NonEmpty(exp[..k]) + (if exp[k].data != [] then [exp[k]] else [])
  {
    assert exp[..k + 1][..k] == exp[..k];
  }

  lemma {:induction false} ExplicitStep(base: seq<Opt>, exp: seq<Opt>, k: nat)
    requires ByCode(exp) && k < |exp|
    ensures var res := Without(base, Emptied(exp[..k])) + NonEmpty(exp[..k]);
            var next := if |exp[k].data| > 0 then res + [exp[k]] else Without(res, (c: int) => c == exp[k].code);
            next == Without(base, Emptied(exp[..k + 1])) + NonEmpty(exp[..k + 1])
  {
    NonEmptyStep(exp, k);
    if |exp[k].data| > 0 {
      KeptStep(base, exp, k);
    } else {
      DroppedStep(base, exp, k);
    }
  }

  lemma {:induction false} KeptStep(base: seq<Opt>, exp: seq<Opt>, k: nat)
    requires k < |exp| && exp[k].data != []
    ensures Without(base, Emptied(exp[..k + 1])) == Without(base, Emptied(exp[..k]))
  {
    var none := (c: int) => false;
    forall c: int ensures Emptied(exp[..k + 1])(c) <==> Emptied(exp[..k])(c) || none(c) {
      EmptiedStep(exp, k, c);
    }
    WithoutTwice(base, Emptied(exp[..k]), none, Emptied(exp[..k + 1]));
    WithoutNone(Without(base, Emptied(exp[..k])), none);
  }

  lemma {:induction false} DroppedStep(base: seq<Opt>, exp: seq<Opt>, k: nat)
    requires ByCode(exp) && k < |exp| && exp[k].data == []
    ensures var one := (c: int) => c == exp[k].code;
            Without(Without(base, Emptied(exp[..k])) + NonEmpty(exp[..k]), one) ==
            Without(base, Emptied(exp[..k + 1])) + NonEmpty(exp[..k])
  {
    var one := (c: int) => c == exp[k].code;
    forall c: int ensures Emptied(exp[..k + 1])(c) <==> Emptied(exp[..k])(c) || one(c) {
      EmptiedStep(exp, k, c);
    }
    WithoutTwice(base, Emptied(exp[..k]), one, Emptied(exp[..k + 1]));
    WithoutConcat(Without(base, Emptied(exp[..k])), NonEmpty(exp[..k]), one);
    NotAppendedYet(exp, k, one);
  }

  /** What a response contains: every requested default that is left, every explicit option
      with data, and no option whose code was configured empty. */
  lemma {:induction false} ResponseContents(
      defaults: seq<Opt>, configured: seq<Opt>, opts: seq<Opt>, requested: seq<byte>, imp: seq<Opt>, exp: seq<Opt>)
    requires ByCode(defaults) && Merged(exp, configured) && imp == Without(defaults, CodeIn(configured)) && ByCode(imp)
    ensures var res := Without(opts + Picked(imp, requested), Emptied(exp)) + NonEmpty(exp);
            && (forall o :: o in imp && o.code in requested ==> o in res)
            && (forall o :: o in exp && o.data != [] ==> o in res)
            && (forall c :: HasCode(exp, c) && LastData(configured, c) == Some([]) ==> !HasCode(res, c))
            && (forall o :: o in res ==> o in opts || (o in imp && o.code in requested) || (o in exp && o.data != []))
  {
    var res := Without(opts + Picked(imp, requested), Emptied(exp)) + NonEmpty(exp);
    PickedMembers(imp, requested);
    WithoutMembers(opts + Picked(imp, requested), Emptied(exp));
    WithoutMembers(defaults, CodeIn(configured));
    NonEmptyMembers(exp);
    assert forall i :: 0 <= i < |exp| ==> CodeIn(configured)(exp[i].code);
    assert forall o :: o in imp ==> !Emptied(exp)(o.code);
    forall c, j | HasCode(exp, c) && LastData(configured, c) == Some([]) && 0 <= j < |res| ensures res[j].code != c {
      NotInResponse(configured, opts + Picked(imp, requested), exp, c, res[j]);
      assert res[j] in res;
    }
  }

  lemma {:induction false} NotInResponse(configured: seq<Opt>, base: seq<Opt>, exp: seq<Opt>, c: int, o: Opt)
    requires Merged(exp, configured) && HasCode(exp, c) && LastData(configured, c) == Some([])
    ensures o in Without(base, Emptied(exp)) || o in NonEmpty(exp) ==> o.code != c
  {
    WithoutMembers(base, Emptied(exp));
    NonEmptyMembers(exp);
    var i :| 0 <= i < |exp| && exp[i].code == c;
    assert Emptied(exp)(c);
    assert forall n :: 0 <= n < |exp| ==> LastData(configured, exp[n].code) == Some(exp[n].data);
  }

  /** Defaults are picked in the order they are requested in, each as often as it is. */
  lemma {:induction false} PickedInOrder(imp: seq<Opt>, a: seq<byte>, b: seq<byte>)
    ensures Picked(imp, a + b) == Picked(imp, a) + Picked(imp, b)
  {
    if b == [] {
      assert a + b == a;
    } else {
      var init := b[..|b| - 1];
      assert (a + b)[..|a + b| - 1] == a + init;
      PickedInOrder(imp, a, init);
    }
  }

  lemma {:induction false} PickedOne(imp: seq<Opt>, code: byte)
    requires ByCode(imp)
    ensures var p := Picked(imp, [code]);
            if HasCode(imp, code) then |p| == 1 && p[0] in imp && p[0].code == code else p == []
  {
    assert [code][..0] == [];
    if HasCode(imp, code) {
      var i :| 0 <= i < |imp| && imp[i].code == code;
      OnlyOne(imp, i);
    }
  }

  lemma {:induction false} PickedMembers(imp: seq<Opt>, requested: seq<byte>)
    requires ByCode(imp)
    ensures forall o :: o in Picked(imp, requested) <==> o in imp && o.code in requested
  {
    if requested != [] {
      var init, code := requested[..|requested| - 1], requested[|requested| - 1];
      PickedMembers(imp, init);
      assert forall c :: c in requested <==> c in init || c == code;
      forall o | o in imp && o.code == code ensures o in Picked(imp, requested) {
        var i :| 0 <= i < |imp| && imp[i] == o;
        OnlyOne(imp, i);
      }
    }
  }
}
