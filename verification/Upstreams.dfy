/** internal/client/upstreammanager.go: the lazily rebuilt upstream configurations of the
    clients, and the resources they hold. */
module Upstreams {
  import opened Net
  import opened ClientIndex

  /** The common settings, which every configuration is built with. */
  datatype Common = Common(bootstrap: nat, timeout: int, preferIPv6: bool, edns: bool, http3: bool)

  /** The content of a built configuration. */
  datatype Built = Built(upstreams: seq<string>, common: Common, cacheEnabled: bool, cacheSize: nat)

  /** A built configuration object; it must be closed once. */
  type Handle = nat

  datatype CustomConf = CustomConf(proxy: Option<Handle>, stamp: int, settings: Settings, isChanged: bool)

  predicate IsCommentOrEmpty(s: string) {
    s == "" || s[0] == '#'
  }

  function FilterOut(ss: seq<string>): (r: seq<string>)
    ensures forall s :: s in r <==> s in ss && !IsCommentOrEmpty(s)
  {
    if ss == [] then []
    else (if IsCommentOrEmpty(ss[0]) then [] else [ss[0]]) + FilterOut(ss[1..])
  }

  /** r is ss without the lines that are empty or comments, in the same order and with the same
      repetitions: `at` lists the positions that are left. */
  ghost predicate StrainedAt(ss: seq<string>, r: seq<string>, at: seq<nat>) {
    && |at| == |r|
    && (forall i, j :: 0 <= i < j < |at| ==> at[i] < at[j])
    && (forall i :: 0 <= i < |r| ==> at[i] < |ss| && r[i] == ss[at[i]])
    && (forall p: nat :: p in at <==> p < |ss| && !IsCommentOrEmpty(ss[p]))
  }

  ghost predicate Strained(ss: seq<string>, r: seq<string>) {
    exists at: seq<nat> :: StrainedAt(ss, r, at)
  }

  ghost function LeftAt(ss: seq<string>): seq<nat> {
    if ss == [] then []
    else LeftAt(ss[..|ss| - 1]) + (if IsCommentOrEmpty(ss[|ss| - 1]) then [] else [|ss| - 1])
  }

  lemma {:induction false} FilterOutAppend(ss: seq<string>, s: string)
    ensures FilterOut(ss + [s]) == FilterOut(ss) + (if IsCommentOrEmpty(s) then [] else [s])
  {
    if ss == [] {
      assert ss + [s] == [s] && [s][1..] == [];
    } else {
      assert (ss + [s])[1..] == ss[1..] + [s];
      FilterOutAppend(ss[1..], s);
    }
  }

  lemma {:induction false} FilterOutStrains(ss: seq<string>)
    ensures StrainedAt(ss, FilterOut(ss), LeftAt(ss))
  {
    if ss != [] {
      var init, last := ss[..|ss| - 1], ss[|ss| - 1];
      FilterOutStrains(init);
      assert ss == init + [last];
      FilterOutAppend(init, last);
      if IsCommentOrEmpty(last) {
        LineDropped(init, FilterOut(init), LeftAt(init), last);
      } else {
        LineKept(init, FilterOut(init), LeftAt(init), last);
      }
    }
  }

  lemma {:induction false} LineDropped(ss: seq<string>, r: seq<string>, at: seq<nat>, s: string)
    requires StrainedAt(ss, r, at) && IsCommentOrEmpty(s)
    ensures StrainedAt(ss + [s], r, at)
  {
  }

  lemma {:induction false} LineKept(ss: seq<string>, r: seq<string>, at: seq<nat>, s: string)
    requires StrainedAt(ss, r, at) && !IsCommentOrEmpty(s)
    ensures StrainedAt(ss + [s], r + [s], at + [|ss|])
  {
    var all, more := ss + [s], at + [|ss|];
    forall p: nat ensures p in more <==> p < |all| && !IsCommentOrEmpty(all[p]) {
      assert p in more <==> p in at || p == |ss|;
    }
    assert forall i :: 0 <= i < |at| ==> at[i] in at;
  }

  /** What a configuration for these settings must contain: nothing is built exactly if every
      upstream line is empty or a comment; otherwise the upstreams are the client's without
      those lines, the cache is as the client has it, and the rest is the common settings. */
  ghost predicate AsBuilt(st: Settings, common: Common, b: Option<Built>) {
    match b
    case None => forall s :: s in st.upstreams ==> IsCommentOrEmpty(s)
    case Some(x) =>
      && x.upstreams != [] && Strained(st.upstreams, x.upstreams)
      && x.cacheEnabled == st.cacheEnabled && x.cacheSize == st.cacheSize && x.common == common
  }

  /** newCustomUpstreamConfig: nothing is built for a client without upstreams. */
  function FreshBuild(st: Settings, common: Common): (b: Option<Built>)
    ensures AsBuilt(st, common, b)
  {
    FilterOutStrains(st.upstreams);
    var used := FilterOut(st.upstreams);
    if used == [] then None else Some(Built(used, common, st.cacheEnabled, st.cacheSize))
  }

  /** Every object ever built is either the live one of exactly one client or has been
      closed exactly once, and not both. */
  ghost predicate Balanced(confs: map<Uid, CustomConf>, objects: map<Handle, Built>, closed: seq<Handle>) {
    && NoRepeats(closed)
    && (forall h :: h in closed ==> h in objects)
    && (forall u :: u in confs && confs[u].proxy.Some? ==>
          confs[u].proxy.value in objects && confs[u].proxy.value !in closed)
    && (forall u, v :: u in confs && v in confs && confs[u].proxy.Some? && confs[u].proxy == confs[v].proxy ==> u == v)
    && (forall h :: h in objects && h !in closed ==> exists u :: u in confs && confs[u].proxy == Some(h))
  }

  /** No object is forgotten or changed, and no closing undone. */
  ghost predicate Continues(
      objects: map<Handle, Built>, closed: seq<Handle>, objects': map<Handle, Built>, closed': seq<Handle>) {
    (forall h :: h in objects ==> h in objects' && objects'[h] == objects[h]) && closed <= closed'
  }

  lemma {:induction false} Continued(o: map<Handle, Built>, c: seq<Handle>, o': map<Handle, Built>, c': seq<Handle>,
                                     o'': map<Handle, Built>, c'': seq<Handle>)
    requires Continues(o, c, o', c') && Continues(o', c', o'', c'')
    ensures Continues(o, c, o'', c'')
  {
  }

  /** An entry that is not marked changed has the object its settings ask for, built with
      whatever common settings. */
  ghost predicate Settled(c: CustomConf, objects: map<Handle, Built>) {
    !c.isChanged ==>
      if c.proxy.None? then FilterOut(c.settings.upstreams) == []
      else
        && c.proxy.value in objects
        && FreshBuild(c.settings, objects[c.proxy.value].common) == Some(objects[c.proxy.value])
  }

  ghost predicate AllSettled(confs: map<Uid, CustomConf>, objects: map<Handle, Built>) {
    forall u :: u in confs ==> Settled(confs[u], objects)
  }

  ghost predicate Below(objects: map<Handle, Built>, next: Handle) {
    forall h :: h in objects ==> h < next
  }

  class UpstreamManager {
    var uidToCustomConf: map<Uid, CustomConf>
    var commonConf: Option<Common>
    var confUpdate: int
    /** The configuration objects built so far, and the next one. */
    var objects: map<Handle, Built>
    var next: Handle
    /** The objects that were closed, in order. */
    ghost var closed: seq<Handle>

    ghost predicate Valid()
      reads this
    {
      Balanced(uidToCustomConf, objects, closed) && Below(objects, next) && AllSettled(uidToCustomConf, objects)
    }

    predicate Outdated(c: CustomConf)
      reads this
    {
      c.stamp != confUpdate || c.isChanged
    }

    /** The content of the entry's object, if it has one. */
    ghost function Content(u: Uid): Option<Built>
      requires Valid() && u in uidToCustomConf
      reads this
    {
      var p := uidToCustomConf[u].proxy;
      if p.Some? then Some(objects[p.value]) else None
    }

    /** The content that would be returned without a rebuild, if one would. */
    ghost function Ready(u: Uid): Option<Option<Built>>
      requires Valid()
      reads this
    {
      if u in uidToCustomConf && !Outdated(uidToCustomConf[u]) then Some(Content(u)) else None
    }

    ghost function Fresh(u: Uid): Option<Built>
      requires u in uidToCustomConf && commonConf.Some?
      reads this
    {
      FreshBuild(uidToCustomConf[u].settings, commonConf.value)
    }

    /** Every configuration that would be returned as it is equals a fresh build. */
    ghost predicate Coherent()
      requires Valid()
      reads this
    {
      forall u :: u in uidToCustomConf && !Outdated(uidToCustomConf[u]) ==> commonConf.Some? && Content(u) == Fresh(u)
    }

    constructor ()
      ensures Valid() && Coherent() && uidToCustomConf == map[] && confUpdate == 0 && objects == map[] && closed == []
      ensures commonConf == None
    {
      uidToCustomConf, commonConf, confUpdate, objects, next, closed := map[], None, 0, map[], 0, [];
    }

    /** An up-to-date entry with that time has an object built with other common settings. */
    ghost predicate Overtaken(conf: Common, now: int)
      requires Valid()
      reads this
    {
      exists u :: u in uidToCustomConf && OvertakenAt(uidToCustomConf[u], conf, now)
    }

    ghost predicate OvertakenAt(c: CustomConf, conf: Common, now: int)
      reads this
    {
      && c.stamp == now && !c.isChanged
      && c.proxy.Some? && c.proxy.value in objects && objects[c.proxy.value].common != conf
    }

    /** updateCommonUpstreamConfig: the cache is coherent afterwards exactly if no entry that
        already carries the new time was built with other common settings. */
    method UpdateCommon(conf: Common, now: int)
      requires Valid()
      modifies this
      ensures Valid() && commonConf == Some(conf) && confUpdate == now
      ensures uidToCustomConf == old(uidToCustomConf) && objects == old(objects) && closed == old(closed)
      ensures Coherent() <==> !old(Overtaken(conf, now))
      ensures now == old(confUpdate) ==> forall u :: Ready(u) == old(Ready(u))
    {
      ghost var stale := Overtaken(conf, now);
      commonConf := Some(conf);
      confUpdate := now;
      assert forall u :: u in uidToCustomConf && !Outdated(uidToCustomConf[u]) ==>
          (Content(u) == Fresh(u) <==> !OvertakenAt(uidToCustomConf[u], conf, now));
    }

    /** updateCustomUpstreamConfig: takes over the settings and marks them changed; a built
        object stays live until it is replaced. */
    method UpdateCustom(p: Persistent)
      requires Valid()
      modifies this
      ensures Valid() && (old(Coherent()) ==> Coherent())
      ensures uidToCustomConf.Keys == old(uidToCustomConf).Keys + {p.uid}
      ensures forall u :: u in old(uidToCustomConf) && u != p.uid ==> uidToCustomConf[u] == old(uidToCustomConf)[u]
      ensures uidToCustomConf[p.uid].settings == p.settings && uidToCustomConf[p.uid].isChanged
      ensures uidToCustomConf[p.uid].stamp ==
              if p.uid in old(uidToCustomConf) then old(uidToCustomConf)[p.uid].stamp else confUpdate
      ensures confUpdate == old(confUpdate) && commonConf == old(commonConf)
      ensures objects == old(objects) && closed == old(closed)
    {
      var c := if p.uid in uidToCustomConf then uidToCustomConf[p.uid]
               else CustomConf(None, confUpdate, Settings([], 0, false), false);
      ghost var before := uidToCustomConf;
      uidToCustomConf := uidToCustomConf[p.uid := c.(settings := p.settings, isChanged := true)];
      SameProxies(before, uidToCustomConf, objects, closed);
    }

    /** newCustomUpstreamConfig: a new object, unless there is nothing to build. */
    method Build(st: Settings) returns (proxy: Option<Handle>)
      requires commonConf.Some? && Below(objects, next)
      modifies this`objects, this`next
      ensures Below(objects, next)
      ensures proxy.None? ==> FilterOut(st.upstreams) == [] && objects == old(objects)
      ensures proxy.Some? ==>
                && proxy.value !in old(objects) && proxy.value in objects
                && objects == old(objects)[proxy.value := objects[proxy.value]]
                && FreshBuild(st, commonConf.value) == Some(objects[proxy.value])
                && AsBuilt(st, commonConf.value, Some(objects[proxy.value]))
    {
      var built := FreshBuild(st, commonConf.value);
      if built.None? {
        return None;
      }
      objects := objects[next := built.value];
      proxy := Some(next);
      next := next + 1;
    }

    /** The configuration of one client is replaced by a new build. */
    method Rebuild(uid: Uid)
      requires Valid() && commonConf.Some? && uid in uidToCustomConf
      modifies this
      ensures Valid() && confUpdate == old(confUpdate) && commonConf == old(commonConf)
      ensures uid in uidToCustomConf && uidToCustomConf == old(uidToCustomConf)[uid := uidToCustomConf[uid]]
      ensures uidToCustomConf[uid].settings == old(uidToCustomConf)[uid].settings
      ensures !Outdated(uidToCustomConf[uid]) && Content(uid) == Fresh(uid)
      ensures Continues(old(objects), old(closed), objects, closed)
    {
      var c := uidToCustomConf[uid];
      ghost var before, objectsBefore, closedBefore := uidToCustomConf, objects, closed;
      if c.proxy.Some? {
        closed := closed + [c.proxy.value];
      }
      var proxy := Build(c.settings);
      uidToCustomConf := uidToCustomConf[uid := c.(proxy := proxy, stamp := confUpdate, isChanged := false)];
      Replaced(before, objectsBefore, closedBefore, uidToCustomConf, objects, closed, uid);
      ReplacedSettled(before, objectsBefore, uidToCustomConf, objects, uid);
    }

    /** customUpstreamConfig: an outdated entry is rebuilt and its old object closed, an
        up-to-date one is returned as it is; in a coherent cache both are a fresh build. */
    method Custom(uid: Uid) returns (proxy: Option<Handle>)
      requires Valid() && commonConf.Some?
      modifies this
      ensures Valid() && confUpdate == old(confUpdate) && commonConf == old(commonConf)
      ensures old(Coherent()) ==> Coherent()
      ensures uidToCustomConf.Keys == old(uidToCustomConf).Keys
      ensures uid !in uidToCustomConf ==> proxy == None
      ensures uid in uidToCustomConf ==>
                && proxy == uidToCustomConf[uid].proxy && !Outdated(uidToCustomConf[uid])
                && Content(uid) == (if old(Outdated(uidToCustomConf[uid])) then Fresh(uid) else old(Content(uid)))
                && (old(Coherent()) ==> Content(uid) == Fresh(uid))
      ensures forall u :: u in uidToCustomConf ==> uidToCustomConf[u].settings == old(uidToCustomConf)[u].settings
      ensures forall u :: u in uidToCustomConf ==>
                uidToCustomConf[u].stamp == old(uidToCustomConf)[u].stamp || uidToCustomConf[u].stamp == confUpdate
      ensures Continues(old(objects), old(closed), objects, closed)
      ensures uid in old(uidToCustomConf) && !old(Outdated(uidToCustomConf[uid])) ==>
          closed == old(closed) && objects == old(objects)
    {
      if uid !in uidToCustomConf {
        return None;
      }
      if Outdated(uidToCustomConf[uid]) {
        Rebuild(uid);
      }
      proxy := uidToCustomConf[uid].proxy;
    }

    /** remove: forgets the client's configuration and closes its object. */
    method Remove(uid: Uid) returns (ok: bool)
      requires Valid()
      modifies this
      ensures Valid() && (old(Coherent()) ==> Coherent())
      ensures ok == (uid in old(uidToCustomConf)) && uidToCustomConf == old(uidToCustomConf) - {uid}
      ensures confUpdate == old(confUpdate) && commonConf == old(commonConf)
      ensures objects == old(objects) && old(closed) <= closed
    {
      if uid !in uidToCustomConf {
        return false;
      }
      var c := uidToCustomConf[uid];
      ghost var before, beforeClosed := uidToCustomConf, closed;
      uidToCustomConf := uidToCustomConf - {uid};
      if c.proxy.Some? {
        closed := closed + [c.proxy.value];
      }
      Dropped(before, objects, beforeClosed, uidToCustomConf, closed, uid);
      ok := true;
    }

    /** close: closes every live object; afterwards everything ever built has been closed
        exactly once. */
    method Close()
      requires Valid()
      modifies this`closed
      ensures NoRepeats(closed) && (forall h :: h in closed <==> h in objects) && old(closed) <= closed
    {
      var left := uidToCustomConf;
      while left != map[]
        invariant Balanced(left, objects, closed) && old(closed) <= closed
        decreases |left|
      {
        var u :| u in left;
        ghost var before := closed;
        if left[u].proxy.Some? {
          closed := closed + [left[u].proxy.value];
        }
        Dropped(left, objects, before, left - {u}, closed, u);
        left := left - {u};
      }
    }
  }

  lemma {:induction false} SameProxies(
      confs: map<Uid, CustomConf>, after: map<Uid, CustomConf>, objects: map<Handle, Built>, closed: seq<Handle>)
    requires Balanced(confs, objects, closed)
    requires forall u :: u in confs ==> u in after && after[u].proxy == confs[u].proxy
    requires forall u :: u in after && u !in confs ==> after[u].proxy == None
    ensures Balanced(after, objects, closed)
  {
    forall h | h in objects && h !in closed ensures exists u :: u in after && after[u].proxy == Some(h) {
      var u :| u in confs && confs[u].proxy == Some(h);
      assert u in after && after[u].proxy == Some(h);
    }
  }

  lemma {:induction false} ReplacedSettled(confs: map<Uid, CustomConf>, objects: map<Handle, Built>,
                                           after: map<Uid, CustomConf>, objects': map<Handle, Built>, uid: Uid)
    requires AllSettled(confs, objects) && uid in after && after == confs[uid := after[uid]]
    requires forall h :: h in objects ==> h in objects' && objects'[h] == objects[h]
    requires Settled(after[uid], objects')
    ensures AllSettled(after, objects')
  {
    assert forall u :: u in after && u != uid ==> after[u] == confs[u];
  }

  lemma {:induction false} Dropped(confs: map<Uid, CustomConf>, objects: map<Handle, Built>, closed: seq<Handle>,
                after: map<Uid, CustomConf>, closed': seq<Handle>, uid: Uid)
    requires Balanced(confs, objects, closed) && uid in confs && after == confs - {uid}
    requires closed' == if confs[uid].proxy.Some? then closed + [confs[uid].proxy.value] else closed
    ensures Balanced(after, objects, closed')
  {
    forall h | h in objects && h !in closed' ensures exists u :: u in after && after[u].proxy == Some(h) {
      assert h !in closed;
      var u :| u in confs && confs[u].proxy == Some(h);
      assert u in after && after[u].proxy == Some(h);
    }
  }

  lemma {:induction false} Replaced(confs: map<Uid, CustomConf>, objects: map<Handle, Built>, closed: seq<Handle>,
                 after: map<Uid, CustomConf>, objects': map<Handle, Built>, closed': seq<Handle>, uid: Uid)
    requires Balanced(confs, objects, closed) && uid in confs && uid in after
    requires after == confs[uid := after[uid]]
    requires closed' == if confs[uid].proxy.Some? then closed + [confs[uid].proxy.value] else closed
    requires if after[uid].proxy.Some?
             then after[uid].proxy.value !in objects && after[uid].proxy.value in objects' &&
                  objects' == objects[after[uid].proxy.value := objects'[after[uid].proxy.value]]
             else objects' == objects
    ensures Balanced(after, objects', closed')
  {
    Dropped(confs, objects, closed, confs - {uid}, closed', uid);
    forall h | h in objects' && h !in closed' ensures exists u :: u in after && after[u].proxy == Some(h) {
      if h in objects {
        var u :| u in confs - {uid} && (confs - {uid})[u].proxy == Some(h);
        assert u in after && after[u].proxy == Some(h);
      } else {
        assert after[uid].proxy == Some(h);
      }
    }
  }
}
