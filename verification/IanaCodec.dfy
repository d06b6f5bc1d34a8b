/** internal/dhcpsvc/options6.go: the IA_NA option (section 21.4 of RFC 9915) with
    its nested IA Address options (section 21.6). */
module IanaCodec {
  import opened Net
  import opened Wire

  const IANA_MIN_LEN: nat := 12
  const IA_ADDR_DATA_LEN: nat := 24
  const OPT_IA_ADDR: nat := 5
  const OPT_STATUS_CODE: nat := 13

  type U16 = x: int | 0 <= x < 0x1_0000
  type U32 = x: int | 0 <= x < TWO_32
  type Addr6 = a: Addr | a.fam == V6 witness Addr(V6, 0)

  /** Times are whole seconds of 32 bits, which is all the wire can carry. */
  datatype IaAddr = IaAddr(addr: Addr6, preferred: U32, valid: U32)

  datatype Iana = Iana(id: U32, t1: U32, t2: U32, nested: seq<IaAddr>)

  datatype Decoded<+T> = Ok(value: T) | Malformed

  /** IAAddrOption.appendTo */
  function EncodeAddr(a: IaAddr): (b: bytes)
    ensures |b| == 4 + IA_ADDR_DATA_LEN
  {
    ToBE(OPT_IA_ADDR, 2) + ToBE(IA_ADDR_DATA_LEN, 2) + AddrBody(a)
  }

  function AddrBody(a: IaAddr): (b: bytes)
    ensures |b| == IA_ADDR_DATA_LEN
  {
    ToBE(a.addr.val, 16) + ToBE(a.preferred, 4) + ToBE(a.valid, 4)
  }

  function EncodeNested(s: seq<IaAddr>): bytes {
    if s == [] then [] else EncodeNested(s[..|s| - 1]) + EncodeAddr(s[|s| - 1])
  }

  function EncodeSpec(o: Iana): bytes {
    ToBE(o.id, 4) + ToBE(o.t1, 4) + ToBE(o.t2, 4) + EncodeNested(o.nested)
  }

  /** IANAOption.Encode */
  method Encode(o: Iana) returns (data: bytes)
    ensures data == EncodeSpec(o)
  {
    data := [];
    data := data + ToBE(o.id, 4);
    data := data + ToBE(o.t1, 4);
    data := data + ToBE(o.t2, 4);
    for i := 0 to |o.nested|
      invariant data == ToBE(o.id, 4) + ToBE(o.t1, 4) + ToBE(o.t2, 4) + EncodeNested(o.nested[..i])
    {
      assert o.nested[..i + 1][..i] == o.nested[..i];
      data := data + EncodeAddr(o.nested[i]);
    }
    assert o.nested[..|o.nested|] == o.nested;
  }

  /** IAAddrOption.UnmarshalBinary: what follows the fixed part is ignored. */
  function DecodeAddr(data: bytes): (r: Decoded<IaAddr>)
    ensures r.Ok? <==> |data| >= IA_ADDR_DATA_LEN
  {
    if |data| < IA_ADDR_DATA_LEN then Malformed
    else
      Widths();
      Ok(IaAddr(Addr(V6, FromBE(data[..16])), FromBE(data[16..20]), FromBE(data[20..24])))
  }

  /** The nested options, read from the front. */
  function DecodeNested(data: bytes): Decoded<seq<IaAddr>> {
    if |data| < 4 then Ok([])
    else
      var code, len := FromBE(data[..2]), FromBE(data[2..4]);
      if len > |data| - 4 then Malformed
      else if code != OPT_IA_ADDR then DecodeNested(data[4 + len..])
      else
        match DecodeAddr(data[4..4 + len])
        case Malformed => Malformed
        case Ok(a) => Prepend([a], DecodeNested(data[4 + len..]))
  }

  function Prepend(s: seq<IaAddr>, r: Decoded<seq<IaAddr>>): Decoded<seq<IaAddr>> {
    match r
    case Malformed => Malformed
    case Ok(t) => Ok(s + t)
  }

  function DecodeSpec(data: bytes): Decoded<Iana> {
    if |data| < IANA_MIN_LEN then Malformed
    else
      Widths();
      match DecodeNested(data[IANA_MIN_LEN..])
      case Malformed => Malformed
      case Ok(s) => Ok(Iana(FromBE(data[..4]), FromBE(data[4..8]), FromBE(data[8..12]), s))
  }

  /** IANAOption.UnmarshalBinary: ends in bounds on every byte string. */
  method Decode(data: bytes) returns (r: Decoded<Iana>)
    ensures r == DecodeSpec(data)
  {
    if |data| < IANA_MIN_LEN {
      return Malformed;
    }
    Widths();
    var id, t1, t2 := FromBE(data[0..4]), FromBE(data[4..8]), FromBE(data[8..12]);
    var nested := data[IANA_MIN_LEN..];
    var addrs: seq<IaAddr> := [];
    assert forall r: Decoded<seq<IaAddr>> :: Prepend([], r) == r by {
      forall r: Decoded<seq<IaAddr>> ensures Prepend([], r) == r {
        assert r.Ok? ==> [] + r.value == r.value;
      }
    }
    while |nested| >= 4
      invariant DecodeNested(data[IANA_MIN_LEN..]) == Prepend(addrs, DecodeNested(nested))
      decreases |nested|
    {
      var code, len := FromBE(nested[0..2]), FromBE(nested[2..4]);
      if len > |nested| - 4 {
        return Malformed;
      }
      if code == OPT_IA_ADDR {
        var a := DecodeAddr(nested[4..4 + len]);
        if a.Malformed? {
          return Malformed;
        }
        ghost var rest := DecodeNested(nested[4 + len..]);
        assert rest.Ok? ==> addrs + ([a.value] + rest.value) == (addrs + [a.value]) + rest.value;
        addrs := addrs + [a.value];
      }
      nested := nested[4 + len..];
    }
    assert addrs + [] == addrs;
    r := Ok(Iana(id, t1, t2, addrs));
  }

  // ---- The octets, as sections 21.4, 21.6 and 21.13 of RFC 9915 lay them out ----

  /** An IA Address option: code 5, length 24, the address, and the two lifetimes. */
  lemma {:induction false} AddrLayout(a: IaAddr)
    ensures var d := EncodeAddr(a);
            && |d| == 28 && NumberAt(d, 0, 2, 5) && NumberAt(d, 2, 2, 24)
            && NumberAt(d, 4, 16, a.addr.val) && NumberAt(d, 20, 4, a.preferred) && NumberAt(d, 24, 4, a.valid)
  {
    var code, len := ToBE(OPT_IA_ADDR, 2), ToBE(IA_ADDR_DATA_LEN, 2);
    var addr, pref, valid := ToBE(a.addr.val, 16), ToBE(a.preferred, 4), ToBE(a.valid, 4);
    var d := EncodeAddr(a);
    WrittenAt([], 5, 2, len + addr + pref + valid);
    assert d == [] + code + (len + addr + pref + valid);
    WrittenAt(code, 24, 2, addr + pref + valid);
    assert d == code + len + (addr + pref + valid);
    WrittenAt(code + len, a.addr.val, 16, pref + valid);
    assert d == (code + len) + addr + (pref + valid);
    WrittenAt(code + len + addr, a.preferred, 4, valid);
    assert d == (code + len + addr) + pref + valid;
    WrittenAt(code + len + addr + pref, a.valid, 4, []);
    assert d == (code + len + addr + pref) + valid + [];
  }

  lemma {:induction false} NestedLayout(s: seq<IaAddr>)
    ensures |EncodeNested(s)| == 28 * |s|
    ensures forall k :: 0 <= k < |s| ==> EncodeNested(s)[28 * k..28 * k + 28] == EncodeAddr(s[k])
  {
    if s != [] {
      var init, last := s[..|s| - 1], s[|s| - 1];
      NestedLayout(init);
      var d, before := EncodeNested(s), EncodeNested(init);
      assert d == before + EncodeAddr(last);
      forall k | 0 <= k < |s| ensures d[28 * k..28 * k + 28] == EncodeAddr(s[k]) {
        if k < |init| {
          assert d[28 * k..28 * k + 28] == before[28 * k..28 * k + 28];
        }
      }
    }
  }

  /** An IA_NA option: the identifier, T1 and T2, and then the addresses in order. */
  lemma {:induction false} IanaLayout(o: Iana)
    ensures var d := EncodeSpec(o);
            && |d| == 12 + 28 * |o.nested|
            && NumberAt(d, 0, 4, o.id) && NumberAt(d, 4, 4, o.t1) && NumberAt(d, 8, 4, o.t2)
            && forall k :: 0 <= k < |o.nested| ==> d[12..][28 * k..28 * k + 28] == EncodeAddr(o.nested[k])
  {
    NestedLayout(o.nested);
    HeaderLayout(o.id, o.t1, o.t2, EncodeNested(o.nested));
  }

  lemma {:induction false} HeaderLayout(id: U32, t1: U32, t2: U32, rest: bytes)
    ensures var d := ToBE(id, 4) + ToBE(t1, 4) + ToBE(t2, 4) + rest;
            && NumberAt(d, 0, 4, id) && NumberAt(d, 4, 4, t1) && NumberAt(d, 8, 4, t2) && d[12..] == rest
  {
    var a, b, c := ToBE(id, 4), ToBE(t1, 4), ToBE(t2, 4);
    var d := a + b + c + rest;
    WrittenAt([], id, 4, b + c + rest);
    assert d == [] + a + (b + c + rest);
    WrittenAt(a, t1, 4, c + rest);
    assert d == a + b + (c + rest);
    WrittenAt(a + b, t2, 4, rest);
    assert d == (a + b) + c + rest;
  }

  /** A status-only answer: zero times, then a Status Code option, code 13 and length 2. */
  lemma {:induction false} StatusLayout(id: U32, status: U16)
    ensures var d := StatusSpec(id, status);
            && |d| == 18 && NumberAt(d, 0, 4, id) && NumberAt(d, 4, 4, 0) && NumberAt(d, 8, 4, 0)
            && NumberAt(d[12..], 0, 2, 13) && NumberAt(d[12..], 2, 2, 2) && NumberAt(d[12..], 4, 2, status)
  {
    var code, len, value := ToBE(OPT_STATUS_CODE, 2), ToBE(2, 2), ToBE(status, 2);
    HeaderLayout(id, 0, 0, code + len + value);
    assert StatusSpec(id, status) == ToBE(id, 4) + ToBE(0, 4) + ToBE(0, 4) + (code + len + value);
    WrittenAt([], 13, 2, len + value);
    assert code + len + value == [] + code + (len + value);
    WrittenAt(code, 2, 2, value);
    WrittenAt(code + len, status, 2, []);
    assert code + len + value == (code + len) + value + [];
  }

  // ---- Options inside IA_NA as a list of code, length and body ----

  datatype Tlv = Tlv(code: U16, body: bytes)

  predicate Fits(ts: seq<Tlv>) {
    forall i :: 0 <= i < |ts| ==> |ts[i].body| < 0x1_0000
  }

  function Flat(t: Tlv): bytes {
    ToBE(t.code, 2) + ToBE(|t.body|, 2) + t.body
  }

  function Flatten(ts: seq<Tlv>): bytes {
    if ts == [] then [] else Flat(ts[0]) + Flatten(ts[1..])
  }

  /** The addresses a reader must see: those of the IA Address options, in order. */
  function AddrsOf(ts: seq<Tlv>): seq<IaAddr> {
    if ts == [] then []
    else if ts[0].code == OPT_IA_ADDR && |ts[0].body| >= IA_ADDR_DATA_LEN then
      [DecodeAddr(ts[0].body).value] + AddrsOf(ts[1..])
    else AddrsOf(ts[1..])
  }

  predicate HasShortAddr(ts: seq<Tlv>) {
    exists i :: 0 <= i < |ts| && ts[i].code == OPT_IA_ADDR && |ts[i].body| < IA_ADDR_DATA_LEN
  }

  lemma {:induction false} DecodeStep(t: Tlv, rest: bytes)
    requires |t.body| < 0x1_0000
    ensures DecodeNested(Flat(t) + rest) ==
            if t.code != OPT_IA_ADDR then DecodeNested(rest)
            else match DecodeAddr(t.body)
                 case Malformed => Malformed
                 case Ok(a) => Prepend([a], DecodeNested(rest))
  {
    Widths();
    ReadsBack(t.code, 2);
    ReadsBack(|t.body|, 2);
    FlatParts(ToBE(t.code, 2), ToBE(|t.body|, 2), t.body, rest);
  }

  lemma {:induction false} FlatParts(a: bytes, b: bytes, body: bytes, rest: bytes)
    requires |a| == 2 && |b| == 2
    ensures var data := a + b + body + rest;
            && data[..2] == a && data[2..4] == b
            && data[4..4 + |body|] == body && data[4 + |body|..] == rest
  {
  }

  /** Reading any list of nested options, followed by a tail too short to be one,
      gives the IA Address options in order and skips every other option; it fails
      exactly when an IA Address option is too short. */
  lemma {:induction false} NestedOptions(ts: seq<Tlv>, tail: bytes)
    requires Fits(ts) && |tail| < 4
    ensures DecodeNested(Flatten(ts) + tail) == if HasShortAddr(ts) then Malformed else Ok(AddrsOf(ts))
  {
    if ts == [] {
      assert Flatten(ts) + tail == tail;
    } else {
      var rest := ts[1..];
      assert Flatten(ts) + tail == Flat(ts[0]) + (Flatten(rest) + tail);
      DecodeStep(ts[0], Flatten(rest) + tail);
      NestedOptions(rest, tail);
      assert ts == [ts[0]] + rest;
      ShortAddrHead(ts[0], rest);
    }
  }

  lemma {:induction false} ShortAddrHead(t: Tlv, rest: seq<Tlv>)
    ensures HasShortAddr([t] + rest) <==> (t.code == OPT_IA_ADDR && |t.body| < IA_ADDR_DATA_LEN) || HasShortAddr(rest)
  {
    var ts := [t] + rest;
    assert ts[0] == t;
    assert forall i :: 0 <= i < |rest| ==> ts[i + 1] == rest[i];
  }

  /** Conversely, whatever is read successfully is such a list. */
  lemma {:induction false} AcceptedShape(data: bytes) returns (ts: seq<Tlv>, tail: bytes)
    requires DecodeNested(data).Ok?
    ensures Fits(ts) && |tail| < 4 && data == Flatten(ts) + tail && !HasShortAddr(ts)
    decreases |data|
  {
    if |data| < 4 {
      ts, tail := [], data;
    } else {
      var t, rest := FirstOption(data);
      var ts', tail' := AcceptedShape(rest);
      ts, tail := [t] + ts', tail';
      assert ts[1..] == ts';
      assert data == Flat(t) + (Flatten(ts') + tail);
      ShortAddrHead(t, ts');
    }
  }

  lemma {:induction false} FirstOption(data: bytes) returns (t: Tlv, rest: bytes)
    requires |data| >= 4 && DecodeNested(data).Ok?
    ensures data == Flat(t) + rest && |t.body| < 0x1_0000 && |rest| < |data|
    ensures DecodeNested(rest).Ok? && !(t.code == OPT_IA_ADDR && |t.body| < IA_ADDR_DATA_LEN)
  {
    var code, len := FromBE(data[..2]), FromBE(data[2..4]);
    Widths();
    t, rest := Tlv(code, data[4..4 + len]), data[4 + len..];
    WritesBack(data[..2]);
    WritesBack(data[2..4]);
  }

  // ---- Round trip ----

  function AsTlvs(s: seq<IaAddr>): (ts: seq<Tlv>)
    ensures |ts| == |s| && Fits(ts)
    ensures forall i :: 0 <= i < |s| ==> ts[i] == Tlv(OPT_IA_ADDR, AddrBody(s[i]))
  {
    seq(|s|, i requires 0 <= i < |s| => Tlv(OPT_IA_ADDR, AddrBody(s[i])))
  }

  /** Whatever follows the fixed part of an IA Address option is ignored. */
  lemma {:induction false} AddrReadsBack(a: IaAddr, extra: bytes)
    ensures DecodeAddr(AddrBody(a) + extra) == Ok(a)
  {
    var b := AddrBody(a) + extra;
    Widths();
    assert b[..16] == ToBE(a.addr.val, 16);
    assert b[16..20] == ToBE(a.preferred, 4);
    assert b[20..24] == ToBE(a.valid, 4);
    ReadsBack(a.addr.val, 16);
    ReadsBack(a.preferred, 4);
    ReadsBack(a.valid, 4);
  }

  lemma {:induction false} FlattenAppend(ts: seq<Tlv>, t: Tlv)
    ensures Flatten(ts + [t]) == Flatten(ts) + Flat(t)
  {
    if ts == [] {
      assert Flatten([t]) == Flat(t) + Flatten([]) by { assert [t][1..] == []; }
      assert ts + [t] == [t];
    } else {
      assert (ts + [t])[1..] == ts[1..] + [t];
      FlattenAppend(ts[1..], t);
    }
  }

  lemma {:induction false} NestedAsTlvs(s: seq<IaAddr>)
    ensures EncodeNested(s) == Flatten(AsTlvs(s))
    ensures AddrsOf(AsTlvs(s)) == s && !HasShortAddr(AsTlvs(s))
  {
    if s == [] {
      assert AsTlvs(s) == [];
    } else {
      var init, last := s[..|s| - 1], s[|s| - 1];
      NestedAsTlvs(init);
      assert AsTlvs(s) == AsTlvs(init) + [Tlv(OPT_IA_ADDR, AddrBody(last))];
      FlattenAppend(AsTlvs(init), Tlv(OPT_IA_ADDR, AddrBody(last)));
      AddrsOfAll(s);
    }
  }

  lemma {:induction false} AddrsOfAll(s: seq<IaAddr>)
    ensures AddrsOf(AsTlvs(s)) == s
  {
    if s != [] {
      assert AsTlvs(s)[1..] == AsTlvs(s[1..]);
      AddrReadsBack(s[0], []);
      assert AddrBody(s[0]) + [] == AddrBody(s[0]);
      AddrsOfAll(s[1..]);
    }
  }

  lemma {:induction false} Header(id: U32, t1: U32, t2: U32, rest: bytes)
    ensures var data := ToBE(id, 4) + ToBE(t1, 4) + ToBE(t2, 4) + rest;
            && FromBE(data[..4]) == id && FromBE(data[4..8]) == t1 && FromBE(data[8..12]) == t2
            && data[IANA_MIN_LEN..] == rest
  {
    Widths();
    ReadsBack(id, 4);
    ReadsBack(t1, 4);
    ReadsBack(t2, 4);
    HeaderParts(ToBE(id, 4), ToBE(t1, 4), ToBE(t2, 4), rest);
  }

  lemma {:induction false} HeaderParts(a: bytes, b: bytes, c: bytes, rest: bytes)
    requires |a| == 4 && |b| == 4 && |c| == 4
    ensures var data := a + b + c + rest;
            && data[..4] == a && data[4..8] == b && data[8..12] == c && data[12..] == rest
  {
  }

  /** An IA_NA is malformed exactly if it is shorter than its fixed part or its nested options
      are malformed; otherwise it has the three numbers in front and those addresses. */
  lemma {:induction false} DecodeParts(data: bytes)
    ensures DecodeSpec(data).Malformed? <==> |data| < 12 || DecodeNested(data[12..]).Malformed?
    ensures DecodeSpec(data).Ok? ==>
              var o := DecodeSpec(data).value;
              && o.id == FromBE(data[..4]) && o.t1 == FromBE(data[4..8]) && o.t2 == FromBE(data[8..12])
              && DecodeNested(data[12..]) == Ok(o.nested)
  {
  }

  /** Decoding an encoded option returns the option. */
  lemma {:induction false} RoundTrip(o: Iana)
    ensures DecodeSpec(EncodeSpec(o)) == Ok(o)
  {
    Header(o.id, o.t1, o.t2, EncodeNested(o.nested));
    NestedAsTlvs(o.nested);
    NestedOptions(AsTlvs(o.nested), []);
    assert Flatten(AsTlvs(o.nested)) + [] == Flatten(AsTlvs(o.nested));
  }

  /** newIANAWithStatus */
  function StatusSpec(id: U32, status: U16): bytes {
    ToBE(id, 4) + ToBE(0, 4) + ToBE(0, 4) + ToBE(OPT_STATUS_CODE, 2) + ToBE(2, 2) + ToBE(status, 2)
  }

  /** A status-only answer reads as an IA_NA of the same identifier without addresses. */
  lemma {:induction false} StatusHasNoAddrs(id: U32, status: U16)
    ensures DecodeSpec(StatusSpec(id, status)) == Ok(Iana(id, 0, 0, []))
  {
    var t := Tlv(OPT_STATUS_CODE, ToBE(status, 2));
    assert StatusSpec(id, status) == ToBE(id, 4) + ToBE(0, 4) + ToBE(0, 4) + Flat(t);
    Header(id, 0, 0, Flat(t));
    NestedOptions([t], []);
    assert Flatten([t]) + [] == Flat(t);
    assert AddrsOf([t]) == [];
  }

  /** IANAOption.requestedAddr */
  function RequestedAddr(o: Iana): Option<Addr> {
    if o.nested == [] then None else Some(o.nested[0].addr)
  }
}
