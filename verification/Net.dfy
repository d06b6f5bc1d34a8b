/** Values shared by every component: bytes, hardware addresses, IP addresses and
    prefixes in the shape Go's netip package gives them. */
module Net {

  datatype Option<+T> = None | Some(value: T)

  ghost predicate NoRepeats<T>(s: seq<T>) {
    forall i, j :: 0 <= i < j < |s| ==> s[i] != s[j]
  }

  type byte = x: int | 0 <= x < 256

  const TWO_32: nat := 0x1_0000_0000
  const TWO_64: nat := 0x1_0000_0000_0000_0000
  const TWO_128: nat := 0x1_0000_0000_0000_0000_0000_0000_0000_0000

  function Pow2(n: nat): (p: nat)
    ensures p > 0
  {
    if n == 0 then 1 else 2 * Pow2(n - 1)
  }

  /** A hardware address: 6, 8 or 20 octets.  The source turns it into an array of
      that many bytes to use it as a map key, which is injective; the model uses the
      octets themselves as the key. */
  type Mac = m: seq<byte> | |m| == 6 || |m| == 8 || |m| == 20 witness [0, 0, 0, 0, 0, 0]

  datatype Family = V4 | V6

  function Width(f: Family): (w: nat)
    ensures w == 32 || w == 128
  {
    if f.V4? then 32 else 128
  }

  function Limit(f: Family): (n: nat)
    ensures n == TWO_32 || n == TWO_128
  {
    if f.V4? then TWO_32 else TWO_128
  }

  datatype RawAddr = Addr(fam: Family, val: nat)

  type Addr = a: RawAddr | a.val < Limit(a.fam) witness Addr(V4, 0)

  /** The order of netip: the shorter family first, then the value. */
  predicate Less(a: Addr, b: Addr) {
    if a.fam == b.fam then a.val < b.val else a.fam.V4?
  }

  /** The following address, or nothing (the zero Addr of the source) after the
      last one of the family. */
  function Next(a: Addr): (n: Option<Addr>)
  {
    if a.val + 1 < Limit(a.fam) then Some(Addr(a.fam, a.val + 1)) else None
  }

  predicate IsUnspecified(a: Addr) {
    a.val == 0
  }

  /** A prefix keeps the address it was written with, host bits included. */
  datatype RawPrefix = Prefix(addr: Addr, bits: nat)

  type Prefix = p: RawPrefix | p.bits <= Width(p.addr.fam) witness Prefix(Addr(V4, 0), 0)

  predicate PrefixContains(p: Prefix, a: Addr) {
    var host := Pow2(Width(p.addr.fam) - p.bits);
    p.addr.fam == a.fam && p.addr.val / host == a.val / host
  }

  /** strings.ToLower on ASCII text. */
  function LowerChar(c: char): char {
    if 'A' <= c <= 'Z' then c - 'A' + 'a' else c
  }

  function Lower(s: string): (r: string)
    ensures |r| == |s|
  {
    seq(|s|, i requires 0 <= i < |s| => LowerChar(s[i]))
  }

  /** The same letter, whatever its case. */
  predicate SameLetter(c: char, d: char) {
    || c == d
    || ('A' <= c <= 'Z' && d as int == c as int + 32)
    || ('A' <= d <= 'Z' && c as int == d as int + 32)
  }

  /** Two names have one lower-case form exactly if they differ at most in case. */
  lemma {:induction false} LowerFolds(s: string, t: string)
    ensures Lower(s) == Lower(t) <==> |s| == |t| && forall i :: 0 <= i < |s| ==> SameLetter(s[i], t[i])
  {
    if |s| == |t| {
      assert Lower(s) == Lower(t) <==> forall i :: 0 <= i < |s| ==> LowerChar(s[i]) == LowerChar(t[i]) by {
        assert forall i :: 0 <= i < |s| ==> Lower(s)[i] == LowerChar(s[i]) && Lower(t)[i] == LowerChar(t[i]);
      }
    }
  }

  /** A prefix contains the addresses of its family from its network address on, as many as
      its host bits count. */
  lemma {:induction false} PrefixIsRange(p: Prefix, a: Addr)
    ensures var count := Pow2(Width(p.addr.fam) - p.bits);
            var network := p.addr.val - p.addr.val % count;
            PrefixContains(p, a) <==> p.addr.fam == a.fam && network <= a.val < network + count
  {
    SameQuotient(p.addr.val, a.val, Pow2(Width(p.addr.fam) - p.bits));
  }

  lemma {:induction false} SameQuotient(x: nat, y: nat, n: nat)
    requires n > 0
    ensures x / n == y / n <==> x - x % n <= y < x - x % n + n
  {
    var d := y / n - x / n;
    assert x == n * (x / n) + x % n && y == n * (y / n) + y % n;
    assert n * (y / n) - n * (x / n) == n * d;
    assert d > 0 ==> n * d >= n;
    assert d < 0 ==> n * d <= -(n as int);
  }
}
