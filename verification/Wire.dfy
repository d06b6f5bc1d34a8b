/** Big-endian numbers of any width, as encoding/binary writes and reads them. */
module Wire {
  import opened Net

  type bytes = seq<byte>

  function Pow256(n: nat): (p: nat)
    ensures p > 0
  {
    if n == 0 then 1 else 256 * Pow256(n - 1)
  }

  /** The low `width` octets of n, most significant first. */
  function ToBE(n: nat, width: nat): (b: bytes)
    ensures |b| == width
  {
    if width == 0 then [] else ToBE(n / 256, width - 1) + [n % 256]
  }

  function FromBE(b: bytes): (n: nat)
    ensures n < Pow256(|b|)
  {
    if b == [] then 0
    else
      var high := FromBE(b[..|b| - 1]);
      assert high * 256 + 255 < Pow256(|b|);
      high * 256 + b[|b| - 1]
  }

  /** Writing keeps the number exactly when it fits the width. */
  lemma {:induction false} ReadsBack(n: nat, width: nat)
    ensures FromBE(ToBE(n, width)) == n % Pow256(width)
    ensures FromBE(ToBE(n, width)) == n <==> n < Pow256(width)
  {
    if width > 0 {
      ReadsBack(n / 256, width - 1);
      var b := ToBE(n, width);
      assert b[..|b| - 1] == ToBE(n / 256, width - 1);
      ModSplit(n, Pow256(width - 1));
    }
    ModBelow(n, Pow256(width));
  }

  lemma {:induction false} ModSplit(n: nat, m: nat)
    requires m > 0
    ensures n % (256 * m) == (n / 256 % m) * 256 + n % 256
  {
    var q, r := n / 256 / m, n / 256 % m;
    assert n / 256 == q * m + r;
    assert n == (q * m + r) * 256 + n % 256;
    assert (q * m + r) * 256 == q * (256 * m) + r * 256;
    assert r * 256 + n % 256 < 256 * m by { assert r <= m - 1; }
    DivUnique(n, 256 * m, q, r * 256 + n % 256);
  }

  lemma {:induction false} DivUnique(n: nat, m: nat, q: nat, r: nat)
    requires m > 0 && n == q * m + r && r < m
    ensures n % m == r
  {
    var d := n / m - q;
    assert n == m * (n / m) + n % m;
    assert m * (n / m) - q * m == m * d;
    assert m * d == r - n % m;
    assert d > 0 ==> m * d >= m;
    assert d < 0 ==> m * d <= -(m as int);
  }

  lemma {:induction false} ModBelow(n: nat, m: nat)
    requires m > 0
    ensures n < m ==> n % m == n
    ensures n % m < m
  {
    if n < m { DivUnique(n, m, 0, n); }
  }

  /** The octets from `off` are the number of that width, the most significant first. */
  ghost predicate NumberAt(d: bytes, off: nat, width: nat, n: nat) {
    off + width <= |d| && forall i :: off <= i < off + width ==> d[i] == n / Pow256(off + width - 1 - i) % 256
  }

  lemma {:induction false} WrittenAt(before: bytes, n: nat, width: nat, after: bytes)
    ensures NumberAt(before + ToBE(n, width) + after, |before|, width, n)
  {
    var d := before + ToBE(n, width) + after;
    forall i | |before| <= i < |before| + width ensures d[i] == n / Pow256(|before| + width - 1 - i) % 256 {
      assert d[i] == ToBE(n, width)[i - |before|];
      OctetOf(n, width, i - |before|);
    }
  }

  /** The most significant octet comes first. */
  lemma {:induction false} OctetOf(n: nat, width: nat, i: nat)
    requires i < width
    ensures ToBE(n, width)[i] == n / Pow256(width - 1 - i) % 256
  {
    if i < width - 1 {
      OctetOf(n / 256, width - 1, i);
      DivTwice(n, Pow256(width - 2 - i));
    }
  }

  lemma {:induction false} DivTwice(n: nat, m: nat)
    requires m > 0
    ensures n / 256 / m == n / (256 * m)
  {
    var q := n / 256 / m;
    assert n / 256 == q * m + n / 256 % m;
    assert n == (q * m + n / 256 % m) * 256 + n % 256;
    var r := n / 256 % m * 256 + n % 256;
    assert r < 256 * m by { assert n / 256 % m <= m - 1; }
    assert n == q * (256 * m) + r;
    QuotientUnique(n, 256 * m, q, r);
  }

  lemma {:induction false} QuotientUnique(n: nat, m: nat, q: nat, r: nat)
    requires m > 0 && n == q * m + r && r < m
    ensures n / m == q
  {
    DivUnique(n, m, q, r);
    assert n == m * (n / m) + n % m;
    var d := n / m - q;
    assert m * d == 0;
    assert d > 0 ==> m * d >= m;
    assert d < 0 ==> m * d <= -(m as int);
  }

  /** Reading is the inverse on the other side, too. */
  lemma {:induction false} WritesBack(b: bytes)
    ensures ToBE(FromBE(b), |b|) == b
  {
    if b != [] {
      WritesBack(b[..|b| - 1]);
      assert FromBE(b) / 256 == FromBE(b[..|b| - 1]);
      assert b == b[..|b| - 1] + [b[|b| - 1]];
    }
  }

  lemma {:induction false} Widths()
    ensures Pow256(2) == 0x1_0000 && Pow256(4) == TWO_32 && Pow256(16) == TWO_128
  {
    assert Pow256(2) == 256 * Pow256(1);
    assert Pow256(4) == 256 * Pow256(3) && Pow256(3) == 256 * Pow256(2);
    assert Pow256(8) == 256 * Pow256(7) && Pow256(7) == 256 * Pow256(6) &&
           Pow256(6) == 256 * Pow256(5) && Pow256(5) == 256 * Pow256(4);
    assert Pow256(12) == 256 * Pow256(11) && Pow256(11) == 256 * Pow256(10) &&
           Pow256(10) == 256 * Pow256(9) && Pow256(9) == 256 * Pow256(8);
    assert Pow256(16) == 256 * Pow256(15) && Pow256(15) == 256 * Pow256(14) &&
           Pow256(14) == 256 * Pow256(13) && Pow256(13) == 256 * Pow256(12);
  }
}
