/** internal/dhcpsvc/bitset.go: a sparse set of numbers kept as a map of 64-bit words. */
module BitSets {
  const BITS_PER_WORD: nat := 64

  type Words = map<nat, bv64>

  predicate BitOf(word: bv64, k: nat)
    requires k < BITS_PER_WORD
  {
    word & ((1 as bv64) << k) != 0
  }

  function WithBit(word: bv64, k: nat, ok: bool): bv64
    requires k < BITS_PER_WORD
  {
    if ok then word | ((1 as bv64) << k) else word & !((1 as bv64) << k)
  }

  /** Changing one bit of a word reads back at that bit and at no other. */
  lemma {:induction false} WithBitReadsBack(word: bv64, k: nat, ok: bool, j: nat)
    requires k < BITS_PER_WORD && j < BITS_PER_WORD
    ensures BitOf(WithBit(word, k, ok), j) == if j == k then ok else BitOf(word, j)
  {
    var mj, mk := (1 as bv64) << j, (1 as bv64) << k;
    MasksAreDistinct(j, k);
    if ok {
      assert (word | mk) & mj == (word & mj) | (mk & mj);
    } else {
      assert (word & !mk) & mj == (word & mj) & !mk;
      assert j != k ==> (word & mj) & !mk == word & mj by {
        if j != k { DisjointMask(word, mj, mk); }
      }
      assert j == k ==> (word & mj) & !mj == 0;
    }
  }

  lemma {:induction false} MasksAreDistinct(j: nat, k: nat)
    requires j < BITS_PER_WORD && k < BITS_PER_WORD
    ensures (1 as bv64) << j != 0
    ensures j != k ==> ((1 as bv64) << k) & ((1 as bv64) << j) == 0
  {
  }

  lemma {:induction false} DisjointMask(word: bv64, mj: bv64, mk: bv64)
    requires mk & mj == 0
    ensures (word & mj) & !mk == word & mj
  {
  }

  /** The numbers whose bit is set. */
  function Members(words: Words): set<nat> {
    set w: nat, k: nat | w in words && 0 <= k < BITS_PER_WORD && BitOf(words[w], k) :: w * BITS_PER_WORD + k
  }

  lemma {:induction false} MemberIff(words: Words, n: nat)
    ensures n in Members(words) <==>
            n / BITS_PER_WORD in words && BitOf(words[n / BITS_PER_WORD], n % BITS_PER_WORD)
  {
    if n in Members(words) {
      var w: nat, k: nat :| w in words && 0 <= k < BITS_PER_WORD && BitOf(words[w], k) && n == w * BITS_PER_WORD + k;
      assert n / BITS_PER_WORD == w && n % BITS_PER_WORD == k;
    }
    if n / BITS_PER_WORD in words && BitOf(words[n / BITS_PER_WORD], n % BITS_PER_WORD) {
      assert n == (n / BITS_PER_WORD) * BITS_PER_WORD + n % BITS_PER_WORD;
    }
  }

  function SetIn(words: Words, n: nat, ok: bool): Words {
    var w, k := n / BITS_PER_WORD, n % BITS_PER_WORD;
    words[w := WithBit(if w in words then words[w] else 0, k, ok)]
  }

  /** The word map refines a set of numbers: storing a bit adds or removes exactly
      that number. */
  lemma {:induction false} SetInRefines(words: Words, n: nat, ok: bool)
    ensures Members(SetIn(words, n, ok)) == if ok then Members(words) + {n} else Members(words) - {n}
  {
    var after := SetIn(words, n, ok);
    forall m: nat
      ensures m in Members(after) <==> if m == n then ok else m in Members(words)
    {
      MemberIff(words, m);
      MemberIff(after, m);
      var w := n / BITS_PER_WORD;
      if m / BITS_PER_WORD == w {
        WithBitReadsBack(if w in words then words[w] else 0, n % BITS_PER_WORD, ok, m % BITS_PER_WORD);
        EmptyWord(m % BITS_PER_WORD);
        assert m % BITS_PER_WORD == n % BITS_PER_WORD ==> m == n;
      }
    }
  }

  lemma {:induction false} EmptyWord(k: nat)
    requires k < BITS_PER_WORD
    ensures !BitOf(0, k)
  {
  }

  class BitSet {
    var words: Words

    ghost function Contents(): set<nat>
      reads this
    {
      Members(words)
    }

    constructor ()
      ensures Contents() == {}
    {
      words := map[];
    }

    method IsSet(n: nat) returns (ok: bool)
      ensures ok <==> n in Contents()
    {
      MemberIff(words, n);
      var wordIdx, bitIdx := n / BITS_PER_WORD, n % BITS_PER_WORD;
      ok := wordIdx in words && BitOf(words[wordIdx], bitIdx);
    }

    method Set(n: nat, ok: bool)
      modifies this
      ensures Contents() == if ok then old(Contents()) + {n} else old(Contents()) - {n}
    {
      SetInRefines(words, n, ok);
      var wordIdx, bitIdx := n / BITS_PER_WORD, n % BITS_PER_WORD;
      var word: bv64 := if wordIdx in words then words[wordIdx] else 0;
      word := WithBit(word, bitIdx, ok);
      words := words[wordIdx := word];
    }
  }
}
