/** internal/dhcpsvc/iprange.go and the address search of interface.go. */
module IpRange {
  import opened Net

  const MAX_RANGE_LEN: nat := 0xFFFF_FFFF

  datatype RawRange = Range(start: Addr, end: Addr)

  predicate Valid(r: RawRange) {
    && r.start.fam == r.end.fam
    && r.start.val < r.end.val
    && r.end.val - r.start.val <= MAX_RANGE_LEN
  }

  type Range = r: RawRange | Valid(r) witness Range(Addr(V4, 0), Addr(V4, 1))

  /** newIPRange: accepts exactly the ranges of one family, in ascending order and
      not longer than MAX_RANGE_LEN. */
  function NewRange(start: Addr, end: Addr): (r: Option<Range>)
    ensures r.Some? <==> Valid(Range(start, end))
    ensures r.Some? ==> r.value == Range(start, end)
  {
    if start.fam != end.fam then None
    else if !Less(start, end) then None
    else if end.val - start.val > MAX_RANGE_LEN then None
    else Some(Range(start, end))
  }

  predicate Contains(r: Range, ip: Addr) {
    r.start.fam == ip.fam && !Less(ip, r.start) && !Less(r.end, ip)
  }

  /** The sixteen octets of an address, as one number: IPv4 is mapped into IPv6. */
  function As16(a: Addr): (n: nat)
    ensures n < TWO_128
  {
    if a.fam.V4? then 0xFFFF_0000_0000 + a.val else a.val
  }

  /** The offset as the source computes it: the difference of the low 64 bits with
      wrap-around, and 0 for an address outside the range. */
  function Offset(r: Range, ip: Addr): (off: nat)
    ensures off < TWO_64
  {
    if Contains(r, ip) then (As16(ip) % TWO_64 - As16(r.start) % TWO_64) % TWO_64
    else 0
  }

  lemma {:induction false} WrappedDifference(a: nat, d: nat)
    requires d < TWO_64
    ensures ((a + d) % TWO_64 - a % TWO_64) % TWO_64 == d
  {
    var low := a % TWO_64;
    assert a == TWO_64 * (a / TWO_64) + low;
    if low + d < TWO_64 {
      assert (a + d) % TWO_64 == low + d by { Remainder(a + d, a / TWO_64, low + d); }
    } else {
      assert (a + d) % TWO_64 == low + d - TWO_64 by { Remainder(a + d, a / TWO_64 + 1, low + d - TWO_64); }
    }
  }

  lemma {:induction false} Remainder(n: nat, q: nat, r: nat)
    requires n == TWO_64 * q + r && r < TWO_64
    ensures n % TWO_64 == r
  {
  }

  /** The 64-bit offset is the true distance from the start of the range, also when
      the range crosses a 64-bit boundary. */
  lemma {:induction false} OffsetIsDistance(r: Range, ip: Addr)
    requires Contains(r, ip)
    ensures Offset(r, ip) == ip.val - r.start.val
    ensures Offset(r, ip) <= r.end.val - r.start.val
  {
    WrappedDifference(As16(r.start), ip.val - r.start.val);
  }

  lemma {:induction false} OffsetInjective(r: Range, a: Addr, b: Addr)
    requires Contains(r, a) && Contains(r, b)
    requires Offset(r, a) == Offset(r, b)
    ensures a == b
  {
    OffsetIsDistance(r, a);
    OffsetIsDistance(r, b);
  }

  /** Outcome of a search for a free address.  Panicked is the case where the search
      runs past the last address of the family: the address after it is the zero
      Addr, which is still "not above the end", and the predicate of nextIP panics
      on it. */
  datatype Search = Found(ip: Addr) | NoneFree | Panicked

  predicate LastOfFamily(a: Addr) {
    a.val + 1 == Limit(a.fam)
  }

  predicate AllTaken(r: Range, taken: set<nat>) {
    forall off :: 0 <= off <= r.end.val - r.start.val ==> off in taken
  }

  /** What nextIP must return: the lowest free address, and nothing only when every
      offset of the range is taken. */
  predicate IsLowestFree(r: Range, taken: set<nat>, res: Search) {
    match res
    case Found(ip) =>
      && Contains(r, ip)
      && ip.val - r.start.val !in taken
      && forall off :: 0 <= off < ip.val - r.start.val ==> off in taken
    case NoneFree => AllTaken(r, taken) && !LastOfFamily(r.end)
    case Panicked => AllTaken(r, taken) && LastOfFamily(r.end)
  }

  lemma {:induction false} LowestFreeUnique(r: Range, taken: set<nat>, a: Search, b: Search)
    requires IsLowestFree(r, taken, a) && IsLowestFree(r, taken, b)
    ensures a == b
  {
    if a.Found? && b.Found? {
      assert a.ip.val - r.start.val !in taken;
      assert b.ip.val - r.start.val !in taken;
    }
  }

  /** The same search as a function of the distance already covered. */
  function SearchFrom(r: Range, taken: set<nat>, k: nat): (res: Search)
    requires k <= r.end.val - r.start.val
    requires forall off :: 0 <= off < k ==> off in taken
    ensures IsLowestFree(r, taken, res)
    decreases r.end.val - r.start.val - k
  {
    if k !in taken then Found(Addr(r.start.fam, r.start.val + k))
    else if k == r.end.val - r.start.val then (if LastOfFamily(r.end) then Panicked else NoneFree)
    else SearchFrom(r, taken, k + 1)
  }

  function NextIP(r: Range, taken: set<nat>): (res: Search)
    ensures IsLowestFree(r, taken, res)
  {
    SearchFrom(r, taken, 0)
  }
}
