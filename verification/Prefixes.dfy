/**
 Addresses as bit strings and prefixes as their initial segments, per address family, so
 that containment and overlap are facts about sequence prefixes.
 */
module Prefixes {

  datatype Family = V4 | V6

  datatype Address = Address(family: Family, bits: seq<bool>)

  datatype Prefix = Prefix(family: Family, bits: seq<bool>)

  predicate Matches(p: Prefix, a: Address) {
    p.family == a.family && p.bits <= a.bits
  }

  /** `p` contains the whole of `q`. */
  predicate Covers(p: Prefix, q: Prefix) {
    p.family == q.family && p.bits <= q.bits
  }

  predicate Overlaps(p: Prefix, q: Prefix) {
    Covers(p, q) || Covers(q, p)
  }

  /** Two prefixes of one address are nested, the shorter around the longer. */
  lemma MatchesAreNested(p: Prefix, q: Prefix, a: Address)
    requires Matches(p, a) && Matches(q, a) && |p.bits| <= |q.bits|
    ensures Covers(p, q)
    ensures |p.bits| == |q.bits| ==> p == q
  {
    assert p.bits == a.bits[..|p.bits|];
    assert q.bits == a.bits[..|q.bits|];
  }

  /** Overlap is exactly having a common address. */
  lemma OverlapIffCommonAddress(p: Prefix, q: Prefix)
    ensures Overlaps(p, q) <==> exists a :: Matches(p, a) && Matches(q, a)
  {
    if Covers(p, q) {
      assert Matches(p, Address(q.family, q.bits)) && Matches(q, Address(q.family, q.bits));
    } else if Covers(q, p) {
      assert Matches(p, Address(p.family, p.bits)) && Matches(q, Address(p.family, p.bits));
    } else if a :| Matches(p, a) && Matches(q, a) {
      if |p.bits| <= |q.bits| {
        MatchesAreNested(p, q, a);
      } else {
        MatchesAreNested(q, p, a);
      }
    }
  }
}
