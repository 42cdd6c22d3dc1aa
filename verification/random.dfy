/** The random engines and distributions of the source: every draw of a
    std::uniform_int_distribution over [lo, hi] is modelled by a raw value
    supplied by the caller and mapped into the range. */
module Random {
  /** The value a uniform distribution over [lo, hi] yields for the raw draw. */
  function Uniform(lo: int, hi: int, raw: nat): (r: int)
    requires lo <= hi
    ensures lo <= r <= hi
  {
    lo + raw % (hi - lo + 1)
  }

  /** Nothing is lost by the mapping: every value of the range is some draw. */
  lemma UniformCovers(lo: int, hi: int, v: int)
    requires lo <= v <= hi
    ensures Uniform(lo, hi, v - lo) == v
  {
    assert (v - lo) % (hi - lo + 1) == v - lo;
  }
}
