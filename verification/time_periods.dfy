/** `TimePeriod`: an immutable pair of instants whose start lies strictly
    before its end. Instants are whole minutes on a single time line; the
    calendar formatting of `toString` is not modelled. */
module TimePeriods {
  import opened JavaText

  /** A `LocalDateTime`, as minutes since an arbitrary origin. */
  type Instant = int

  datatype TimePeriod = TimePeriod(start: Instant, end: Instant)
  {
    /** The invariant the constructor asserts. */
    predicate Valid()
    {
      start < end
    }
  }

  /** The periods a constructed `TimePeriod` can hold. */
  type ValidPeriod = p: TimePeriod | p.Valid() witness TimePeriod(0, 1)

  /** The constructor: only callable with `start` strictly before `end`,
      and the getters give back exactly what was passed in. */
  function NewTimePeriod(start: Instant, end: Instant): (p: ValidPeriod)
    requires start < end
    ensures p.start == start && p.end == end
  {
    TimePeriod(start, end)
  }

  /** `TimePeriod.equals`: the same start and the same end. */
  function Equals(a: TimePeriod, b: TimePeriod): (r: bool)
    ensures r <==> a == b
  {
    a.start == b.start && a.end == b.end
  }

  /** `equals` is reflexive, symmetric and transitive. */
  lemma EqualsIsEquivalence(a: TimePeriod, b: TimePeriod, c: TimePeriod)
    ensures Equals(a, a)
    ensures Equals(a, b) <==> Equals(b, a)
    ensures Equals(a, b) && Equals(b, c) ==> Equals(a, c)
  {
  }

  /** The hash of one instant. `LocalDateTime.hashCode` is not part of this
      model; the instant's own value, wrapped to an `int`, stands in for it. */
  function InstantHash(t: Instant): Int32
  {
    Wrap32(t)
  }

  /** `TimePeriod.hashCode`: `Objects.hash(start, end)`. */
  function HashCode(p: TimePeriod): Int32
  {
    ArraysHash([InstantHash(p.start), InstantHash(p.end)])
  }

  /** The hash is `31*31 + 31*hash(start) + hash(end)` wrapped to an `int`,
      so it depends on the two instants only and equal periods hash alike. */
  lemma HashCodeFormula(p: TimePeriod, q: TimePeriod)
    ensures HashCode(p) == Wrap32(961 + 31 * InstantHash(p.start) + InstantHash(p.end))
    ensures Equals(p, q) ==> HashCode(p) == HashCode(q)
  {
    var hs := [InstantHash(p.start), InstantHash(p.end)];
    HashStepsIsWrappedPolynomial(1, hs);
    assert hs[..1] == [InstantHash(p.start)];
    assert hs[..1][..0] == [];
    assert Polynomial(1, hs[..1]) == 31 + InstantHash(p.start);
    assert Polynomial(1, hs) == 31 * (31 + InstantHash(p.start)) + InstantHash(p.end);
  }
}
