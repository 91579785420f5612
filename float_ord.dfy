/** Range bounds over floats and their translation to the totally ordered key
    type the hit collection is keyed by (src/util/float_ord.rs).

    Floats are modelled as reals. decorum's `Total<f32>` is a total order on
    floats; with NaN excluded and -0.0 equal to 0.0 it is the order of the
    reals, so a key is a real in a wrapper. */
module FloatOrd {

  /** std::ops::Bound */
  datatype Bound<T> = Included(value: T) | Excluded(value: T) | Unbounded

  /** A range given by its two bounds, as std::ops::RangeBounds exposes it:
      `a..b` is Range(Included(a), Excluded(b)), `a..` is
      Range(Included(a), Unbounded), `..=b` is Range(Unbounded, Included(b)). */
  datatype Range<T> = Range(start: Bound<T>, end: Bound<T>)

  /** decorum's Total<f32>: the key type of the hit collection. */
  datatype Total = Total(value: real)

  /** RangeBounds::contains for a range over floats. */
  predicate Contains(r: Range<real>, x: real) {
    (match r.start
     case Included(s) => s <= x
     case Excluded(s) => s < x
     case Unbounded => true)
    &&
    (match r.end
     case Included(e) => x <= e
     case Excluded(e) => x < e
     case Unbounded => true)
  }

  /** `map_bound`: re-wraps the payload of a bound, keeping its kind. */
  function MapBound<T, U>(bound: Bound<T>, f: T -> U): (r: Bound<U>)
    ensures r.Included? <==> bound.Included?
    ensures r.Excluded? <==> bound.Excluded?
    ensures r.Unbounded? <==> bound.Unbounded?
    ensures !bound.Unbounded? ==> r.value == f(bound.value)
  {
    match bound
    case Included(v) => Included(f(v))
    case Excluded(v) => Excluded(f(v))
    case Unbounded => Unbounded
  }

  lemma MapBoundIdentity<T>(bound: Bound<T>)
    ensures MapBound(bound, (x: T) => x) == bound
  {}

  lemma MapBoundCompose<T, U, V>(bound: Bound<T>, f: T -> U, g: U -> V)
    ensures MapBound(MapBound(bound, f), g) == MapBound(bound, (x: T) => g(f(x)))
  {}

  /** `FloatRange`: a float range seen as a range over Total keys. Its
      constructor `FloatRange::new` stores the inner range unchanged. */
  datatype FloatRange = FloatRange(inner: Range<real>)

  /** `ConstrainedFloat::from_ref` */
  function ToTotal(x: real): Total {
    Total(x)
  }

  function StartBound(fr: FloatRange): Bound<Total> {
    MapBound(fr.inner.start, ToTotal)
  }

  function EndBound(fr: FloatRange): Bound<Total> {
    MapBound(fr.inner.end, ToTotal)
  }

  /** Membership of a key in a range over keys, by the order of Total: the
      test the ordered multimap's range search applies. */
  predicate KeyInRange(start: Bound<Total>, end: Bound<Total>, k: Total) {
    (match start
     case Included(s) => s.value <= k.value
     case Excluded(s) => s.value < k.value
     case Unbounded => true)
    &&
    (match end
     case Included(e) => k.value <= e.value
     case Excluded(e) => k.value < e.value
     case Unbounded => true)
  }

  predicate KeyInFloatRange(fr: FloatRange, k: Total) {
    KeyInRange(StartBound(fr), EndBound(fr), k)
  }

  /** The bounds of FloatRange(r) have the kinds and the values of r's. */
  lemma FloatRangeBounds(r: Range<real>)
    ensures StartBound(FloatRange(r)).Included? <==> r.start.Included?
    ensures StartBound(FloatRange(r)).Excluded? <==> r.start.Excluded?
    ensures EndBound(FloatRange(r)).Included? <==> r.end.Included?
    ensures EndBound(FloatRange(r)).Excluded? <==> r.end.Excluded?
    ensures !r.start.Unbounded? ==> StartBound(FloatRange(r)).value.value == r.start.value
    ensures !r.end.Unbounded? ==> EndBound(FloatRange(r)).value.value == r.end.value
  {}

  /** A wrapped key lies in FloatRange(r) exactly when its float lies in r. */
  lemma KeyInFloatRangeIff(r: Range<real>, x: real)
    ensures KeyInFloatRange(FloatRange(r), Total(x)) <==> Contains(r, x)
  {}

  /** `0.0..`, the range `hit` queries, has start Included(0) and no end. */
  lemma ForwardRangeBounds()
    ensures StartBound(FloatRange(Range(Included(0.0), Unbounded))) == Included(Total(0.0))
    ensures EndBound(FloatRange(Range(Included(0.0), Unbounded))) == Unbounded
    ensures forall x: real :: Contains(Range(Included(0.0), Unbounded), x) <==> x >= 0.0
  {}
}
