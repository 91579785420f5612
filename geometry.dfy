/** Object identity, id-only comparisons, and the hit collection
    (src/geometry/mod.rs). */
module Geometry {
  import opened Vectors
  import opened Rays
  import opened Spheres
  import opened FloatOrd

  datatype Option<T> = None | Some(value: T)

  /** std::cmp::Ordering */
  datatype Ordering = Less | Equal | Greater

  const U64_MODULUS: int := 0x1_0000_0000_0000_0000

  newtype u64 = x: int | 0 <= x < U64_MODULUS

  /** `Id(u64)`, ordered and hashed by its number. */
  datatype Id = Id(n: u64)

  // ---------------------------------------------------------------------------
  // The identity allocator

  /** Id allocation from a counter that starts at 0. `fetch_add` on an
      AtomicU64 wraps around at 2^64, so ids are distinct only while fewer
      than 2^64 have been issued. Only the sequential behaviour is modelled.

      The source declares the counter as an associated `const`, not a
      `static`; every use of a `const` builds a fresh `AtomicU64::new(0)`, so
      as written every `Id::new()` returns Id(0) and `count()` returns 0
      (NewAsWritten below). This class models the evidently intended
      process-wide counter. */
  class IdAllocator {
    var counter: u64
    /** Every id handed out so far, in order. */
    ghost var issued: seq<Id>

    ghost predicate Valid()
      reads this
    {
      IssuedInOrder(issued) && counter as int == |issued| % U64_MODULUS
    }

    constructor ()
      ensures Valid() && issued == [] && counter == 0
    {
      counter := 0;
      issued := [];
    }

    /** `Id::new`: returns the counter's value and advances it by one. */
    method New() returns (id: Id)
      requires Valid()
      modifies this
      ensures Valid()
      ensures id == Id(old(counter))
      ensures counter as int == (old(counter) as int + 1) % U64_MODULUS
      ensures issued == old(issued) + [id]
      ensures |old(issued)| < U64_MODULUS ==> id !in old(issued)
    {
      id := Id(counter);
      counter := ((counter as int + 1) % U64_MODULUS) as u64;
      IssuedFresh(issued);
      issued := issued + [id];
    }

    /** `Id::count`: the number of ids issued so far, modulo 2^64. */
    function Count(): (n: u64)
      requires Valid()
      reads this
      ensures n as int == |issued| % U64_MODULUS
    {
      counter
    }
  }

  /** The i-th id issued is i, modulo 2^64. */
  ghost predicate IssuedInOrder(issued: seq<Id>) {
    forall i :: 0 <= i < |issued| ==> issued[i].n as int == i % U64_MODULUS
  }

  /** While fewer than 2^64 ids have been issued the next id is not among
      them. */
  lemma IssuedFresh(issued: seq<Id>)
    requires IssuedInOrder(issued)
    ensures |issued| < U64_MODULUS ==> Id((|issued| % U64_MODULUS) as u64) !in issued
  {
    if |issued| < U64_MODULUS {
      forall i | 0 <= i < |issued|
        ensures issued[i] != Id((|issued| % U64_MODULUS) as u64)
      {
        assert issued[i].n as int == i;
      }
    }
  }

  /** Up to 2^64 allocations, the ids issued are strictly increasing and so
      pairwise distinct. */
  lemma IssuedIncreasing(issued: seq<Id>)
    requires IssuedInOrder(issued) && |issued| <= U64_MODULUS
    ensures forall i, j :: 0 <= i < j < |issued| ==> issued[i].n < issued[j].n
  {
    forall i, j | 0 <= i < j < |issued|
      ensures issued[i].n < issued[j].n
    {
      assert issued[i].n as int == i && issued[j].n as int == j;
    }
  }

  /** `Id::new` as written: naming the `const` counter builds a fresh
      `AtomicU64::new(0)`, and the fetch-and-increment acts on that fresh
      counter. */
  method NewAsWritten() returns (id: Id)
    ensures id == Id(0)
  {
    var counter := new IdAllocator();
    id := counter.New();
  }

  /** `Id::count` as written: a load from a fresh counter. */
  method CountAsWritten() returns (n: u64)
    ensures n == 0
  {
    var counter := new IdAllocator();
    n := counter.Count();
  }

  // ---------------------------------------------------------------------------
  // Objects and their id-only comparisons

  /** `Object<S>`: a shape bound to an id. */
  datatype Object<S> = Object(id: Id, shape: S)

  /** `Object::new` (and `Shape::into_object`): the shape with a fresh id. */
  method NewObject<S>(alloc: IdAllocator, shape: S) returns (o: Object<S>)
    requires alloc.Valid()
    modifies alloc
    ensures alloc.Valid()
    ensures o.shape == shape
    ensures o.id == Id(old(alloc.counter))
    ensures alloc.issued == old(alloc.issued) + [o.id]
    ensures |old(alloc.issued)| < U64_MODULUS ==> o.id !in old(alloc.issued)
  {
    var id := alloc.New();
    o := Object(id, shape);
  }

  /** `Object::new` as written, twice: both objects get their id from a
      fresh counter, so they share an id and compare equal, whatever their
      shapes. */
  method AsWrittenObjectsCollide<S>(a: S, b: S) returns (oa: Object<S>, ob: Object<S>)
    ensures oa.shape == a && ob.shape == b
    ensures ObjectEq(oa, ob)
  {
    var ida := NewAsWritten();
    oa := Object(ida, a);
    var idb := NewAsWritten();
    ob := Object(idb, b);
  }

  /** The derived `Ord` on Id. */
  function CompareIds(a: Id, b: Id): Ordering {
    if a.n < b.n then Less else if a.n == b.n then Equal else Greater
  }

  function Reverse(o: Ordering): Ordering {
    match o
    case Less => Greater
    case Equal => Equal
    case Greater => Less
  }

  /** CompareIds is a total order consistent with equality of ids. */
  lemma CompareIdsTotalOrder(a: Id, b: Id, c: Id)
    ensures CompareIds(a, b) == Equal <==> a == b
    ensures CompareIds(b, a) == Reverse(CompareIds(a, b))
    ensures CompareIds(a, b) == Less && CompareIds(b, c) == Less ==> CompareIds(a, c) == Less
  {}

  /** `PartialEq for Object<S>` */
  predicate ObjectEq<S>(a: Object<S>, b: Object<S>) {
    a.id == b.id
  }

  /** `Ord for Object<S>` */
  function ObjectCmp<S>(a: Object<S>, b: Object<S>): Ordering {
    CompareIds(a.id, b.id)
  }

  /** `PartialOrd for Object<S>`: the id's partial_cmp, which is always
      defined. */
  function ObjectPartialCmp<S>(a: Object<S>, b: Object<S>): Option<Ordering> {
    Some(CompareIds(a.id, b.id))
  }

  /** `Hash for Object<S>`: the values fed to the hasher. */
  function ObjectHash<S>(o: Object<S>): seq<Id> {
    [o.id]
  }

  /** Equality, ordering and hashing of objects look at the id alone. */
  lemma ObjectComparisonsIgnoreShape<S>(a: Object<S>, b: Object<S>, s: S, t: S)
    ensures ObjectEq(a, b) <==> ObjectEq(Object(a.id, s), Object(b.id, t))
    ensures ObjectCmp(a, b) == ObjectCmp(Object(a.id, s), Object(b.id, t))
    ensures ObjectPartialCmp(a, b) == ObjectPartialCmp(Object(a.id, s), Object(b.id, t))
    ensures ObjectHash(a) == ObjectHash(Object(a.id, s))
  {}

  /** Two objects are equal exactly when their ids are, so objects with the
      same shape and different ids are unequal; equal objects hash alike and
      compare Equal, and partial_cmp agrees with cmp. */
  lemma ObjectEqIsIdEq<S>(a: Object<S>, b: Object<S>)
    ensures ObjectEq(a, b) <==> a.id == b.id
    ensures ObjectEq(a, a)
    ensures a.shape == b.shape && a.id != b.id ==> !ObjectEq(a, b)
    ensures ObjectCmp(a, b) == Equal <==> ObjectEq(a, b)
    ensures ObjectEq(a, b) ==> ObjectHash(a) == ObjectHash(b)
    ensures ObjectPartialCmp(a, b) == Some(ObjectCmp(a, b))
  {}

  // ---------------------------------------------------------------------------
  // The Hittable capability, type-erased

  /** A `dyn Hittable`: an object of any shape kind, seen only through `id()`
      and `intersect()`. The sphere is the only shape kind. */
  datatype Hittable = SphereObject(obj: Object<Sphere>)

  /** `Hittable::id` */
  function HittableId(h: Hittable): Id {
    match h
    case SphereObject(o) => o.id
  }

  /** `Hittable::intersect` */
  function HittableIntersect(h: Hittable, ray: Ray, sqrt: real --> real): SortedHits
    requires IsSqrt(sqrt)
  {
    match h
    case SphereObject(o) => ObjectIntersect(o, ray, sqrt)
  }

  /** `PartialEq for dyn Hittable` */
  predicate DynEq(a: Hittable, b: Hittable) {
    HittableId(a) == HittableId(b)
  }

  /** `Ord for dyn Hittable` */
  function DynCmp(a: Hittable, b: Hittable): Ordering {
    CompareIds(HittableId(a), HittableId(b))
  }

  /** `PartialOrd for dyn Hittable`: `Some(self.cmp(other))`. */
  function DynPartialCmp(a: Hittable, b: Hittable): Option<Ordering> {
    Some(DynCmp(a, b))
  }

  /** `Hash for dyn Hittable`: the values fed to the hasher. */
  function DynHash(h: Hittable): seq<Id> {
    [HittableId(h)]
  }

  /** Through the type-erased view, comparisons are by id only and agree
      with the object's own: partial_cmp is always defined, so the order is
      total. */
  lemma DynComparisonsById(a: Hittable, b: Hittable, c: Hittable)
    ensures DynEq(a, b) <==> HittableId(a) == HittableId(b)
    ensures DynEq(a, a)
    ensures DynEq(a, b) <==> ObjectEq(a.obj, b.obj)
    ensures DynCmp(a, b) == ObjectCmp(a.obj, b.obj)
    ensures DynPartialCmp(a, b) == Some(DynCmp(a, b))
    ensures DynCmp(a, b) == Equal <==> DynEq(a, b)
    ensures DynCmp(b, a) == Reverse(DynCmp(a, b))
    ensures DynCmp(a, b) == Less && DynCmp(b, c) == Less ==> DynCmp(a, c) == Less
    ensures DynEq(a, b) ==> DynHash(a) == DynHash(b)
  {
    CompareIdsTotalOrder(HittableId(a), HittableId(b), HittableId(c));
  }

  // ---------------------------------------------------------------------------
  // The hit collection

  /** `HitContext`: the back-reference to the object hit, held as its id. */
  datatype HitContext = HitContext(objHit: Id)

  /** One (key, context) pair of the multimap. */
  datatype Entry = Entry(key: Total, ctx: HitContext)

  /** `Hits`: the ordered multimap, as its entries in iteration order. */
  datatype Hits = Hits(inner: seq<Entry>)

  ghost predicate SortedByKey(s: seq<Entry>) {
    forall i, j :: 0 <= i < j < |s| ==> s[i].key.value <= s[j].key.value
  }

  /** The collections a BTreeMap can hold: entries in key order. Every Hits
      the model builds has this type. */
  type SortedHits = h: Hits | SortedByKey(h.inner) witness Hits([])

  /** The multimap's insert: after every entry with a key not greater than
      the new one's, so entries with equal keys keep their insertion order. */
  function Insert(s: seq<Entry>, e: Entry): (r: seq<Entry>)
    ensures multiset(r) == multiset(s) + multiset{e}
  {
    if |s| == 0 then [e]
    else if s[0].key.value <= e.key.value then
      assert s == [s[0]] + s[1..];
      [s[0]] + Insert(s[1..], e)
    else
      [e] + s
  }

  /** Inserting into a sorted sequence keeps it sorted. */
  lemma {:induction false} InsertSorted(s: seq<Entry>, e: Entry)
    requires SortedByKey(s)
    ensures SortedByKey(Insert(s, e))
  {
    if |s| > 0 && s[0].key.value <= e.key.value {
      var rest := Insert(s[1..], e);
      InsertSorted(s[1..], e);
      forall x | x in rest ensures s[0].key.value <= x.key.value {
        assert x in multiset(rest);
        if x != e {
          assert x in multiset(s[1..]);
        }
      }
      assert Insert(s, e) == [s[0]] + rest;
    }
  }

  /** The entries of the multimap built from `es`, inserted one by one. */
  function Build(es: seq<Entry>): (r: seq<Entry>)
    ensures multiset(r) == multiset(es)
    ensures SortedByKey(r)
  {
    if |es| == 0 then []
    else
      assert es == es[..|es| - 1] + [es[|es| - 1]];
      InsertSorted(Build(es[..|es| - 1]), es[|es| - 1]);
      Insert(Build(es[..|es| - 1]), es[|es| - 1])
  }

  /** `FromIterator for Hits`: each float becomes a Total key. */
  function Collect(pairs: seq<(real, HitContext)>): SortedHits {
    Hits(Build(ToEntries(pairs)))
  }

  function ToEntries(pairs: seq<(real, HitContext)>): seq<Entry> {
    seq(|pairs|, i requires 0 <= i < |pairs| => Entry(Total(pairs[i].0), pairs[i].1))
  }

  /** The entries of `s` with key k, in order. */
  function WithKey(s: seq<Entry>, k: real): seq<Entry> {
    if |s| == 0 then []
    else (if s[0].key.value == k then [s[0]] else []) + WithKey(s[1..], k)
  }

  lemma {:induction false} WithKeyAppend(a: seq<Entry>, b: seq<Entry>, k: real)
    ensures WithKey(a + b, k) == WithKey(a, k) + WithKey(b, k)
  {
    if |a| == 0 {
      assert a + b == b;
    } else {
      var head := if a[0].key.value == k then [a[0]] else [];
      assert (a + b)[0] == a[0] && (a + b)[1..] == a[1..] + b;
      WithKeyAppend(a[1..], b, k);
      assert WithKey(a + b, k) == head + (WithKey(a[1..], k) + WithKey(b, k));
      ConcatAssoc(head, WithKey(a[1..], k), WithKey(b, k));
    }
  }

  lemma {:induction false} WithKeyAbove(s: seq<Entry>, k: real)
    requires forall i :: 0 <= i < |s| ==> s[i].key.value > k
    ensures WithKey(s, k) == []
  {
    if |s| > 0 {
      WithKeyAbove(s[1..], k);
    }
  }

  /** Inserting into a sorted sequence puts the new entry after the entries
      with the same key. */
  lemma {:induction false} InsertWithKey(s: seq<Entry>, e: Entry, k: real)
    requires SortedByKey(s)
    ensures WithKey(Insert(s, e), k)
         == WithKey(s, k) + (if e.key.value == k then [e] else [])
  {
    if |s| == 0 {
    } else if s[0].key.value <= e.key.value {
      SortedTail(s);
      InsertWithKey(s[1..], e, k);
      InsertPastHead(s, e, k);
    } else {
      WithKeyAppend([e], s, k);
      if e.key.value == k {
        WithKeyAbove(s, k);
      }
    }
  }

  lemma SortedTail(s: seq<Entry>)
    requires |s| > 0 && SortedByKey(s)
    ensures SortedByKey(s[1..])
  {
    forall i, j | 0 <= i < j < |s[1..]| ensures s[1..][i].key.value <= s[1..][j].key.value {
      assert s[1..][i] == s[i + 1] && s[1..][j] == s[j + 1];
    }
  }

  /** The step of InsertWithKey where the new entry goes past the head. */
  lemma InsertPastHead(s: seq<Entry>, e: Entry, k: real)
    requires |s| > 0 && s[0].key.value <= e.key.value
    requires WithKey(Insert(s[1..], e), k) == WithKey(s[1..], k) + (if e.key.value == k then [e] else [])
    ensures WithKey(Insert(s, e), k) == WithKey(s, k) + (if e.key.value == k then [e] else [])
  {
    var rest, ins := Insert(s[1..], e), Insert(s, e);
    var head := if s[0].key.value == k then [s[0]] else [];
    assert ins == [s[0]] + rest;
    assert ins[0] == s[0] && ins[1..] == rest;
    assert WithKey(ins, k) == head + WithKey(rest, k);
    assert WithKey(s, k) == head + WithKey(s[1..], k);
    ConcatAssoc(head, WithKey(s[1..], k), if e.key.value == k then [e] else []);
  }

  lemma ConcatAssoc<T>(a: seq<T>, b: seq<T>, c: seq<T>)
    ensures a + (b + c) == (a + b) + c
  {}

  /** Building keeps, for every key, the entries with that key in the order
      they were given: together with sortedness this makes Build a stable
      sort by key. */
  lemma {:induction false} BuildStable(es: seq<Entry>, k: real)
    ensures WithKey(Build(es), k) == WithKey(es, k)
  {
    if |es| > 0 {
      var init, last := es[..|es| - 1], es[|es| - 1];
      assert es == init + [last];
      BuildStable(init, k);
      InsertWithKey(Build(init), last, k);
      WithKeyAppend(init, [last], k);
    }
  }

  /** A sequence already sorted by key is built unchanged. */
  lemma {:induction false} BuildSorted(es: seq<Entry>)
    requires SortedByKey(es)
    ensures Build(es) == es
  {
    if |es| > 0 {
      var init, last := es[..|es| - 1], es[|es| - 1];
      BuildSorted(init);
      InsertLast(init, last);
      assert init + [last] == es;
    }
  }

  lemma {:induction false} InsertLast(s: seq<Entry>, e: Entry)
    requires forall i :: 0 <= i < |s| ==> s[i].key.value <= e.key.value
    ensures Insert(s, e) == s + [e]
  {
    if |s| > 0 {
      InsertLast(s[1..], e);
      assert s == [s[0]] + s[1..];
    }
  }

  /** The multimap's `range`: its entries whose key lies in the range, in
      iteration order. */
  function RangeEntries(s: seq<Entry>, fr: FloatRange): seq<Entry> {
    if |s| == 0 then []
    else (if KeyInFloatRange(fr, s[0].key) then [s[0]] else []) + RangeEntries(s[1..], fr)
  }

  function ToPair(e: Entry): (real, HitContext) {
    (e.key.value, e.ctx)
  }

  /** `hits_between`: the (parameter, context) pairs whose parameter lies in
      `r`, in the collection's order. */
  function HitsBetween(h: Hits, r: Range<real>): seq<(real, HitContext)> {
    var es := RangeEntries(h.inner, FloatRange(r));
    seq(|es|, i requires 0 <= i < |es| => ToPair(es[i]))
  }

  /** `hit`: the first pair with a parameter of at least 0. */
  function Hit(h: Hits): Option<(real, HitContext)> {
    var hs := HitsBetween(h, Range(Included(0.0), Unbounded));
    if |hs| == 0 then None else Some(hs[0])
  }

  /** The entries of `s` whose float lies in `r`, by RangeBounds::contains:
      the reference the range query is checked against. */
  function Select(s: seq<Entry>, r: Range<real>): seq<(real, HitContext)> {
    if |s| == 0 then []
    else (if Contains(r, s[0].key.value) then [ToPair(s[0])] else []) + Select(s[1..], r)
  }

  /** `hits_between(r)` is exactly the selection of the entries whose
      parameter lies in r, in order. */
  lemma {:induction false} HitsBetweenIsSelect(h: Hits, r: Range<real>)
    ensures HitsBetween(h, r) == Select(h.inner, r)
  {
    RangeEntriesSelect(h.inner, r);
  }

  lemma {:induction false} RangeEntriesSelect(s: seq<Entry>, r: Range<real>)
    ensures Select(s, r) == seq(|RangeEntries(s, FloatRange(r))|,
                                i requires 0 <= i < |RangeEntries(s, FloatRange(r))| =>
                                  ToPair(RangeEntries(s, FloatRange(r))[i]))
  {
    if |s| > 0 {
      RangeEntriesSelect(s[1..], r);
      KeyInFloatRangeIff(r, s[0].key.value);
    }
  }

  /** The selection holds exactly the pairs of the entries whose parameter
      lies in r. */
  lemma {:induction false} SelectMembers(s: seq<Entry>, r: Range<real>)
    ensures forall p :: p in Select(s, r) <==>
              exists i :: 0 <= i < |s| && Contains(r, s[i].key.value) && p == ToPair(s[i])
  {
    if |s| > 0 {
      SelectMembers(s[1..], r);
      forall p | p in Select(s, r)
        ensures exists i :: 0 <= i < |s| && Contains(r, s[i].key.value) && p == ToPair(s[i])
      {
        if !(Contains(r, s[0].key.value) && p == ToPair(s[0])) {
          assert p in Select(s[1..], r);
          var i :| 0 <= i < |s[1..]| && Contains(r, s[1..][i].key.value) && p == ToPair(s[1..][i]);
          assert s[1..][i] == s[i + 1];
        }
      }
      forall p | exists i :: 0 <= i < |s| && Contains(r, s[i].key.value) && p == ToPair(s[i])
        ensures p in Select(s, r)
      {
        var i :| 0 <= i < |s| && Contains(r, s[i].key.value) && p == ToPair(s[i]);
        if i > 0 {
          assert s[1..][i - 1] == s[i];
        }
      }
    }
  }

  /** The selection is empty exactly when no parameter lies in r; otherwise
      its first pair is that of the first entry whose parameter lies in r. */
  lemma {:induction false} SelectFirst(s: seq<Entry>, r: Range<real>)
    ensures |Select(s, r)| == 0 <==> forall i :: 0 <= i < |s| ==> !Contains(r, s[i].key.value)
    ensures |Select(s, r)| > 0 ==>
              exists i :: 0 <= i < |s| && Contains(r, s[i].key.value) && Select(s, r)[0] == ToPair(s[i])
                       && forall j :: 0 <= j < i ==> !Contains(r, s[j].key.value)
  {
    if |s| > 0 && !Contains(r, s[0].key.value) {
      SelectFirst(s[1..], r);
      if |Select(s, r)| > 0 {
        var i :| 0 <= i < |s[1..]| && Contains(r, s[1..][i].key.value) && Select(s[1..], r)[0] == ToPair(s[1..][i])
                 && forall j :: 0 <= j < i ==> !Contains(r, s[1..][j].key.value);
        assert s[1..][i] == s[i + 1];
        forall j | 0 <= j < i + 1 ensures !Contains(r, s[j].key.value) {
          if j > 0 {
            assert s[1..][j - 1] == s[j];
          }
        }
      } else {
        forall i | 0 <= i < |s| ensures !Contains(r, s[i].key.value) {
          if i > 0 {
            assert s[1..][i - 1] == s[i];
          }
        }
      }
    }
  }

  /** From entries sorted by key, the selection is in non-decreasing order of
      parameter. */
  lemma {:induction false} SelectSorted(s: seq<Entry>, r: Range<real>)
    requires SortedByKey(s)
    ensures forall i, j :: 0 <= i < j < |Select(s, r)| ==> Select(s, r)[i].0 <= Select(s, r)[j].0
  {
    if |s| > 0 {
      SelectSorted(s[1..], r);
      SelectMembers(s[1..], r);
      var rest := Select(s[1..], r);
      forall p | p in rest ensures s[0].key.value <= p.0 {
        var i :| 0 <= i < |s[1..]| && Contains(r, s[1..][i].key.value) && p == ToPair(s[1..][i]);
        assert s[1..][i] == s[i + 1];
      }
    }
  }

  /** `hits_between(r)` yields exactly the entries whose parameter lies in r,
      in non-decreasing order of parameter; on an empty collection it yields
      nothing. */
  lemma HitsBetweenSpec(h: SortedHits, r: Range<real>)
    ensures forall p :: p in HitsBetween(h, r) <==>
              exists i :: 0 <= i < |h.inner| && Contains(r, h.inner[i].key.value) && p == ToPair(h.inner[i])
    ensures forall i, j :: 0 <= i < j < |HitsBetween(h, r)| ==> HitsBetween(h, r)[i].0 <= HitsBetween(h, r)[j].0
    ensures h.inner == [] ==> HitsBetween(h, r) == []
  {
    HitsBetweenIsSelect(h, r);
    SelectMembers(h.inner, r);
    SelectSorted(h.inner, r);
  }

  /** `hit()` is None exactly when no parameter is at least 0 (in particular
      on an empty collection); otherwise it is the pair of the first entry
      with a parameter of at least 0, whose parameter is the smallest such. */
  lemma HitIsNearest(h: SortedHits)
    ensures Hit(h).None? <==> forall i :: 0 <= i < |h.inner| ==> h.inner[i].key.value < 0.0
    ensures Hit(h).Some? ==>
              exists i :: 0 <= i < |h.inner| && h.inner[i].key.value >= 0.0 && Hit(h).value == ToPair(h.inner[i])
                       && forall j :: 0 <= j < i ==> h.inner[j].key.value < 0.0
    ensures Hit(h).Some? ==>
              Hit(h).value.0 >= 0.0 &&
              forall i :: 0 <= i < |h.inner| && h.inner[i].key.value >= 0.0 ==> Hit(h).value.0 <= h.inner[i].key.value
  {
    var fwd := Range(Included(0.0), Unbounded);
    HitsBetweenIsSelect(h, fwd);
    SelectFirst(h.inner, fwd);
    ForwardRangeBounds();
    if Hit(h).Some? {
      var i :| 0 <= i < |h.inner| && Contains(fwd, h.inner[i].key.value) && Select(h.inner, fwd)[0] == ToPair(h.inner[i])
               && forall j :: 0 <= j < i ==> !Contains(fwd, h.inner[j].key.value);
      forall k | 0 <= k < |h.inner| && h.inner[k].key.value >= 0.0
        ensures Hit(h).value.0 <= h.inner[k].key.value
      {
        assert !(k < i);
      }
    }
  }

  // ---------------------------------------------------------------------------
  // Intersection of an object

  /** The parameters a shape returned, each paired with the same context. */
  function WithContext(ts: seq<real>, ctx: HitContext): seq<(real, HitContext)> {
    seq(|ts|, i requires 0 <= i < |ts| => (ts[i], ctx))
  }

  /** `Hittable::intersect for Object<S>`: the shape's parameters, each with a
      context naming this object, collected into a Hits. */
  function ObjectIntersect(o: Object<Sphere>, ray: Ray, sqrt: real --> real): SortedHits
    requires IsSqrt(sqrt)
  {
    Collect(WithContext(Intersect(o.shape, ray, sqrt), HitContext(o.id)))
  }

  /** An object's hits are the shape's parameters, one entry each, in the
      same (ascending) order, every one naming this object; each lies on the
      surface. */
  lemma ObjectIntersectEntries(o: Object<Sphere>, ray: Ray, sqrt: real --> real)
    requires IsSqrt(sqrt)
    ensures var ts := Intersect(o.shape, ray, sqrt);
            var es := ObjectIntersect(o, ray, sqrt).inner;
            |es| == |ts| &&
            (forall i :: 0 <= i < |ts| ==> es[i] == Entry(Total(ts[i]), HitContext(o.id))) &&
            (forall i :: 0 <= i < |es| ==> OnSurface(o.shape, ray, es[i].key.value))
  {
    var ts := Intersect(o.shape, ray, sqrt);
    var es := ToEntries(WithContext(ts, HitContext(o.id)));
    BuildSorted(es);
    assert forall i :: 0 <= i < |ts| ==> ts[i] in ts;
  }

  /** Collecting pairs keeps every pair, equal keys included: the entries
      are a permutation of the pairs, sorted by key, and pairs with equal
      keys keep their order. */
  lemma CollectSpec(pairs: seq<(real, HitContext)>)
    ensures multiset(Collect(pairs).inner) == multiset(ToEntries(pairs))
    ensures SortedByKey(Collect(pairs).inner)
    ensures forall k :: WithKey(Collect(pairs).inner, k) == WithKey(ToEntries(pairs), k)
  {
    forall k ensures WithKey(Collect(pairs).inner, k) == WithKey(ToEntries(pairs), k) {
      BuildStable(ToEntries(pairs), k);
    }
  }
}
