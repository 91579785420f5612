# Hit-testing core of a ray tracer, in Dafny

This project models the hit-testing core of the `ray-tracing` crate and proves properties of the model. It also models the crate's two value containers.

- **Object identity** (`Geometry`). An `IdAllocator` hands out ids from a counter. An `Object` binds a shape to an id. Objects, and objects seen through the type-erased `Hittable` view, are compared, ordered and hashed by id alone.
- **The hit collection** (`Geometry`). `Hits` is an ordered multimap from intersection parameter to the context of the hit. It is modelled as the sequence of its entries in iteration order.
  - Collecting builds it by stable insertion. Its result has the type `SortedHits`, the collections whose entries are in key order, as a BTreeMap's always are.
  - `HitsBetween` is a range query.
  - `Hit` is the nearest non-negative hit.
- **Float ranges** (`FloatOrd`). These are the `Bound`/range adapters that translate a range over floats into a range over the totally ordered keys.
- **Spheres and rays** (`Spheres`, `Rays`, `Vectors`).
  - The ray/sphere intersection by the discriminant of the quadratic.
  - Ray construction with a normalised direction.
  - `trace`.
- **Colours and the canvas** (`Colors`, `Canvas`).
  - Conversion between real channels and 8-bit RGB.
  - A row-major frame buffer whose `SetPixel` overwrites one slot of an array in place.

Floats are modelled as reals. The square root that `f32` provides is an argument `sqrt` of the operations that need it, constrained by `IsSqrt`. `sqrt` is a partial function: it is defined on the non-negative reals, and there it is non-negative and squares back to its argument. It cannot be applied anywhere else, so every call the model makes is shown to receive a non-negative argument. The hit context's back-reference to the object is held as that object's id.

## Model

| member | source | states |
|---|---|---|
| Vectors.Normalize | src/geometry/ray.rs:14 | The normalised vector has squared length 1 (its `UnitVector` type) and is a positive multiple of the input. |
| Rays.New | src/geometry/ray.rs:11-16 | The ray keeps the origin; its direction is unit-length and a positive multiple of the given direction. |
| Rays.FromPoints | src/geometry/ray.rs:18-24 | The ray keeps the origin; its direction is unit-length and a positive multiple of `to - origin`. |
| Rays.TraceAtZero | src/geometry/ray.rs:26-28 | `trace(0)` is the origin. |
| Rays.TraceAffine | src/geometry/ray.rs:26-28 | `trace(s + t) == trace(s) + dir * t`. |
| Rays.TraceDistance | src/geometry/ray.rs:26-28 | With a unit direction, the squared distance from the origin to `trace(t)` is `t^2`. |
| Spheres.Intersect | src/geometry/sphere.rs:34-49 | At most two parameters, in strictly ascending order. A parameter is returned exactly when the ray's point at that parameter lies on the sphere's surface; negative ones are kept. The square root is taken only of a non-negative delta: `sqrt` is partial, and its precondition holds at the one call. |
| Spheres.IntersectCases | src/geometry/sphere.rs:41-46 | Negative delta gives `[]`. Zero delta gives exactly `[-b]`. Positive delta gives `[-b - sqrt(delta), -b + sqrt(delta)]` with the first below the second. |
| Spheres.SurfaceExpansion | src/geometry/sphere.rs:35-38 | For a unit direction, the squared distance from the centre to `orig + t dir`, minus `r^2`, equals `(t + b)^2 - delta`, with `L`, `b`, `k` and `delta` as the source computes them. |
| Spheres.SurfaceRoots | src/geometry/sphere.rs:41-46 | When `q` is the non-negative root of delta, the points on the surface are exactly those at `-b - q` and `-b + q`. |
| Spheres.NoSurfacePoint | src/geometry/sphere.rs:41 | When delta is negative, no point of the ray lies on the surface. |
| Spheres.DefaultSphereIsUnit | src/geometry/sphere.rs:21-28 | The default sphere has its centre at the origin and radius 1. |
| Spheres.UnitSphereFromCentre | src/geometry/sphere.rs:34-49 | A ray from the centre of the unit sphere along +z gives `[-1, 1]`. |
| Spheres.UnitSphereTangent | src/geometry/sphere.rs:41-44 | A ray grazing the unit sphere (delta 0) gives the single parameter `[5]`. |
| Spheres.UnitSphereMiss | src/geometry/sphere.rs:41 | A ray passing above the unit sphere (delta < 0) gives `[]`. |
| FloatOrd.MapBound | src/util/float_ord.rs:42-48 | The result has the same kind of bound; its payload is `f` applied to the original payload. |
| FloatOrd.MapBoundIdentity | src/util/float_ord.rs:42-48 | Mapping the identity leaves a bound unchanged. |
| FloatOrd.MapBoundCompose | src/util/float_ord.rs:42-48 | Mapping `f` then `g` equals mapping `g . f`. |
| FloatOrd.FloatRangeBounds | src/util/float_ord.rs:29-39 | `start_bound`/`end_bound` of a `FloatRange` have the kinds and the values of the inner range's bounds. |
| FloatOrd.KeyInFloatRangeIff | src/util/float_ord.rs:26-40 | A wrapped key lies in `FloatRange(r)` exactly when its float lies in `r`. |
| FloatOrd.ForwardRangeBounds | src/util/float_ord.rs:17-39 | `FloatRange::new(0.0..)` has start `Included(0)`, no end, and contains exactly the non-negative floats. |
| Geometry.IdAllocator.constructor | src/geometry/mod.rs:20 | The counter starts at 0 with nothing issued. |
| Geometry.IdAllocator.New | src/geometry/mod.rs:22-24 | Returns the counter before the increment and advances it by one (mod 2^64). The id is appended to the issued log and differs from every earlier id while fewer than 2^64 have been issued. |
| Geometry.IdAllocator.Count | src/geometry/mod.rs:26-28 | The counter equals the number of ids issued, mod 2^64. |
| Geometry.IssuedFresh | src/geometry/mod.rs:20-28 | While fewer than 2^64 ids have been issued, the next one is not among them. |
| Geometry.IssuedIncreasing | src/geometry/mod.rs:20-28 | Up to 2^64 allocations, the issued ids are strictly increasing and so pairwise distinct. |
| Geometry.NewAsWritten | src/geometry/mod.rs:20-24 | With `COUNTER` a `const`, each call increments a freshly built counter, so `Id::new()` always returns `Id(0)`. |
| Geometry.CountAsWritten | src/geometry/mod.rs:26-28 | With `COUNTER` a `const`, each call loads a freshly built counter, so `Id::count()` always returns 0. |
| Geometry.AsWrittenObjectsCollide | src/geometry/mod.rs:38-41 | Two objects built as written keep their shapes but compare equal, whatever the shapes. |
| Geometry.NewObject | src/geometry/mod.rs:38-41 | The object keeps the given shape and takes the allocator's next id, which is fresh among those issued before. |
| Geometry.CompareIdsTotalOrder | src/geometry/mod.rs:16 | The derived order on ids is total, antisymmetric and transitive, and `Equal` exactly on equal ids. |
| Geometry.ObjectComparisonsIgnoreShape | src/geometry/mod.rs:44-68 | `eq`, `cmp`, `partial_cmp` and `hash` of objects do not depend on the shapes. |
| Geometry.ObjectEqIsIdEq | src/geometry/mod.rs:44-68 | Objects are equal exactly when their ids are, so the same shape with different ids is unequal. `cmp` is `Equal` exactly on equal objects, equal objects hash alike, and `partial_cmp` is `Some(cmp)`. |
| Geometry.DynComparisonsById | src/geometry/mod.rs:103-139 | Through `dyn Hittable`, `eq`, `cmp` and `hash` use `id()` only and agree with the object's own. `partial_cmp` is always `Some(cmp)`, and the order is total. |
| Geometry.Insert | src/geometry/mod.rs:164-169 | Inserting adds exactly one entry: the multiset of entries grows by the new one. |
| Geometry.InsertSorted | src/geometry/mod.rs:164-169 | Inserting into a key-sorted sequence keeps it sorted. |
| Geometry.InsertWithKey | src/geometry/mod.rs:164-169 | Inserting appends the new entry after the existing entries with the same key. |
| Geometry.Build | src/geometry/mod.rs:164-169 | The built multimap holds exactly the given entries, as a multiset, sorted by key. |
| Geometry.BuildStable | src/geometry/mod.rs:164-169 | For every key, the entries with that key keep the order they were given in. |
| Geometry.BuildSorted | src/geometry/mod.rs:164-169 | Entries already sorted by key are built unchanged. |
| Geometry.CollectSpec | src/geometry/mod.rs:164-169 | Collecting keeps every pair, equal keys included (same multiset), sorts them by key, and keeps equal keys in input order. |
| Geometry.HitsBetweenIsSelect | src/geometry/mod.rs:154-161 | `hits_between(r)` equals the in-order selection of the entries whose float lies in `r`. |
| Geometry.SelectMembers | src/geometry/mod.rs:154-161 | The selection holds exactly the pairs of the entries whose parameter lies in `r`. |
| Geometry.SelectFirst | src/geometry/mod.rs:154-161 | The selection is empty exactly when no parameter lies in `r`. Otherwise its first pair is that of the first entry in `r`. |
| Geometry.SelectSorted | src/geometry/mod.rs:154-161 | From key-sorted entries, the selection is in non-decreasing order of parameter. |
| Geometry.HitsBetweenSpec | src/geometry/mod.rs:154-161 | For every collection in key order (`SortedHits`), `hits_between(r)` yields exactly the entries whose key lies in `r`, in non-decreasing key order, and nothing on an empty collection. |
| Geometry.HitIsNearest | src/geometry/mod.rs:147-152 | For every collection in key order, `hit()` is `None` exactly when no key is >= 0 (in particular when empty). Otherwise it is the first entry with key >= 0, and its parameter is the smallest non-negative key. |
| Geometry.ObjectIntersectEntries | src/geometry/mod.rs:81-87 | An object's hits are one entry per parameter the shape returned, with the same values in the same order. Every entry names this object and lies on the surface. |
| Colors.ChannelToByte | src/color.rs:48-52 | The byte is 0 when `256 v < 1` and 255 when `256 v >= 255`. In between it is the integer part of `256 v`. |
| Colors.ByteToChannel | src/color.rs:54-57 | The channel lies in `[0, 1]` and times 255 gives back the byte. |
| Colors.ChannelToByteMonotone | src/color.rs:50 | A brighter channel never gives a smaller byte. |
| Colors.ChannelToByteSaturates | src/color.rs:50 | Channels <= 0 give 0 and channels >= 255/256 give 255. |
| Colors.ChannelRoundTrip | src/color.rs:48-57 | Byte to channel and back gives the same byte. |
| Colors.RgbRoundTrip | src/color.rs:48-57 | `into_rgb(from_rgb(p)) == p` for every byte triple. |
| Colors.FromVectorRoundTrip | src/color.rs:60-64 | `into_inner(Color::from(v)) == v`, and `Color::from(v)` equals `Color::new` of its channels. |
| Colors.IntoRgbExamples | src/color.rs:92-106 | 0 gives 0, 1.0 gives 255 and 0.5 gives 128 on all three channels. |
| Colors.NamedColorsRoundTrip | src/color.rs:19-34 | Each named colour survives the trip through real channels. |
| Canvas.Canvas.constructor | src/canvas.rs:17-22 | A new canvas has the given dimensions and `w * h` pixels, all black. |
| Canvas.Canvas.Default | src/canvas.rs:10-14 | The default canvas is 0 x 0 with an empty buffer. |
| Canvas.Canvas.SetPixel | src/canvas.rs:33-35 | Afterwards `pixel_at` at that pixel gives the colour written. Every other index keeps its colour, and the dimensions and buffer length are unchanged. |
| Canvas.Canvas.IndexInBounds | src/canvas.rs:28-31 | For `x < width` and `y < height` the index is below `width * height`. |
| Canvas.Canvas.IndexInjective | src/canvas.rs:28-31 | Within the width, distinct pixels have distinct indices. |
| Canvas.NewCanvasIsBlack | src/canvas.rs:48-54 | Every pixel of a new canvas within its dimensions is black. |
| Canvas.WriteThenRead | src/canvas.rs:56-62 | On a new canvas, a written pixel reads back as written and every other pixel stays black. |

## Left out

- IEEE-754 detail: f32 rounding, NaN and infinities, and decorum's `Total<f32>` internals. Keys are reals, so -0.0 and 0.0 are one key.
- Square root and normalisation are given by their defining properties (`IsSqrt`), not computed.
- Vectors.Normalize: nalgebra returns NaN components for the zero vector. The model requires a non-zero vector, and `Ray::new`/`Ray::from_points` inherit that requirement.
- Geometry.HitsBetween: the multimap's `range` panics on a range whose start exceeds its end, or whose bounds are equal and both excluded. The model returns the (empty) selection instead.
- Geometry.IdAllocator.New: the atomic, `SeqCst` and thread-safety aspects of the counter are not modelled. The model is a sequential counter.
- Lifetimes and borrowing of `HitContext<'a>`: the back-reference to the object hit is held as that object's id.
- `Debug` formatting and the hasher's mechanics: a hash is modelled as the sequence of values fed to the hasher.
- `Shape` is modelled for its one implementation, the sphere. A type-erased `Hittable` is a datatype with one variant.
- Canvas: `usize` overflow of `x + y * width` and of `width * height` is not modelled.
- Canvas: `Canvas::into_inner` and `Deref`/`DerefMut` for `Color` only expose storage.
- src/util/transform.rs is not part of this model: it is one-line delegations to nalgebra.
- src/prelude.rs is not part of this model: it holds type aliases only.

## Findings

| source | as written | input that shows it | evidently intended | confidence | as-written member | corrected member |
|---|---|---|---|---|---|---|
| src/geometry/mod.rs:20 | `COUNTER` is an associated `const`, so each use builds a fresh `AtomicU64::new(0)`. `Id::new()` therefore always returns `Id(0)` and `Id::count()` always returns 0. | `Object::new(a)` then `Object::new(b)`: both get `Id(0)` and compare equal. | One process-wide counter (a `static`) whose `fetch_add` yields 0, 1, 2, ... | not executed; follows from Rust's `const` semantics | Geometry.AsWrittenObjectsCollide | Geometry.IdAllocator.New |
