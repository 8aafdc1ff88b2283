# Cartopy features: scale selection and geometry caches

A Dafny model of cartopy's `feature` module (`lib/cartopy/feature.py`). A
feature is a collection of vector geometries drawn on a map with some drawing
keyword arguments. There are three kinds:

- a fixed collection of geometries (`ShapelyFeature`);
- a Natural Earth dataset, named by category, name and scale (`NaturalEarthFeature`);
- the GSHHS shoreline dataset, at a scale and a set of levels (`GSHHSFeature`).

What is modelled:

- **Extent filter.** `Feature.intersecting_geometries` keeps the geometries
  that intersect the box built from an extent `(x0, x1, y0, y1)`, or all of
  them without an extent. This is `Geometry.Filter`. Lemmas prove that it
  keeps order, keeps exactly what passes, and distributes over concatenation.
- **Scale from extent.** The GSHHS rule that maps the smaller side of an
  extent to one of the resolution letters `c`, `l`, `i`, `h`, `f`. The table
  walk with its early `break` is the method `GshhsScale.ScaleFromExtent`. It
  is proved equal to the band definition `GshhsScale.Band`. Further lemmas
  cover the coarse default, the band boundaries and monotonicity.
- **GSHHS constructor.** `Features.NewGshhsFeature` checks the scale
  spelling, defaults and checks the levels, and fills in the drawing
  defaults. It returns a `Result` in place of raising `ValueError`.
- **Scale resolution.** `Features.ResolveScale` picks the letter for a
  request. The code as written resolves the accepted spelling `"a"` wrongly;
  see Findings.
- **Caches.** The two memoising dictionaries are instances of one class,
  `GeometryCache.GeomCache`: the Natural Earth cache keyed by
  `(name, category, scale)` and the GSHHS cache keyed by `(scale, level)`.
  `Fetch` reads on a miss and reuses on a hit. A ghost log of reads, with the
  invariant `Valid()`, shows three things: every key is read at most once,
  every entry equals what the reader gives for its key, and other keys are
  never touched.
- **Geometry requests.** `Features.NaturalEarthGeometries` serves Natural
  Earth data through its cache. `Features.GshhsIntersectingGeometries` serves
  a GSHHS request: resolve the scale, then for each level take that level's
  geometries from the cache and filter them. `Features.IntersectingGeometries`
  dispatches over the three feature kinds.

Foreign inputs are parameters:

- Geometries are values of an arbitrary type `G`.
- The geometry library's intersection test is the function `intersects`.
- Reading a shapefile is the function `load`, fixed for each cache. The
  datasets on disk are taken not to change while the program runs.

## Model

| member | source | states |
|---|---|---|
| `Geometry.BoxOf` | lib/cartopy/feature.py:91-92 | the box spans `x0..x1` horizontally and `y0..y1` vertically, so `box` receives the extent's values in the order `extent[0], extent[2], extent[1], extent[3]` |
| `Geometry.Keeps` | lib/cartopy/feature.py:93-94 | with no extent every geometry passes; with an extent a geometry passes if and only if it intersects the box `(x0, y0, x1, y1)` |
| `Geometry.Filter` | lib/cartopy/feature.py:82-96 | every kept geometry intersects the extent's box `(x0, y0, x1, y1)`; with no extent the geometries come back unchanged |
| `Geometry.FilterOrder` | lib/cartopy/feature.py:93-94 | the kept geometries are a subsequence of the input, in its order |
| `Geometry.FilterCount` | lib/cartopy/feature.py:90-96 | each geometry that passes is kept as many times as it occurs in the input; every other geometry is dropped |
| `Geometry.FilterMembers` | lib/cartopy/feature.py:90-96 | a geometry is in the result if and only if it is in the input and passes the filter |
| `Geometry.FilterAppend` | lib/cartopy/feature.py:280-282 | filtering a concatenation equals concatenating the filtered parts, so the per-level filtering adds up to one filter over all levels |
| `GshhsScale.Abs` | lib/cartopy/feature.py:244-245 | the absolute value is non-negative and equals the value or its negation |
| `GshhsScale.MinExtent` | lib/cartopy/feature.py:244-246 | the smaller side is non-negative, at most both the absolute width and the absolute height, and equal to one of them |
| `GshhsScale.ScaleOf` | lib/cartopy/feature.py:233-252 | the scale chosen for any optional extent is one of `c, l, i, h, f` |
| `GshhsScale.ScaleFromExtent` | lib/cartopy/feature.py:227-252 | walking the limit table with its early `break` gives exactly the band definition: coarse with no extent or a zero side, else the band of the smaller side |
| `GshhsScale.CoarseWhenDegenerate` | lib/cartopy/feature.py:233-247 | with no extent, or an extent whose width or height is zero, the scale is `c` |
| `GshhsScale.Bands` | lib/cartopy/feature.py:238-250 | for a nonzero smaller side `m`: `c` iff `m > 20`, `l` iff `10 < m <= 20`, `i` iff `2 < m <= 10`, `h` iff `0.5 < m <= 2`, `f` iff `m <= 0.5` (so also at or below the last limit, 0.1) |
| `GshhsScale.Monotone` | lib/cartopy/feature.py:238-250 | a smaller nonzero side never gives a coarser letter |
| `GeometryCache.GeomCache.constructor` | lib/cartopy/feature.py:35 | a cache starts empty, has read nothing, and satisfies its invariant |
| `GeometryCache.GeomCache.Fetch` | lib/cartopy/feature.py:161-171 | the result is what the reader gives for the key; afterwards the key is cached; a hit changes nothing and reads nothing; a miss reads once and adds exactly that entry; no key is ever read twice |
| `Features.TwelveSpellings` | lib/cartopy/feature.py:210-211 | exactly twelve scale spellings are accepted |
| `Features.SetDefault` | lib/cartopy/feature.py:224-225 | `setdefault` adds the key, keeps every value already present, and gives the default only to a key that was missing |
| `Features.LevelSet` | lib/cartopy/feature.py:215-217 | with no levels the set is `{1}`; otherwise an integer is in the set if and only if it is in the given list |
| `Features.LevelSetSize` | lib/cartopy/feature.py:217 | the level set has at most as many members as the list given, since duplicates collapse |
| `Features.NewGshhsFeature` | lib/cartopy/feature.py:192-225 | success if and only if the scale is one of the twelve spellings and every level is in 1..4; an unknown scale fails first, naming the scale; otherwise unknown levels fail, naming exactly the levels outside 1..4; the scale defaults to `'auto'`; on success the feature keeps the scale and the level set (default `{1}`, duplicates collapsed), keeps every caller keyword, and adds `edgecolor='black'` and `facecolor='none'` only where they are missing |
| `Features.DefaultGshhsFeature` | lib/cartopy/feature.py:192-217 | built with only keyword arguments, a GSHHS feature succeeds with the scale `'auto'` and the levels `{1}` |
| `Features.ResolveScale` | lib/cartopy/feature.py:264-267 | every accepted spelling resolves to one of `c, l, i, h, f` |
| `Features.FixedScaleResolution` | lib/cartopy/feature.py:264-267 | a fixed scale ignores the extent, and its one-letter form is also accepted and resolves to the same letter |
| `Features.ResolveScaleAsWritten` | lib/cartopy/feature.py:264-267 | the rule as written yields a GSHHS resolution letter if and only if the spelling is not `"a"` |
| `Features.AutoAliasMisresolved` | lib/cartopy/feature.py:264-267 | as written, the accepted spelling `"a"` resolves to the letter `a`, which is not a GSHHS resolution |
| `Features.AsWrittenAgreesElsewhere` | lib/cartopy/feature.py:264-267 | for every accepted spelling other than `"a"`, the code as written and the corrected rule agree |
| `Features.GatheredMembers` | lib/cartopy/feature.py:272-280 | a geometry is among the gathered level geometries if and only if one of the requested levels holds it |
| `Features.GshhsSelection` | lib/cartopy/feature.py:269-282 | a GSHHS request yields a geometry if and only if it passes the extent filter and belongs to a requested level |
| `Features.LevelKeysStep` | lib/cartopy/feature.py:272-279 | handling one more level adds exactly the key `(scale, level)` to the keys the request has cached |
| `Features.LevelKeysMembers` | lib/cartopy/feature.py:272-279 | the cache keys a GSHHS request adds are exactly `(scale, level)` for the requested levels |
| `Features.GatheredStep` | lib/cartopy/feature.py:272-282 | handling one more level appends exactly that level's filtered geometries |
| `Features.KeepIntersecting` | lib/cartopy/feature.py:280-282 | the loop over one level's geometries yields exactly the filtered sequence |
| `Features.GatherLevel` | lib/cartopy/feature.py:273-282 | one level's filtered geometries come from the reader's data for `(scale, level)`; afterwards that key is cached and nothing else changes; the read log is unchanged on a hit and gains exactly `(scale, level)` on a miss |
| `Features.GatherLevels` | lib/cartopy/feature.py:272-282 | the loop over the levels yields the filtered geometries of each level in turn; afterwards the cache holds the old keys plus `(scale, level)` for each requested level, old entries keep their values, and the read log only grows (the invariant forbids reading any key twice) |
| `Features.GshhsIntersectingGeometries` | lib/cartopy/feature.py:258-282 | the same as GatherLevels (result, keys, old values, read log), at the scale that `ResolveScale` picks for the feature's spelling and extent |
| `Features.GshhsGeometries` | lib/cartopy/feature.py:254-256 | with no extent, every cached geometry of every requested level is returned, at the scale for no extent; the cache and its read log change as for GatherLevels |
| `Features.NaturalEarthGeometries` | lib/cartopy/feature.py:155-171 | the result is the reader's data for `(name, category, scale)`; the cache is filled on the first request only and other keys stay the same |
| `Features.IntersectingGeometries` | lib/cartopy/feature.py:82-96 | for a fixed collection or a Natural Earth dataset, the feature's geometries filtered by the extent; for GSHHS, the per-level request, after which the GSHHS cache holds its old keys plus `(scale, level)` for each requested level with old values kept and its read log only grows; the Natural Earth read log gains the key only on a miss; a cache the feature kind does not use keeps its entries and its read log |

## Left out

- Shapefile path resolution and reading (`shapereader.natural_earth`, `shapereader.gshhs`, `shapereader.Reader`) are foreign I/O. They become the `load` function of each cache. The model assumes that re-reading a key gives the same geometries.
- Geometry construction and `intersects` come from the foreign geometry library. The box is a plain record and the intersection test is a parameter.
- CRS objects (`PlateCarree`, the `crs` property) are foreign objects and are not modelled.
- The `_COLOURS` arrays and the module-level features (`BORDERS`, `COASTLINE`, …) are styling data with no logic. A non-string keyword value is the opaque `Value.Other`.
- `ABCMeta` and the abstract `geometries` are language mechanics. The three feature classes become one datatype with three constructors. Their constructors, apart from the GSHHS one, only store their arguments.
- The `kwargs` property returns a copy of the keyword dictionary. In the model a feature's `kwargs` is a map value, so a caller can never change the feature through it. No separate member is needed.
- Generators are modelled as finite sequences. Their laziness is not modelled: a request reads and caches every requested level before anything is consumed.
- Python set iteration order is not specified. The GSHHS request methods take it as an input `order`, which must list each level exactly once. The selection lemmas depend only on which levels are in `order`.
- Floats are modelled as reals. Rounding in the width and height subtractions is not modelled.
- Levels are modelled as integers. The source also accepts values equal to 1..4 that are not integers, such as 1.0 or True, which the model does not represent.
- The GSHHS request methods use the corrected scale rule of the finding below. The behaviour as written is kept in `Features.ResolveScaleAsWritten`.
- lib/cartopy/tests/mpl/test_gridliner.py is an image-comparison test of plotting code that is not part of this model.

## Findings

| source | as written | input that shows it | evidently intended | confidence | as-written member | corrected member |
|---|---|---|---|---|---|---|
| lib/cartopy/feature.py:264-267 | the constructor accepts `'a'` as a scale (line 210), but the request treats only `'auto'` as automatic, so `'a'` resolves to `self._scale[0] == 'a'` | `GSHHSFeature(scale='a')` with any extent: the requested cache key and shapefile are `('a', level)`, and `a` is no GSHHS resolution | `'a'` is the one-letter form of `'auto'` and should choose the scale from the extent | medium; not executed | `Features.AutoAliasMisresolved` | `Features.ResolveScale` |
