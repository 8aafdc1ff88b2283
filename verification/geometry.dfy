/**
 * Extents, the box built from them, and the extent filter that every feature
 * applies to its geometries. Geometries are of an arbitrary type `G`; whether a
 * box meets a geometry is decided by the geometry library, so it is passed in
 * as the function `intersects`.
 */
module Geometry {
  import opened Wrappers

  /** A lon/lat extent `(x0, x1, y0, y1)` as the feature methods receive it. */
  datatype Extent = Extent(x0: real, x1: real, y0: real, y1: real)

  /** A rectangle in the geometry library's argument order `(minx, miny, maxx, maxy)`. */
  datatype Box = Box(minX: real, minY: real, maxX: real, maxY: real)

  /** The box a feature builds from an extent: `box(x0, y0, x1, y1)`. */
  function BoxOf(e: Extent): (b: Box)
    ensures b.minX == e.x0 && b.maxX == e.x1
    ensures b.minY == e.y0 && b.maxY == e.y1
  {
    Box(e.x0, e.y0, e.x1, e.y1)
  }

  /** Whether `g` passes the extent filter: always without an extent, otherwise
      exactly when the extent's box intersects it. */
  function Keeps<G>(extent: Option<Extent>, intersects: (Box, G) -> bool, g: G): (kept: bool)
    ensures extent.None? ==> kept
    ensures extent.Some? ==>
      var e := extent.value;
      (kept <==> intersects(Box(e.x0, e.y0, e.x1, e.y1), g))
  {
    extent.None? || intersects(BoxOf(extent.value), g)
  }

  /** `r` is `s` with some elements dropped and the rest kept in order. */
  ghost predicate Subsequence<G>(r: seq<G>, s: seq<G>)
    decreases |s|
  {
    if r == [] then true
    else if s == [] then false
    else (r[0] == s[0] && Subsequence(r[1..], s[1..])) || Subsequence(r, s[1..])
  }

  /**
   * The geometries of `s` that pass the extent filter, in their original order;
   * without an extent nothing is dropped. `FilterOrder` says that the order is
   * kept and `FilterCount` that nothing that passes is dropped.
   */
  function Filter<G>(s: seq<G>, extent: Option<Extent>, intersects: (Box, G) -> bool): (r: seq<G>)
    ensures forall i :: 0 <= i < |r| ==> Keeps(extent, intersects, r[i])
    ensures extent.None? ==> r == s
  {
    if s == [] then []
    else
      var rest := Filter(s[1..], extent, intersects);
      assert s == [s[0]] + s[1..];
      if Keeps(extent, intersects, s[0]) then [s[0]] + rest else rest
  }

  /** The filtered geometries appear in the input's order. */
  lemma {:induction false} FilterOrder<G>(s: seq<G>, extent: Option<Extent>, intersects: (Box, G) -> bool)
    ensures Subsequence(Filter(s, extent, intersects), s)
  {
    if s != [] {
      FilterOrder(s[1..], extent, intersects);
    }
  }

  /** Each geometry that passes the filter is kept as often as it occurs in `s`; any other is dropped. */
  lemma {:induction false} FilterCount<G>(s: seq<G>, extent: Option<Extent>, intersects: (Box, G) -> bool, g: G)
    ensures multiset(Filter(s, extent, intersects))[g] == if Keeps(extent, intersects, g) then multiset(s)[g] else 0
  {
    if s != [] {
      FilterCount(s[1..], extent, intersects, g);
      assert s == [s[0]] + s[1..];
    }
  }

  /** A geometry is in the filtered sequence exactly when it is in the input and passes the filter. */
  lemma FilterMembers<G>(s: seq<G>, extent: Option<Extent>, intersects: (Box, G) -> bool, g: G)
    ensures g in Filter(s, extent, intersects) <==> g in s && Keeps(extent, intersects, g)
  {
    var r := Filter(s, extent, intersects);
    FilterCount(s, extent, intersects, g);
    assert g in r <==> multiset(r)[g] > 0;
    assert g in s <==> multiset(s)[g] > 0;
  }

  /** Filtering distributes over concatenation, so a stream of geometries can be filtered piecewise. */
  lemma {:induction false} FilterAppend<G>(a: seq<G>, b: seq<G>, extent: Option<Extent>, intersects: (Box, G) -> bool)
    ensures Filter(a + b, extent, intersects) == Filter(a, extent, intersects) + Filter(b, extent, intersects)
  {
    if a == [] {
      assert a + b == b;
    } else {
      var ab := a + b;
      assert ab[0] == a[0] && ab[1..] == a[1..] + b;
      FilterAppend(a[1..], b, extent, intersects);
    }
  }
}
