/**
 * Features: a fixed collection of geometries, a Natural Earth dataset and the
 * GSHHS shoreline dataset, with their drawing keyword arguments, the GSHHS
 * constructor's validation, its scale resolution, and the geometry requests
 * that go through the two shared caches.
 */
module Features {
  import opened Wrappers
  import opened Geometry
  import opened GshhsScale
  import opened GeometryCache

  /** A drawing keyword value: a string such as a colour name, or any other value the model does not interpret. */
  datatype Value = Str(s: string) | Other(id: nat)

  /** Keyword arguments for drawing a feature. */
  type Kwargs = map<string, Value>

  datatype Error =
    | UnknownScale(scale: string)
    | UnknownLevels(levels: set<int>)

  /**
   * The three kinds of feature. Their fields are set when they are built and
   * never changed afterwards.
   */
  datatype Feature<G> =
    | ShapelyFeature(geoms: seq<G>, kwargs: Kwargs)
    | NaturalEarthFeature(category: string, name: string, scale: string, kwargs: Kwargs)
    | GshhsFeature(scale: string, levels: set<int>, kwargs: Kwargs)

  /** Key of the Natural Earth cache: `(name, category, scale)`. */
  datatype NaturalEarthKey = NaturalEarthKey(name: string, category: string, scale: string)

  /** Key of the GSHHS cache: a resolution letter and a level. */
  datatype GshhsKey = GshhsKey(scale: char, level: int)

  /** The scale spellings the GSHHS constructor accepts: six names and their one-letter forms. */
  const GshhsScales: set<string> :=
    {"auto", "a", "coarse", "c", "low", "l", "intermediate", "i", "high", "h", "full", "f"}

  /** The GSHHS levels that exist. */
  const KnownLevels: set<int> := {1, 2, 3, 4}

  predicate IsGshhsScale(scale: string)
  {
    scale in GshhsScales
  }

  /** A feature as its constructor leaves it. */
  predicate ValidFeature<G>(f: Feature<G>)
  {
    f.GshhsFeature? ==> IsGshhsScale(f.scale) && f.levels <= KnownLevels
  }

  lemma TwelveSpellings()
    ensures |GshhsScales| == 12
  {
  }

  /**
   * `dict.setdefault`: `key` gets `default` only when it has no value yet;
   * every value already present is kept.
   */
  function SetDefault(kwargs: Kwargs, key: string, default: Value): (r: Kwargs)
    ensures r.Keys == kwargs.Keys + {key}
    ensures forall k :: k in kwargs ==> r[k] == kwargs[k]
    ensures key !in kwargs ==> r[key] == default
  {
    if key in kwargs then kwargs else kwargs[key := default]
  }

  /** The levels requested: `[1]` when none are given, otherwise the given ones with duplicates collapsed. */
  function LevelSet(levels: Option<seq<int>>): (r: set<int>)
    ensures levels.None? ==> r == {1}
    ensures levels.Some? ==> forall l :: l in r <==> l in levels.value
  {
    if levels.None? then {1} else set l | l in levels.value
  }

  /** The level set never has more members than the list given: duplicates collapse. */
  lemma {:induction false} LevelSetSize(levels: seq<int>)
    ensures |LevelSet(Some(levels))| <= |levels|
  {
    if levels != [] {
      LevelSetSize(levels[1..]);
      assert LevelSet(Some(levels)) == LevelSet(Some(levels[1..])) + {levels[0]};
    }
  }

  /**
   * The GSHHS constructor, whose scale defaults to "auto" and whose levels
   * default to none given. An unknown scale spelling is rejected first, then any
   * level outside 1..4; otherwise the feature keeps the scale, the level set and
   * the caller's keyword arguments, with `edgecolor='black'` and
   * `facecolor='none'` filled in where the caller gave none.
   */
  method NewGshhsFeature<G>(kwargs: Kwargs, scale: string := "auto", levels: Option<seq<int>> := None)
    returns (r: Result<Feature<G>, Error>)
    ensures r.Success? <==> IsGshhsScale(scale) && LevelSet(levels) <= KnownLevels
    ensures !IsGshhsScale(scale) ==> r == Failure(UnknownScale(scale))
    ensures IsGshhsScale(scale) && !(LevelSet(levels) <= KnownLevels) ==>
      r == Failure(UnknownLevels(LevelSet(levels) - KnownLevels))
    ensures r.Success? ==>
      && ValidFeature(r.value)
      && r.value.GshhsFeature?
      && r.value.scale == scale
      && r.value.levels == LevelSet(levels)
    ensures r.Success? ==>
      && r.value.kwargs.Keys == kwargs.Keys + {"edgecolor", "facecolor"}
      && (forall k :: k in kwargs ==> r.value.kwargs[k] == kwargs[k])
      && ("edgecolor" !in kwargs ==> r.value.kwargs["edgecolor"] == Str("black"))
      && ("facecolor" !in kwargs ==> r.value.kwargs["facecolor"] == Str("none"))
  {
    if !IsGshhsScale(scale) {
      return Failure(UnknownScale(scale));
    }
    var levelSet := LevelSet(levels);
    var unknown := levelSet - KnownLevels;
    if unknown != {} {
      return Failure(UnknownLevels(unknown));
    }
    var kw := kwargs;
    kw := SetDefault(kw, "edgecolor", Str("black"));
    kw := SetDefault(kw, "facecolor", Str("none"));
    r := Success(GshhsFeature(scale, levelSet, kw));
  }

  /** A GSHHS feature built without a scale or levels is an automatic coastline feature. */
  method DefaultGshhsFeature<G>(kwargs: Kwargs) returns (r: Result<Feature<G>, Error>)
    ensures r.Success? && r.value.GshhsFeature?
    ensures r.value.scale == "auto" && r.value.levels == {1}
  {
    r := NewGshhsFeature(kwargs);
  }

  /** The scale spellings that choose the resolution from the extent. */
  predicate IsAuto(scale: string)
  {
    scale == "auto" || scale == "a"
  }

  /**
   * The resolution letter a GSHHS request uses: from the extent for an
   * automatic scale, otherwise the first letter of the spelling.
   */
  function ResolveScale(scale: string, extent: Option<Extent>): (r: char)
    requires IsGshhsScale(scale)
    ensures r in Resolutions
  {
    if IsAuto(scale) then ScaleOf(extent) else scale[0]
  }

  /**
   * A fixed scale does not depend on the extent, and its one-letter form is
   * also accepted and resolves to the same letter.
   */
  lemma FixedScaleResolution(scale: string, e1: Option<Extent>, e2: Option<Extent>)
    requires IsGshhsScale(scale) && !IsAuto(scale)
    ensures IsGshhsScale([scale[0]]) && !IsAuto([scale[0]])
    ensures ResolveScale([scale[0]], e1) == ResolveScale(scale, e2)
  {
  }

  /** The resolution as the request code computes it: only the spelling "auto" is automatic. */
  function ResolveScaleAsWritten(scale: string, extent: Option<Extent>): (r: char)
    requires IsGshhsScale(scale)
    ensures r in Resolutions <==> scale != "a"
  {
    if scale == "auto" then ScaleOf(extent) else scale[0]
  }

  /** The accepted spelling "a" resolves, as written, to the letter 'a', which is no GSHHS resolution. */
  lemma AutoAliasMisresolved(extent: Option<Extent>)
    ensures IsGshhsScale("a")
    ensures ResolveScaleAsWritten("a", extent) == 'a' && 'a' !in Resolutions
  {
  }

  /** For every other accepted spelling the code as written and the corrected rule agree. */
  lemma AsWrittenAgreesElsewhere(scale: string, extent: Option<Extent>)
    requires IsGshhsScale(scale) && scale != "a"
    ensures ResolveScaleAsWritten(scale, extent) == ResolveScale(scale, extent)
  {
  }

  /** The geometries of the levels in `order` at resolution `scale`, level after level. */
  function Gathered<G>(load: GshhsKey -> seq<G>, scale: char, order: seq<int>): (r: seq<G>)
  {
    if order == [] then []
    else Gathered(load, scale, order[..|order| - 1]) + load(GshhsKey(scale, order[|order| - 1]))
  }

  /** A geometry is gathered exactly when one of the levels holds it. */
  lemma {:induction false} GatheredMembers<G>(load: GshhsKey -> seq<G>, scale: char, order: seq<int>, g: G)
    ensures g in Gathered(load, scale, order) <==> exists l :: l in order && g in load(GshhsKey(scale, l))
  {
    if order != [] {
      var init, last := order[..|order| - 1], order[|order| - 1];
      GatheredMembers(load, scale, init, g);
      assert order == init + [last];
    }
  }

  /**
   * What a GSHHS request yields: exactly the geometries of the requested levels
   * that pass the extent filter.
   */
  lemma GshhsSelection<G>(load: GshhsKey -> seq<G>, scale: char, order: seq<int>,
                          extent: Option<Extent>, intersects: (Box, G) -> bool, g: G)
    ensures g in Filter(Gathered(load, scale, order), extent, intersects) <==>
      Keeps(extent, intersects, g) && exists l :: l in order && g in load(GshhsKey(scale, l))
  {
    FilterMembers(Gathered(load, scale, order), extent, intersects, g);
    GatheredMembers(load, scale, order, g);
  }

  /** Requesting one more level appends that level's filtered geometries. */
  lemma GatheredStep<G>(load: GshhsKey -> seq<G>, scale: char, order: seq<int>, level: int,
                        extent: Option<Extent>, intersects: (Box, G) -> bool)
    ensures Filter(Gathered(load, scale, order + [level]), extent, intersects) ==
      Filter(Gathered(load, scale, order), extent, intersects) + Filter(load(GshhsKey(scale, level)), extent, intersects)
  {
    assert (order + [level])[..|order|] == order;
    FilterAppend(Gathered(load, scale, order), load(GshhsKey(scale, level)), extent, intersects);
  }

  /** The cache keys of the levels in `order` at resolution `scale`. */
  function LevelKeys(scale: char, order: seq<int>): (r: set<GshhsKey>)
  {
    if order == [] then {} else LevelKeys(scale, order[..|order| - 1]) + {GshhsKey(scale, order[|order| - 1])}
  }

  /** The first `i + 1` elements are the first `i` followed by the next one. */
  lemma PrefixStep(order: seq<int>, i: int)
    requires 0 <= i < |order|
    ensures order[..i + 1] == order[..i] + [order[i]]
  {
  }

  /** One more level adds exactly that level's key. */
  lemma LevelKeysStep(scale: char, order: seq<int>, level: int)
    ensures LevelKeys(scale, order + [level]) == LevelKeys(scale, order) + {GshhsKey(scale, level)}
  {
    assert (order + [level])[..|order|] == order;
  }

  /** A key is among the levels' keys exactly when it has their scale and one of the levels. */
  lemma {:induction false} LevelKeysMembers(scale: char, order: seq<int>, k: GshhsKey)
    ensures k in LevelKeys(scale, order) <==> k.scale == scale && k.level in order
  {
    if order != [] {
      var init, last := order[..|order| - 1], order[|order| - 1];
      LevelKeysMembers(scale, init, k);
      assert order == init + [last];
    }
  }

  /** `order` lists every element of `levels` exactly once. */
  ghost predicate Enumerates(order: seq<int>, levels: set<int>)
  {
    && (forall l :: l in order <==> l in levels)
    && (forall i, j :: 0 <= i < j < |order| ==> order[i] != order[j])
  }

  /** The inner loop of the GSHHS request: one level's geometries that pass the extent filter, in order. */
  method KeepIntersecting<G>(levelGeoms: seq<G>, extent: Option<Extent>, intersects: (Box, G) -> bool)
    returns (kept: seq<G>)
    ensures kept == Filter(levelGeoms, extent, intersects)
  {
    kept := [];
    var i := 0;
    while i < |levelGeoms|
      invariant 0 <= i <= |levelGeoms|
      invariant kept == Filter(levelGeoms[..i], extent, intersects)
    {
      var g := levelGeoms[i];
      FilterAppend(levelGeoms[..i], [g], extent, intersects);
      assert levelGeoms[..i + 1] == levelGeoms[..i] + [g];
      if extent.None? || intersects(BoxOf(extent.value), g) {
        kept := kept + [g];
      }
      i := i + 1;
    }
    assert levelGeoms[..i] == levelGeoms;
  }

  /** One level of the GSHHS request: its geometries from the cache, filtered by the extent. */
  method GatherLevel<G>(scale: char, level: int, extent: Option<Extent>,
                        cache: GeomCache<GshhsKey, G>, intersects: (Box, G) -> bool)
    returns (kept: seq<G>)
    requires cache.Valid()
    modifies cache
    ensures cache.Valid()
    ensures kept == Filter(cache.load(GshhsKey(scale, level)), extent, intersects)
    ensures cache.entries == old(cache.entries)[GshhsKey(scale, level) := cache.load(GshhsKey(scale, level))]
    ensures cache.entries.Keys == old(cache.entries).Keys + {GshhsKey(scale, level)}
    ensures old(cache.loads) <= cache.loads
    ensures GshhsKey(scale, level) in old(cache.entries) ==> cache.loads == old(cache.loads)
    ensures GshhsKey(scale, level) !in old(cache.entries) ==> cache.loads == old(cache.loads) + [GshhsKey(scale, level)]
  {
    var levelGeoms := cache.Fetch(GshhsKey(scale, level));
    kept := KeepIntersecting(levelGeoms, extent, intersects);
  }

  /**
   * The loop over the requested levels at a resolved scale, in the order
   * `order` the level set is iterated in: take each level's geometries from
   * the cache, reading them on a miss, and keep those that pass the extent
   * filter.
   */
  method GatherLevels<G>(scale: char, order: seq<int>, extent: Option<Extent>,
                         cache: GeomCache<GshhsKey, G>, intersects: (Box, G) -> bool)
    returns (geoms: seq<G>)
    requires cache.Valid()
    modifies cache
    ensures cache.Valid()
    ensures geoms == Filter(Gathered(cache.load, scale, order), extent, intersects)
    ensures forall k :: k in cache.entries <==> k in old(cache.entries) || (k.scale == scale && k.level in order)
    ensures forall k :: k in old(cache.entries) ==> cache.entries[k] == old(cache.entries)[k]
    ensures old(cache.loads) <= cache.loads
  {
    geoms := [];
    var i := 0;
    while i < |order|
      invariant 0 <= i <= |order|
      invariant cache.Valid()
      invariant geoms == Filter(Gathered(cache.load, scale, order[..i]), extent, intersects)
      invariant cache.entries.Keys == old(cache.entries).Keys + LevelKeys(scale, order[..i])
      invariant old(cache.loads) <= cache.loads
    {
      var level := order[i];
      var kept := GatherLevel(scale, level, extent, cache, intersects);
      geoms := geoms + kept;
      PrefixStep(order, i);
      GatheredStep(cache.load, scale, order[..i], level, extent, intersects);
      LevelKeysStep(scale, order[..i], level);
      i := i + 1;
    }
    assert order[..i] == order;
    forall k ensures k in cache.entries <==> k in old(cache.entries) || (k.scale == scale && k.level in order) {
      LevelKeysMembers(scale, order, k);
    }
  }

  /**
   * The GSHHS request: resolve the scale, automatic spellings from the
   * extent, then gather the requested levels at that scale. `order` is the
   * order in which the feature's level set is iterated, which the model takes
   * as given.
   */
  method GshhsIntersectingGeometries<G>(f: Feature<G>, extent: Option<Extent>, order: seq<int>,
                                        cache: GeomCache<GshhsKey, G>, intersects: (Box, G) -> bool)
    returns (geoms: seq<G>)
    requires f.GshhsFeature? && ValidFeature(f)
    requires Enumerates(order, f.levels)
    requires cache.Valid()
    modifies cache
    ensures cache.Valid()
    ensures geoms == Filter(Gathered(cache.load, ResolveScale(f.scale, extent), order), extent, intersects)
    ensures forall k :: k in cache.entries <==>
      k in old(cache.entries) || (k.scale == ResolveScale(f.scale, extent) && k.level in f.levels)
    ensures forall k :: k in old(cache.entries) ==> cache.entries[k] == old(cache.entries)[k]
    ensures old(cache.loads) <= cache.loads
  {
    var scale: char;
    if IsAuto(f.scale) {
      scale := ScaleFromExtent(extent);
    } else {
      scale := f.scale[0];
    }
    geoms := GatherLevels(scale, order, extent, cache, intersects);
  }

  /** A GSHHS feature's geometries: every geometry of every requested level, at the scale for no extent. */
  method GshhsGeometries<G>(f: Feature<G>, order: seq<int>, cache: GeomCache<GshhsKey, G>, intersects: (Box, G) -> bool)
    returns (geoms: seq<G>)
    requires f.GshhsFeature? && ValidFeature(f)
    requires Enumerates(order, f.levels)
    requires cache.Valid()
    modifies cache
    ensures cache.Valid()
    ensures geoms == Gathered(cache.load, ResolveScale(f.scale, None), order)
    ensures forall k :: k in cache.entries <==>
      k in old(cache.entries) || (k.scale == ResolveScale(f.scale, None) && k.level in f.levels)
    ensures forall k :: k in old(cache.entries) ==> cache.entries[k] == old(cache.entries)[k]
    ensures old(cache.loads) <= cache.loads
  {
    geoms := GshhsIntersectingGeometries(f, None, order, cache, intersects);
  }

  function NaturalEarthKeyOf<G>(f: Feature<G>): (k: NaturalEarthKey)
    requires f.NaturalEarthFeature?
  {
    NaturalEarthKey(f.name, f.category, f.scale)
  }

  /**
   * A Natural Earth feature's geometries, through the shared cache: the
   * dataset is read only on the first request for its key.
   */
  method NaturalEarthGeometries<G>(f: Feature<G>, cache: GeomCache<NaturalEarthKey, G>)
    returns (geoms: seq<G>)
    requires f.NaturalEarthFeature?
    requires cache.Valid()
    modifies cache
    ensures cache.Valid()
    ensures geoms == cache.load(NaturalEarthKeyOf(f))
    ensures NaturalEarthKeyOf(f) in cache.entries
    ensures NaturalEarthKeyOf(f) in old(cache.entries) ==>
      cache.entries == old(cache.entries) && cache.loads == old(cache.loads)
    ensures NaturalEarthKeyOf(f) !in old(cache.entries) ==>
      && cache.entries == old(cache.entries)[NaturalEarthKeyOf(f) := geoms]
      && cache.loads == old(cache.loads) + [NaturalEarthKeyOf(f)]
  {
    geoms := cache.Fetch(NaturalEarthKey(f.name, f.category, f.scale));
  }

  /**
   * `intersecting_geometries` on any feature: the feature's geometries that
   * pass the extent filter. Fixed collections and Natural Earth datasets use
   * the common filter over their geometries; GSHHS features use their own
   * per-level request.
   */
  method IntersectingGeometries<G>(f: Feature<G>, extent: Option<Extent>, order: seq<int>,
                                   naturalEarth: GeomCache<NaturalEarthKey, G>,
                                   gshhs: GeomCache<GshhsKey, G>,
                                   intersects: (Box, G) -> bool)
    returns (geoms: seq<G>)
    requires ValidFeature(f)
    requires f.GshhsFeature? ==> Enumerates(order, f.levels)
    requires naturalEarth.Valid() && gshhs.Valid()
    modifies naturalEarth, gshhs
    ensures naturalEarth.Valid() && gshhs.Valid()
    ensures f.ShapelyFeature? ==>
      && geoms == Filter(f.geoms, extent, intersects)
      && naturalEarth.entries == old(naturalEarth.entries) && naturalEarth.loads == old(naturalEarth.loads)
      && gshhs.entries == old(gshhs.entries) && gshhs.loads == old(gshhs.loads)
    ensures f.NaturalEarthFeature? ==>
      && geoms == Filter(naturalEarth.load(NaturalEarthKeyOf(f)), extent, intersects)
      && naturalEarth.entries == old(naturalEarth.entries)[NaturalEarthKeyOf(f) := naturalEarth.load(NaturalEarthKeyOf(f))]
      && naturalEarth.loads == old(naturalEarth.loads) +
           (if NaturalEarthKeyOf(f) in old(naturalEarth.entries) then [] else [NaturalEarthKeyOf(f)])
      && gshhs.entries == old(gshhs.entries) && gshhs.loads == old(gshhs.loads)
    ensures f.GshhsFeature? ==>
      && geoms == Filter(Gathered(gshhs.load, ResolveScale(f.scale, extent), order), extent, intersects)
      && (forall k :: k in gshhs.entries <==>
            k in old(gshhs.entries) || (k.scale == ResolveScale(f.scale, extent) && k.level in f.levels))
      && (forall k :: k in old(gshhs.entries) ==> gshhs.entries[k] == old(gshhs.entries)[k])
      && old(gshhs.loads) <= gshhs.loads
      && naturalEarth.entries == old(naturalEarth.entries) && naturalEarth.loads == old(naturalEarth.loads)
  {
    match f {
      case ShapelyFeature(fixed, _) =>
        geoms := Filter(fixed, extent, intersects);
      case NaturalEarthFeature(_, _, _, _) =>
        var all := NaturalEarthGeometries(f, naturalEarth);
        geoms := Filter(all, extent, intersects);
      case GshhsFeature(_, _, _) =>
        geoms := GshhsIntersectingGeometries(f, extent, order, gshhs, intersects);
    }
  }
}
