/**
 * The GSHHS resolution chosen for a lon/lat extent: the smaller side of the
 * extent is compared against a table of upper limits, coarsest first.
 */
module GshhsScale {
  import opened Wrappers
  import opened Geometry

  /** The five GSHHS resolution letters, from coarse to full. */
  const Resolutions: seq<char> := ['c', 'l', 'i', 'h', 'f']

  /** Each letter with the smallest side, in degrees, above which it is chosen. */
  const ScaleLimits: seq<(char, real)> := [('c', 20.0), ('l', 10.0), ('i', 2.0), ('h', 0.5), ('f', 0.1)]

  /** How fine a resolution letter is: its position in `Resolutions`. */
  function Fineness(c: char): (n: nat)
    requires c in Resolutions
    ensures n < |Resolutions| && Resolutions[n] == c
  {
    if c == 'c' then 0 else if c == 'l' then 1 else if c == 'i' then 2 else if c == 'h' then 3 else 4
  }

  function Abs(x: real): (r: real)
    ensures r >= 0.0 && (r == x || r == -x)
  {
    if x < 0.0 then -x else x
  }

  /** The smaller of the extent's width and height, each taken as an absolute difference. */
  function MinExtent(e: Extent): (m: real)
    ensures m >= 0.0
    ensures m <= Abs(e.x1 - e.x0) && m <= Abs(e.y1 - e.y0)
    ensures m == Abs(e.x1 - e.x0) || m == Abs(e.y1 - e.y0)
  {
    var width := Abs(e.x1 - e.x0);
    var height := Abs(e.y1 - e.y0);
    if height < width then height else width
  }

  /** The resolution band a nonzero smallest side falls into, stated band by band. */
  function Band(m: real): (s: char)
    ensures s in Resolutions
  {
    if m > 20.0 then 'c'
    else if m > 10.0 then 'l'
    else if m > 2.0 then 'i'
    else if m > 0.5 then 'h'
    else 'f'
  }

  /** The resolution for an optional extent: coarse without an extent or for a degenerate one. */
  function ScaleOf(extent: Option<Extent>): (s: char)
    ensures s in Resolutions
  {
    if extent.None? then 'c'
    else
      var m := MinExtent(extent.value);
      if m == 0.0 then 'c' else Band(m)
  }

  /**
   * The table walk: start from coarse and, for a nonzero smallest side, take
   * each letter in turn until the side exceeds that letter's limit; when it
   * exceeds none, the last letter stays.
   */
  method ScaleFromExtent(extent: Option<Extent>) returns (scale: char)
    ensures scale == ScaleOf(extent)
  {
    scale := 'c';
    if extent.Some? {
      var e := extent.value;
      var width := Abs(e.x1 - e.x0);
      var height := Abs(e.y1 - e.y0);
      var minExtent := if height < width then height else width;
      if minExtent != 0.0 {
        var i := 0;
        while i < |ScaleLimits|
          invariant 0 <= i <= |ScaleLimits|
          invariant forall j :: 0 <= j < i ==> minExtent <= ScaleLimits[j].1
          invariant i == 0 ==> scale == 'c'
          invariant i > 0 ==> scale == ScaleLimits[i - 1].0
        {
          scale := ScaleLimits[i].0;
          if minExtent > ScaleLimits[i].1 {
            break;
          }
          i := i + 1;
        }
      }
    }
  }

  /** Without an extent, or with one of zero width or height, the coarse scale is used. */
  lemma CoarseWhenDegenerate(extent: Option<Extent>)
    requires extent.None? || MinExtent(extent.value) == 0.0
    ensures ScaleOf(extent) == 'c'
  {
  }

  /**
   * For a nonzero smallest side `m` the bands are: above 20 coarse, above 10 low,
   * above 2 intermediate, above 0.5 high, and full below that, including every
   * side at or under the table's last limit of 0.1.
   */
  lemma Bands(e: Extent)
    requires MinExtent(e) != 0.0
    ensures var m, s := MinExtent(e), ScaleOf(Some(e));
      && (s == 'c' <==> m > 20.0)
      && (s == 'l' <==> 10.0 < m <= 20.0)
      && (s == 'i' <==> 2.0 < m <= 10.0)
      && (s == 'h' <==> 0.5 < m <= 2.0)
      && (s == 'f' <==> m <= 0.5)
  {
  }

  /** A smaller nonzero extent never yields a coarser resolution. */
  lemma Monotone(e1: Extent, e2: Extent)
    requires 0.0 < MinExtent(e1) <= MinExtent(e2)
    ensures Fineness(ScaleOf(Some(e1))) >= Fineness(ScaleOf(Some(e2)))
  {
  }
}
