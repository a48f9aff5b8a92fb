/** The nibble filter (pfmMisp.cpp:586-698) as a function of the grid: a bin
    without real data loses its INTERPOLATED bit when no bin of the square
    neighbourhood of radius `r`, clamped to the grid, holds real data. The
    neighbourhood test reads only the snapshot taken before any bin changes. */
module Nibble {
  import opened Flags
  import opened Records

  /** MAX(i - r, 0) */
  function Low(i: int, r: int): int {
    if i - r > 0 then i - r else 0
  }

  /** MIN(i + r, n - 1) */
  function High(i: int, r: int, n: int): int {
    if i + r < n - 1 then i + r else n - 1
  }

  /** Some bin of the clamped neighbourhood of (i, j) holds real data. */
  ghost predicate DataNear(g: Grid, w: nat, r: int, i: int, j: int)
    requires IsGrid(g, w)
  {
    exists k, m :: Low(i, r) <= k <= High(i, r, |g|) && Low(j, r) <= m <= High(j, r, w) &&
      Has(g[k][m].validity, DATA)
  }

  /** Bin (i, j) is one the filter clears. */
  ghost predicate Nibbled(g: Grid, w: nat, r: int, i: int, j: int)
    requires IsGrid(g, w) && 0 <= i < |g| && 0 <= j < w
  {
    !Has(g[i][j].validity, DATA) && !DataNear(g, w, r, i, j)
  }

  /** The grid after the filter with radius `r`. */
  ghost function Erode(g: Grid, w: nat, r: int): (e: Grid)
    requires IsGrid(g, w)
    ensures |e| == |g| && IsGrid(e, w)
    // only the INTERPOLATED bit of a bin can change ...
    ensures forall i, j :: 0 <= i < |g| && 0 <= j < w ==>
      e[i][j].validity - INTERPOLATED == g[i][j].validity - INTERPOLATED &&
      e[i][j].(validity := g[i][j].validity) == g[i][j]
    // ... and never in a bin with real data
    ensures forall i, j :: 0 <= i < |g| && 0 <= j < w && Has(g[i][j].validity, DATA) ==> e[i][j] == g[i][j]
  {
    seq(|g|, i requires 0 <= i < |g| =>
      seq(w, j requires 0 <= j < w =>
        if Nibbled(g, w, r, i, j) then g[i][j].(validity := g[i][j].validity - INTERPOLATED) else g[i][j]))
  }

  /** A bin without real data keeps its record when real data lies within the
      radius, and is left without the INTERPOLATED bit otherwise. */
  lemma ErodeAt(g: Grid, w: nat, r: int, i: nat, j: nat)
    requires IsGrid(g, w) && i < |g| && j < w
    ensures !Has(g[i][j].validity, DATA) && DataNear(g, w, r, i, j) ==> Erode(g, w, r)[i][j] == g[i][j]
    ensures !Has(g[i][j].validity, DATA) && !DataNear(g, w, r, i, j) ==>
      !Has(Erode(g, w, r)[i][j].validity, INTERPOLATED)
  {
  }

  /** Clearing INTERPOLATED leaves DATA as it was. */
  lemma DataUnchanged(v: Validity, u: Validity)
    requires v - INTERPOLATED == u - INTERPOLATED
    ensures Has(v, DATA) == Has(u, DATA)
  {
    assert 16 in DATA && 16 !in INTERPOLATED;
    assert v * DATA == (v - INTERPOLATED) * DATA;
    assert u * DATA == (u - INTERPOLATED) * DATA;
  }

  /** The filter sees the same neighbourhoods in a grid whose DATA bits are
      those of `g`. */
  lemma DataNearSameData(g: Grid, e: Grid, w: nat, r: int, i: int, j: int)
    requires IsGrid(g, w) && IsGrid(e, w) && |e| == |g|
    requires forall k, m :: 0 <= k < |g| && 0 <= m < w ==> Has(e[k][m].validity, DATA) == Has(g[k][m].validity, DATA)
    ensures DataNear(e, w, r, i, j) == DataNear(g, w, r, i, j)
  {
    if DataNear(g, w, r, i, j) {
      var k, m :| Low(i, r) <= k <= High(i, r, |g|) && Low(j, r) <= m <= High(j, r, w) &&
        Has(g[k][m].validity, DATA);
      assert Has(e[k][m].validity, DATA);
    }
    if DataNear(e, w, r, i, j) {
      var k, m :| Low(i, r) <= k <= High(i, r, |e|) && Low(j, r) <= m <= High(j, r, w) &&
        Has(e[k][m].validity, DATA);
      assert Has(g[k][m].validity, DATA);
    }
  }

  /** Running the filter a second time (on a fresh snapshot) changes nothing:
      it keeps every DATA bit, so it finds the same neighbourhoods. */
  lemma {:induction false} ErodeIdempotent(g: Grid, w: nat, r: int)
    requires IsGrid(g, w)
    ensures Erode(Erode(g, w, r), w, r) == Erode(g, w, r)
  {
    var e := Erode(g, w, r);
    var e2 := Erode(e, w, r);
    forall k, m | 0 <= k < |g| && 0 <= m < w
      ensures Has(e[k][m].validity, DATA) == Has(g[k][m].validity, DATA)
    {
      DataUnchanged(e[k][m].validity, g[k][m].validity);
    }
    forall i | 0 <= i < |g|
      ensures e2[i] == e[i]
    {
      forall j | 0 <= j < w
        ensures e2[i][j] == e[i][j]
      {
        DataNearSameData(g, e, w, r, i, j);
        assert e[i][j].validity - INTERPOLATED == g[i][j].validity - INTERPOLATED;
      }
    }
  }

  /** A larger radius finds real data in more neighbourhoods: every bin
      cleared with radius r2 is cleared with any smaller radius r1. */
  lemma {:induction false} ErodeMonotone(g: Grid, w: nat, r1: int, r2: int, i: nat, j: nat)
    requires IsGrid(g, w) && i < |g| && j < w
    requires r1 <= r2
    ensures Nibbled(g, w, r2, i, j) ==> Nibbled(g, w, r1, i, j)
    ensures !Has(Erode(g, w, r2)[i][j].validity, INTERPOLATED) ==> !Has(Erode(g, w, r1)[i][j].validity, INTERPOLATED)
  {
    if DataNear(g, w, r1, i, j) {
      var k, m :| Low(i, r1) <= k <= High(i, r1, |g|) && Low(j, r1) <= m <= High(j, r1, w) &&
        Has(g[k][m].validity, DATA);
      assert Low(i, r2) <= k <= High(i, r2, |g|) && Low(j, r2) <= m <= High(j, r2, w);
    }
  }
}
