/** Which soundings of a bin are fed to the interpolation engine
    (pfmMisp.cpp:350-448). */
module Selection {
  import opened Flags
  import opened Records

  /** The tolerance test fabs(z - target) < MISP_EPS; the value of MISP_EPS
      belongs to the engine, so it is a parameter here. */
  predicate Matches(z: real, target: real, eps: real) {
    -eps < z - target < eps
  }

  /** None of INVAL, DELETED and REFERENCE is set. */
  predicate Usable(s: Sounding) {
    !Has(s.validity, UNUSABLE)
  }

  predicate Candidate(s: Sounding, target: real, eps: real) {
    Usable(s) && Matches(s.z, target, eps)
  }

  /** The usable soundings of `ds`, in their order. */
  function UsableSoundings(ds: seq<Sounding>): (r: seq<Sounding>)
    ensures |r| <= |ds|
    ensures forall s :: s in r ==> s in ds && Usable(s)
  {
    if ds == [] then []
    else
      var last := ds[|ds| - 1];
      UsableSoundings(ds[..|ds| - 1]) + (if Usable(last) then [last] else [])
  }

  /** The first candidate of `ds` for `target`, as a sequence of zero or one. */
  function FirstMatch(ds: seq<Sounding>, target: real, eps: real): (r: seq<Sounding>)
    ensures |r| <= 1
    ensures r != [] ==> r[0] in ds && Candidate(r[0], target, eps)
  {
    if ds == [] then []
    else if Candidate(ds[0], target, eps) then [ds[0]]
    else FirstMatch(ds[1..], target, eps)
  }

  /** The soundings of one bin that the load phase forwards, by surface mode. */
  function SelectedSoundings(surface: int, bin: BinRecord, ds: seq<Sounding>, eps: real): (r: seq<Sounding>)
    ensures bin.numSoundings == 0 ==> r == []
    ensures forall s :: s in r ==> s in ds && Usable(s)
    ensures surface != ALL_DEPTHS_SURFACE ==> |r| <= 1
    ensures surface == MIN_FILTERED_SURFACE && r != [] ==> Matches(r[0].z, bin.minFilteredDepth, eps)
    ensures surface == MAX_FILTERED_SURFACE && r != [] ==> Matches(r[0].z, bin.maxFilteredDepth, eps)
  {
    if bin.numSoundings == 0 then []
    else if surface == ALL_DEPTHS_SURFACE then UsableSoundings(ds)
    else if surface == MIN_FILTERED_SURFACE then FirstMatch(ds, bin.minFilteredDepth, eps)
    else if surface == MAX_FILTERED_SURFACE then FirstMatch(ds, bin.maxFilteredDepth, eps)
    else []
  }

  /** Filtering distributes over concatenation, so the usable soundings keep
      their relative order. */
  lemma {:induction false} UsableSoundingsAppend(a: seq<Sounding>, b: seq<Sounding>)
    ensures UsableSoundings(a + b) == UsableSoundings(a) + UsableSoundings(b)
    decreases |b|
  {
    if b == [] {
      assert a + b == a;
    } else {
      var b' := b[..|b| - 1];
      assert (a + b)[..|a + b| - 1] == a + b';
      UsableSoundingsAppend(a, b');
    }
  }

  /** Every usable sounding of the bin is forwarded in all-depths mode. */
  lemma {:induction false} UsableSoundingsComplete(ds: seq<Sounding>, s: Sounding)
    requires s in ds && Usable(s)
    ensures s in UsableSoundings(ds)
    decreases |ds|
  {
    var last := ds[|ds| - 1];
    if s != last {
      var k :| 0 <= k < |ds| && ds[k] == s;
      assert ds[..|ds| - 1][k] == s;
      UsableSoundingsComplete(ds[..|ds| - 1], s);
    }
  }

  /** When every sounding is usable, all of them are forwarded unchanged. */
  lemma {:induction false} UsableSoundingsAll(ds: seq<Sounding>)
    requires forall k :: 0 <= k < |ds| ==> Usable(ds[k])
    ensures UsableSoundings(ds) == ds
    decreases |ds|
  {
    if ds != [] {
      UsableSoundingsAll(ds[..|ds| - 1]);
      assert ds[..|ds| - 1] + [ds[|ds| - 1]] == ds;
    }
  }

  /** In all-depths mode a bin with soundings forwards exactly its usable
      soundings. */
  lemma AllDepthsForwardsUsable(bin: BinRecord, ds: seq<Sounding>, eps: real, s: Sounding)
    requires bin.numSoundings != 0
    ensures s in SelectedSoundings(ALL_DEPTHS_SURFACE, bin, ds, eps) <==> s in ds && Usable(s)
  {
    if s in ds && Usable(s) {
      UsableSoundingsComplete(ds, s);
    }
  }

  /** The sounding FirstMatch picks is the candidate of least index. */
  lemma {:induction false} FirstMatchAt(ds: seq<Sounding>, target: real, eps: real, k: nat)
    requires k < |ds| && Candidate(ds[k], target, eps)
    requires forall j :: 0 <= j < k ==> !Candidate(ds[j], target, eps)
    ensures FirstMatch(ds, target, eps) == [ds[k]]
    decreases k
  {
    if k > 0 {
      assert !Candidate(ds[0], target, eps);
      FirstMatchAt(ds[1..], target, eps, k - 1);
    }
  }

  /** FirstMatch is empty exactly when the bin holds no candidate. */
  lemma {:induction false} FirstMatchNone(ds: seq<Sounding>, target: real, eps: real)
    ensures FirstMatch(ds, target, eps) == [] <==> forall k :: 0 <= k < |ds| ==> !Candidate(ds[k], target, eps)
    decreases |ds|
  {
    if ds != [] {
      FirstMatchNone(ds[1..], target, eps);
      assert forall k :: 1 <= k < |ds| ==> ds[k] == ds[1..][k - 1];
    }
  }

  /** The scan of one bin's soundings as the load loop performs it: in
      all-depths mode every usable sounding is forwarded; in the filtered
      modes the first candidate is forwarded and the scan stops. */
  method ScanBin(surface: int, bin: BinRecord, ds: seq<Sounding>, eps: real) returns (loaded: seq<Sounding>)
    ensures loaded == SelectedSoundings(surface, bin, ds, eps)
  {
    loaded := [];
    if bin.numSoundings == 0 {
      return;
    }
    var found := false;
    var k := 0;
    while k < |ds|
      invariant 0 <= k <= |ds|
      invariant !found
      invariant surface == ALL_DEPTHS_SURFACE ==> loaded == UsableSoundings(ds[..k])
      invariant surface == MIN_FILTERED_SURFACE ==>
        loaded == [] && forall j :: 0 <= j < k ==> !Candidate(ds[j], bin.minFilteredDepth, eps)
      invariant surface == MAX_FILTERED_SURFACE ==>
        loaded == [] && forall j :: 0 <= j < k ==> !Candidate(ds[j], bin.maxFilteredDepth, eps)
      invariant surface !in {MIN_FILTERED_SURFACE, MAX_FILTERED_SURFACE, ALL_DEPTHS_SURFACE} ==> loaded == []
    {
      if surface == ALL_DEPTHS_SURFACE {
        assert ds[..k + 1][..k] == ds[..k];
        if Usable(ds[k]) {
          loaded := loaded + [ds[k]];
        }
      } else if surface == MIN_FILTERED_SURFACE {
        if Candidate(ds[k], bin.minFilteredDepth, eps) {
          loaded := loaded + [ds[k]];
          found := true;
          FirstMatchAt(ds, bin.minFilteredDepth, eps, k);
        }
      } else if surface == MAX_FILTERED_SURFACE {
        if Candidate(ds[k], bin.maxFilteredDepth, eps) {
          loaded := loaded + [ds[k]];
          found := true;
          FirstMatchAt(ds, bin.maxFilteredDepth, eps, k);
        }
      }
      if found {
        break;
      }
      k := k + 1;
    }
    if !found {
      assert ds[..|ds|] == ds;
      FirstMatchNone(ds, bin.minFilteredDepth, eps);
      FirstMatchNone(ds, bin.maxFilteredDepth, eps);
    }
  }

  /** The soundings of every bin, row by row (what read_depth_array_index
      returns for each bin). */
  type DepthGrid = seq<seq<seq<Sounding>>>

  predicate IsDepthGrid(d: DepthGrid, h: nat, w: nat) {
    |d| == h && forall i :: 0 <= i < h ==> |d[i]| == w
  }

  /** The points the load phase forwards from bins (i, 0) .. (i, j - 1). */
  function LoadedFromRow(g: Grid, d: DepthGrid, w: nat, surface: int, eps: real, i: nat, j: nat): (r: seq<Sounding>)
    requires IsGrid(g, w) && IsDepthGrid(d, |g|, w) && i < |g| && j <= w
  {
    if j == 0 then []
    else LoadedFromRow(g, d, w, surface, eps, i, j - 1) + SelectedSoundings(surface, g[i][j - 1], d[i][j - 1], eps)
  }

  /** The points the load phase forwards from rows 0 .. i - 1, in row-major
      order; at most one per bin in the filtered modes. */
  function LoadedFromRows(g: Grid, d: DepthGrid, w: nat, surface: int, eps: real, i: nat): (r: seq<Sounding>)
    requires IsGrid(g, w) && IsDepthGrid(d, |g|, w) && i <= |g|
  {
    if i == 0 then []
    else LoadedFromRows(g, d, w, surface, eps, i - 1) + LoadedFromRow(g, d, w, surface, eps, i - 1, w)
  }

  /** Every point of a row is usable; in the filtered modes a row of j bins
      yields at most j points. */
  lemma {:induction false} LoadedFromRowFacts(g: Grid, d: DepthGrid, w: nat, surface: int, eps: real, i: nat, j: nat)
    requires IsGrid(g, w) && IsDepthGrid(d, |g|, w) && i < |g| && j <= w
    ensures forall s :: s in LoadedFromRow(g, d, w, surface, eps, i, j) ==> Usable(s)
    ensures surface != ALL_DEPTHS_SURFACE ==> |LoadedFromRow(g, d, w, surface, eps, i, j)| <= j
  {
    if j > 0 {
      LoadedFromRowFacts(g, d, w, surface, eps, i, j - 1);
    }
  }

  /** The engine receives only usable soundings. */
  lemma {:induction false} LoadedFromRowsUsable(g: Grid, d: DepthGrid, w: nat, surface: int, eps: real, i: nat)
    requires IsGrid(g, w) && IsDepthGrid(d, |g|, w) && i <= |g|
    ensures forall s :: s in LoadedFromRows(g, d, w, surface, eps, i) ==> Usable(s)
  {
    if i > 0 {
      LoadedFromRowsUsable(g, d, w, surface, eps, i - 1);
      LoadedFromRowFacts(g, d, w, surface, eps, i - 1, w);
    }
  }

  /** In the filtered modes the engine receives at most one point per bin. */
  lemma {:induction false} FilteredLoadsAtMostOnePerBin(g: Grid, d: DepthGrid, w: nat, surface: int, eps: real, i: nat)
    requires IsGrid(g, w) && IsDepthGrid(d, |g|, w) && i <= |g|
    requires surface != ALL_DEPTHS_SURFACE
    ensures |LoadedFromRows(g, d, w, surface, eps, i)| <= i * w
  {
    if i > 0 {
      FilteredLoadsAtMostOnePerBin(g, d, w, surface, eps, i - 1);
      LoadedFromRowFacts(g, d, w, surface, eps, i - 1, w);
      var prev := LoadedFromRows(g, d, w, surface, eps, i - 1);
      var row := LoadedFromRow(g, d, w, surface, eps, i - 1, w);
      assert |prev + row| == |prev| + |row|;
      assert (i - 1) * w + w == i * w;
    }
  }
}
