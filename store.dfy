/** The PFM store as the surface pipeline sees it, and the pipeline itself
    (pfmMisp::slotCustomButtonClicked, pfmMisp.cpp:279-766): load, fit,
    header, write-back, nibbling and land clearing, each a full row/column
    scan that completes before the next begins. */
module Store {
  import opened Flags
  import opened Records
  import opened Selection
  import opened WriteBack
  import opened Nibble
  import opened Land
  import opened SurfaceHeader

  /** The store after a run whose fit succeeded, as a function of the store
      before it. */
  ghost function AfterRun(g: Grid, w: nat, opts: Options, landMaskFlag: bool, args: OpenArgs,
                          retrieved: seq<seq<real>>, inside: (int, int) -> bool, srtm: (int, int) -> int): (a: Grid)
    requires IsGrid(g, w)
    requires forall i :: 0 <= i < |retrieved| ==> |retrieved[i]| >= w
    ensures |a| == |g| && IsGrid(a, w)
  {
    var written := WriteBackGrid(g, w, retrieved, inside, opts, landMaskFlag, args);
    var nibbled := if opts.clearInt && opts.nibble != 0 then Erode(written, w, opts.nibble) else written;
    if opts.clearLand then ClearLandGrid(nibbled, w, srtm) else nibbled
  }

  /** A bin the write-back leaves alone -- a land-masked real point, real
      data without replace-all, a bin outside the footprint or past the
      last retrieved row, or a bin without real data whose update is
      suppressed -- ends the run with every field and every validity bit
      but INTERPOLATED as before. */
  lemma RunKeepsSkippedBins(g: Grid, w: nat, opts: Options, landMaskFlag: bool, args: OpenArgs,
                            retrieved: seq<seq<real>>, inside: (int, int) -> bool, srtm: (int, int) -> int,
                            i: nat, j: nat)
    requires IsGrid(g, w) && i < |g| && j < w
    requires forall i :: 0 <= i < |retrieved| ==> |retrieved[i]| >= w
    requires || (landMaskFlag && Has(g[i][j].validity, DATA) && Has(g[i][j].validity, USER_10))
             || (!opts.replaceAll && Has(g[i][j].validity, DATA))
             || i >= |retrieved| || !inside(i, j)
             || (!Has(g[i][j].validity, DATA) && opts.clearInt && opts.nibble == 0)
    ensures
      var a := AfterRun(g, w, opts, landMaskFlag, args, retrieved, inside, srtm);
      && a[i][j].(validity := g[i][j].validity) == g[i][j]
      && a[i][j].validity - INTERPOLATED == g[i][j].validity - INTERPOLATED
  {
    var written := WriteBackGrid(g, w, retrieved, inside, opts, landMaskFlag, args);
    WriteBackGridAt(g, w, retrieved, inside, opts, landMaskFlag, args, i, j);
    assert written[i][j] == g[i][j];
    var nibbled: Grid := if opts.clearInt && opts.nibble != 0 then Erode(written, w, opts.nibble) else written;
    assert nibbled[i][j].(validity := g[i][j].validity) == g[i][j];
    assert nibbled[i][j].validity - INTERPOLATED == g[i][j].validity - INTERPOLATED;
  }

  class PfmStore {
    /** The bin records, bin_height rows of bin_width bins. */
    const bins: array2<BinRecord>
    /** The soundings of each bin. */
    const depths: array2<seq<Sounding>>
    var args: OpenArgs

    ghost predicate Valid()
      reads this
    {
      depths.Length0 == bins.Length0 && depths.Length1 == bins.Length1 &&
      |args.head.userFlagNames| == 10
    }

    /** The bin records as a value. */
    ghost function Bins(): (g: Grid)
      reads bins
      ensures |g| == bins.Length0 && IsGrid(g, bins.Length1)
      ensures forall i, j :: 0 <= i < bins.Length0 && 0 <= j < bins.Length1 ==> g[i][j] == bins[i, j]
    {
      seq(bins.Length0, i requires 0 <= i < bins.Length0 reads bins =>
        seq(bins.Length1, j requires 0 <= j < bins.Length1 reads bins => bins[i, j]))
    }

    /** The soundings of every bin as a value. */
    ghost function Depths(): (d: DepthGrid)
      reads depths
      ensures IsDepthGrid(d, depths.Length0, depths.Length1)
      ensures forall i, j :: 0 <= i < depths.Length0 && 0 <= j < depths.Length1 ==> d[i][j] == depths[i, j]
    {
      seq(depths.Length0, i requires 0 <= i < depths.Length0 reads depths =>
        seq(depths.Length1, j requires 0 <= j < depths.Length1 reads depths => depths[i, j]))
    }

    constructor (bins: array2<BinRecord>, depths: array2<seq<Sounding>>, args: OpenArgs)
      requires depths.Length0 == bins.Length0 && depths.Length1 == bins.Length1
      requires |args.head.userFlagNames| == 10
      ensures Valid()
      ensures this.bins == bins && this.depths == depths && this.args == args
    {
      this.bins := bins;
      this.depths := depths;
      this.args := args;
    }

    /** The bins hold exactly the grid `g`. */
    lemma BinsAre(g: Grid)
      requires |g| == bins.Length0 && IsGrid(g, bins.Length1)
      requires forall i, j :: 0 <= i < bins.Length0 && 0 <= j < bins.Length1 ==> bins[i, j] == g[i][j]
      ensures Bins() == g
    {
      var b := Bins();
      forall i | 0 <= i < |g|
        ensures b[i] == g[i]
      {
      }
    }

    /** The load phase (pfmMisp.cpp:350-448): every bin in row-major order,
        its selected soundings appended to what the engine has been fed;
        `outCount` counts them. */
    method LoadPhase(surface: int, eps: real) returns (loaded: seq<Sounding>, outCount: int)
      requires Valid()
      ensures loaded == LoadedFromRows(Bins(), Depths(), bins.Length1, surface, eps, bins.Length0)
      ensures outCount == |loaded|
    {
      var h := bins.Length0;
      loaded, outCount := [], 0;
      var i := 0;
      while i < h
        invariant 0 <= i <= h
        invariant loaded == LoadedFromRows(Bins(), Depths(), bins.Length1, surface, eps, i)
        invariant outCount == |loaded|
      {
        var points, count := LoadRow(surface, eps, i);
        loaded := loaded + points;
        outCount := outCount + count;
        i := i + 1;
      }
    }

    /** The load loop over the bins of row i. */
    method LoadRow(surface: int, eps: real, i: nat) returns (loaded: seq<Sounding>, outCount: int)
      requires Valid() && i < bins.Length0
      ensures loaded == LoadedFromRow(Bins(), Depths(), bins.Length1, surface, eps, i, bins.Length1)
      ensures outCount == |loaded|
    {
      var w := bins.Length1;
      ghost var g, d := Bins(), Depths();
      loaded, outCount := [], 0;
      var j := 0;
      while j < w
        invariant 0 <= j <= w
        invariant loaded == LoadedFromRow(g, d, w, surface, eps, i, j)
        invariant outCount == |loaded|
      {
        var points := ScanBin(surface, bins[i, j], depths[i, j], eps);
        assert bins[i, j] == g[i][j] && depths[i, j] == d[i][j];
        loaded := loaded + points;
        outCount := outCount + |points|;
        j := j + 1;
      }
    }

    /** The header write after a successful fit (pfmMisp.cpp:471-490). */
    method WriteHeader(opts: Options)
      requires Valid()
      modifies this
      ensures Valid()
      ensures args == (match HeaderAfterFit(old(args.head), opts)
                       case Some(head) => old(args).(head := head)
                       case None => old(args))
    {
      var written := HeaderAfterFit(args.head, opts);
      if written.Some? {
        args := args.(head := written.value);
      }
    }

    /** The retrieve and write-back phase (pfmMisp.cpp:509-574). Row i of
        the surface is `retrieved[i]`; a row the engine could not deliver
        (i >= |retrieved|) ends the phase. */
    method WriteBackPhase(retrieved: seq<seq<real>>, inside: (int, int) -> bool, opts: Options, landMaskFlag: bool)
      requires Valid()
      requires forall i :: 0 <= i < |retrieved| ==> |retrieved[i]| >= bins.Length1
      modifies bins
      ensures Bins() == WriteBackGrid(old(Bins()), bins.Length1, retrieved, inside, opts, landMaskFlag, args)
    {
      var h, w := bins.Length0, bins.Length1;
      ghost var g := Bins();
      ghost var target := WriteBackGrid(g, w, retrieved, inside, opts, landMaskFlag, args);
      var i := 0;
      while i < h
        invariant 0 <= i <= h
        invariant forall k, m :: 0 <= k < h && 0 <= m < w ==> bins[k, m] == if k < i then target[k][m] else g[k][m]
      {
        if i >= |retrieved| {
          break;
        }
        var row := retrieved[i];
        var j := 0;
        while j < w
          invariant 0 <= j <= w
          invariant forall k, m :: 0 <= k < h && 0 <= m < w ==>
            bins[k, m] == if k < i || (k == i && m < j) then target[k][m] else g[k][m]
        {
          if inside(i, j) {
            var bin := bins[i, j];
            var decision := Decide(bin, row[j], opts, landMaskFlag, args);
            if decision.Persist? {
              bins[i, j] := decision.updated;
            }
          }
          j := j + 1;
        }
        i := i + 1;
      }
      BinsAre(target);
    }

    /** The nibble filter (pfmMisp.cpp:586-698): a snapshot of every bin's
        validity, then, for each bin without DATA in the snapshot, a search
        of its clamped neighbourhood in the snapshot; where no DATA is found
        the INTERPOLATED bit alone is cleared by a masked validity write. */
    method NibblePhase(r: int)
      requires Valid()
      modifies bins
      ensures Bins() == Erode(old(Bins()), bins.Length1, r)
    {
      var h, w := bins.Length0, bins.Length1;
      var snapshot := TakeSnapshot();
      ghost var g := Bins();
      ghost var target := Erode(g, w, r);
      for i := 0 to h
        modifies bins
        invariant forall k, m :: 0 <= k < h && 0 <= m < w ==> bins[k, m] == if k < i then target[k][m] else g[k][m]
      {
        for j := 0 to w
          modifies bins
          invariant forall k, m :: 0 <= k < h && 0 <= m < w ==>
            bins[k, m] == if k < i || (k == i && m < j) then target[k][m] else g[k][m]
        {
          NibbleBin(snapshot, g, r, i, j);
        }
      }
      BinsAre(target);
    }

    /** The snapshot pass: a fresh array holding every bin's validity. */
    method TakeSnapshot() returns (snapshot: array2<Validity>)
      ensures fresh(snapshot)
      ensures snapshot.Length0 == bins.Length0 && snapshot.Length1 == bins.Length1
      ensures forall k, m :: 0 <= k < bins.Length0 && 0 <= m < bins.Length1 ==> snapshot[k, m] == bins[k, m].validity
    {
      var h, w := bins.Length0, bins.Length1;
      snapshot := new Validity[h, w];
      for i := 0 to h
        invariant forall k, m :: 0 <= k < i && 0 <= m < w ==> snapshot[k, m] == bins[k, m].validity
      {
        for j := 0 to w
          invariant forall k, m :: 0 <= k < i && 0 <= m < w ==> snapshot[k, m] == bins[k, m].validity
          invariant forall m :: 0 <= m < j ==> snapshot[i, m] == bins[i, m].validity
        {
          snapshot[i, j] := bins[i, j].validity;
        }
      }
    }

    /** The erosion step for bin (i, j): only the snapshot `g` is consulted,
        and only bin (i, j) may change. */
    method NibbleBin(snapshot: array2<Validity>, ghost g: Grid, r: int, i: int, j: int)
      requires snapshot.Length0 == bins.Length0 && snapshot.Length1 == bins.Length1
      requires |g| == bins.Length0 && IsGrid(g, bins.Length1)
      requires forall k, m :: 0 <= k < bins.Length0 && 0 <= m < bins.Length1 ==> snapshot[k, m] == g[k][m].validity
      requires 0 <= i < bins.Length0 && 0 <= j < bins.Length1 && bins[i, j] == g[i][j]
      modifies bins
      ensures bins[i, j] == Erode(g, bins.Length1, r)[i][j]
      ensures forall k, m :: 0 <= k < bins.Length0 && 0 <= m < bins.Length1 && (k != i || m != j) ==>
        bins[k, m] == old(bins[k, m])
    {
      var h, w := bins.Length0, bins.Length1;
      var dn := Low(i, r);
      var up := High(i, r, h);
      if !Has(snapshot[i, j], DATA) {
        var bw := Low(j, r);
        var fw := High(j, r, w);
        var found := SearchData(snapshot, dn, up, bw, fw);
        if found {
          assert DataNear(g, w, r, i, j);
        } else {
          assert !DataNear(g, w, r, i, j);
          var written := snapshot[i, j] - INTERPOLATED;
          bins[i, j] := bins[i, j].(validity := MaskedWrite(bins[i, j].validity, written, INTERPOLATED));
          assert bins[i, j].validity == g[i][j].validity - INTERPOLATED;
        }
      }
    }

    /** The land clearing phase (pfmMisp.cpp:703-747): a bin without
        soundings that the SRTM mask calls land loses INTERPOLATED. */
    method ClearLandPhase(srtm: (int, int) -> int)
      requires Valid()
      modifies bins
      ensures Bins() == ClearLandGrid(old(Bins()), bins.Length1, srtm)
    {
      var h, w := bins.Length0, bins.Length1;
      ghost var g := Bins();
      ghost var target := ClearLandGrid(g, w, srtm);
      for i := 0 to h
        invariant forall k, m :: 0 <= k < h && 0 <= m < w ==> bins[k, m] == if k < i then target[k][m] else g[k][m]
      {
        for j := 0 to w
          invariant forall k, m :: 0 <= k < h && 0 <= m < w ==>
            bins[k, m] == if k < i || (k == i && m < j) then target[k][m] else g[k][m]
        {
          var bin := bins[i, j];
          if bin.numSoundings == 0 {
            if srtm(i, j) == 1 {
              bin := bin.(validity := bin.validity - INTERPOLATED);
              bins[i, j] := bin;
            }
          }
        }
      }
      BinsAre(target);
    }

    /** One run of the pipeline. The fit itself belongs to the engine:
        `fitOk` is its outcome and `retrieved` the rows it delivers. A
        failed fit ends the run before anything is written. */
    method GenerateSurface(opts: Options, eps: real, fitOk: bool, retrieved: seq<seq<real>>,
                           inside: (int, int) -> bool, srtm: (int, int) -> int)
      returns (loaded: seq<Sounding>, outCount: int)
      requires Valid()
      requires forall i :: 0 <= i < |retrieved| ==> |retrieved[i]| >= bins.Length1
      modifies this, bins
      ensures Valid()
      ensures loaded == LoadedFromRows(old(Bins()), old(Depths()), bins.Length1, opts.surface, eps, bins.Length0)
      ensures outCount == |loaded|
      ensures !fitOk ==> Bins() == old(Bins()) && args == old(args)
      ensures fitOk ==> args == (match HeaderAfterFit(old(args.head), opts)
                                 case Some(head) => old(args).(head := head)
                                 case None => old(args))
      ensures fitOk ==> Bins() == AfterRun(old(Bins()), bins.Length1, opts, LandMaskFlag(old(args.head)), args,
                                           retrieved, inside, srtm)
    {
      var landMaskFlag := LandMaskFlag(args.head);
      loaded, outCount := LoadPhase(opts.surface, eps);
      if !fitOk {
        return;
      }
      WriteHeader(opts);
      ghost var w := bins.Length1;
      ghost var g := Bins();
      WriteBackPhase(retrieved, inside, opts, landMaskFlag);
      ghost var written := Bins();
      assert written == WriteBackGrid(g, w, retrieved, inside, opts, landMaskFlag, args);
      if opts.clearInt && opts.nibble != 0 {
        NibblePhase(opts.nibble);
      }
      ghost var nibbled := Bins();
      assert nibbled == if opts.clearInt && opts.nibble != 0 then Erode(written, w, opts.nibble) else written;
      if opts.clearLand {
        ClearLandPhase(srtm);
      }
    }
  }

  /** Searches the snapshot rectangle [dn, up] x [bw, fw] for a bin with DATA,
      stopping at the first (the nibble filter's inner double loop). */
  method SearchData(snapshot: array2<Validity>, dn: int, up: int, bw: int, fw: int) returns (found: bool)
    requires 0 <= dn && up < snapshot.Length0 && 0 <= bw && fw < snapshot.Length1
    ensures found <==> exists k, m :: dn <= k <= up && bw <= m <= fw && Has(snapshot[k, m], DATA)
  {
    found := false;
    var k := dn;
    while k <= up
      invariant dn <= k
      invariant forall kk, mm :: dn <= kk < k && kk <= up && bw <= mm <= fw ==> !Has(snapshot[kk, mm], DATA)
    {
      var m := bw;
      while m <= fw
        invariant bw <= m
        invariant forall mm :: bw <= mm < m && mm <= fw ==> !Has(snapshot[k, mm], DATA)
      {
        if Has(snapshot[k, m], DATA) {
          found := true;
          break;
        }
        m := m + 1;
      }
      if found {
        break;
      }
      k := k + 1;
    }
  }
}
