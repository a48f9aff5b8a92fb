/** The per-bin write-back rule of the retrieve phase (pfmMisp.cpp:509-574):
    whether an interpolated value goes into a bin, what the bin becomes, and
    whether the new record is persisted. */
module WriteBack {
  import opened Flags
  import opened Records

  /** Keep: the bin is left alone. Suppress: the bin was updated in memory
      but the record is not written. Persist: the updated record is written. */
  datatype Decision = Keep | Suppress(updated: BinRecord) | Persist(updated: BinRecord)

  /** The retrieved value lies in (-offset, max_depth]. */
  predicate InRange(v: real, args: OpenArgs) {
    v <= args.maxDepth && v > -args.offset
  }

  /** The bits other than INTERPOLATED and USER_10. */
  function Untouched(v: Validity): Validity {
    v - (INTERPOLATED + USER_10)
  }

  /** The validity an updated bin gets: INTERPOLATED set, then USER_10
      cleared if it is set. */
  function Marked(v: Validity): Validity {
    var marked := v + INTERPOLATED;
    if Has(marked, USER_10) then marked - USER_10 else marked
  }

  lemma MarkedFlags(v: Validity)
    ensures Has(Marked(v), INTERPOLATED) && !Has(Marked(v), USER_10)
  {
    var marked := v + INTERPOLATED;
    assert 17 in INTERPOLATED && 17 !in USER_10;
    assert 17 in Marked(v) * INTERPOLATED;
  }

  lemma MarkedKeepsOtherBits(v: Validity)
    ensures Untouched(Marked(v)) == Untouched(v)
  {
    var marked := v + INTERPOLATED;
    assert Untouched(marked) == Untouched(v);
    assert Untouched(marked - USER_10) == Untouched(marked);
  }

  lemma MarkedIdempotent(v: Validity)
    ensures Marked(Marked(v)) == Marked(v)
  {
    var m := Marked(v);
    MarkedFlags(v);
  }

  lemma MarkedKeepsData(v: Validity)
    ensures Has(Marked(v), DATA) == Has(v, DATA)
  {
  }

  function Decide(bin: BinRecord, v: real, opts: Options, landMaskFlag: bool, args: OpenArgs): (d: Decision)
    // A bin still holding a land-masked real point is never overwritten, and
    // without replace-all a bin with real data is never overwritten.
    ensures d.Keep? <==>
      (landMaskFlag && Has(bin.validity, DATA) && Has(bin.validity, USER_10)) ||
      (!opts.replaceAll && Has(bin.validity, DATA))
    // With clear-interpolated and a nibble radius of 0, no interpolated value
    // is written into a bin without real data.
    ensures d.Suppress? <==>
      !d.Keep? && !Has(bin.validity, DATA) && opts.clearInt && opts.nibble == 0
    // An updated bin takes the retrieved value when it is in range and the
    // null depth otherwise; no field but the depth and the validity changes.
    ensures !d.Keep? ==>
      && d.updated.avgFilteredDepth == (if InRange(v, args) then v else args.head.nullDepth)
      && d.updated.validity == Marked(bin.validity)
      && d.updated.(avgFilteredDepth := bin.avgFilteredDepth, validity := bin.validity) == bin
  {
    if !landMaskFlag || !Has(bin.validity, DATA) || !Has(bin.validity, USER_10) then
      if opts.replaceAll || !Has(bin.validity, DATA) then
        var depth := if InRange(v, args) then v else args.head.nullDepth;
        var cleared := Marked(bin.validity);
        var updated := bin.(avgFilteredDepth := depth, validity := cleared);
        MarkedKeepsData(bin.validity);
        if Has(cleared, DATA) || !opts.clearInt || (opts.clearInt && opts.nibble != 0) then
          Persist(updated)
        else
          Suppress(updated)
      else
        Keep
    else
      Keep
  }

  /** Every bin the write-back updates is marked interpolated and loses its
      land-mask flag; all its other validity bits are kept. */
  lemma UpdatedFlags(bin: BinRecord, v: real, opts: Options, landMaskFlag: bool, args: OpenArgs)
    ensures
      var d := Decide(bin, v, opts, landMaskFlag, args);
      !d.Keep? ==>
        && Has(d.updated.validity, INTERPOLATED)
        && !Has(d.updated.validity, USER_10)
        && Untouched(d.updated.validity) == Untouched(bin.validity)
  {
    MarkedFlags(bin.validity);
    MarkedKeepsOtherBits(bin.validity);
  }

  /** The record the store holds after the decision. */
  function Stored(bin: BinRecord, d: Decision): BinRecord {
    if d.Persist? then d.updated else bin
  }

  /** Running the write-back a second time with the same retrieved value
      changes nothing more. */
  lemma WriteBackIdempotent(bin: BinRecord, v: real, opts: Options, landMaskFlag: bool, args: OpenArgs)
    ensures
      var once := Stored(bin, Decide(bin, v, opts, landMaskFlag, args));
      Stored(once, Decide(once, v, opts, landMaskFlag, args)) == once
  {
    var d := Decide(bin, v, opts, landMaskFlag, args);
    if d.Persist? {
      var once := d.updated;
      MarkedFlags(bin.validity);
      MarkedKeepsData(bin.validity);
      MarkedIdempotent(bin.validity);
      var d2 := Decide(once, v, opts, landMaskFlag, args);
      assert !d2.Keep? && !d2.Suppress?;
      assert d2.updated == once;
    }
  }

  /** The write-back phase on the whole grid: rows at or past |retrieved|
      were never retrieved (the engine failed there and the loop stopped),
      and bins outside the footprint are skipped. */
  function WriteBackGrid(g: Grid, w: nat, retrieved: seq<seq<real>>, inside: (int, int) -> bool,
                         opts: Options, landMaskFlag: bool, args: OpenArgs): (r: Grid)
    requires IsGrid(g, w)
    requires forall i :: 0 <= i < |retrieved| ==> |retrieved[i]| >= w
    ensures |r| == |g| && IsGrid(r, w)
  {
    seq(|g|, i requires 0 <= i < |g| =>
      seq(w, j requires 0 <= j < w =>
        if i < |retrieved| && inside(i, j)
        then Stored(g[i][j], Decide(g[i][j], retrieved[i][j], opts, landMaskFlag, args))
        else g[i][j]))
  }

  /** What the write-back phase guarantees bin by bin: untouched bins are
      those past the retrieved rows, outside the footprint, or kept by the
      decision table; a changed bin is interpolated and has no land-mask flag. */
  lemma WriteBackGridAt(g: Grid, w: nat, retrieved: seq<seq<real>>, inside: (int, int) -> bool,
                        opts: Options, landMaskFlag: bool, args: OpenArgs, i: nat, j: nat)
    requires IsGrid(g, w)
    requires forall i :: 0 <= i < |retrieved| ==> |retrieved[i]| >= w
    requires i < |g| && j < w
    ensures
      var r := WriteBackGrid(g, w, retrieved, inside, opts, landMaskFlag, args);
      && (i >= |retrieved| || !inside(i, j) ==> r[i][j] == g[i][j])
      && (!opts.replaceAll && Has(g[i][j].validity, DATA) ==> r[i][j] == g[i][j])
      && (landMaskFlag && Has(g[i][j].validity, DATA) && Has(g[i][j].validity, USER_10) ==> r[i][j] == g[i][j])
      && (r[i][j] != g[i][j] ==> Has(r[i][j].validity, INTERPOLATED) && !Has(r[i][j].validity, USER_10))
    // a retrieved bin inside the footprint that the decision table updates
    // and persists holds the updated record ...
    ensures
      var r := WriteBackGrid(g, w, retrieved, inside, opts, landMaskFlag, args);
      var bin := g[i][j];
      i < |retrieved| && inside(i, j) &&
      !(landMaskFlag && Has(bin.validity, DATA) && Has(bin.validity, USER_10)) &&
      (opts.replaceAll || !Has(bin.validity, DATA)) &&
      (Has(bin.validity, DATA) || !opts.clearInt || opts.nibble != 0)
      ==>
      && r[i][j].avgFilteredDepth == (if InRange(retrieved[i][j], args) then retrieved[i][j] else args.head.nullDepth)
      && Has(r[i][j].validity, INTERPOLATED)
      && !Has(r[i][j].validity, USER_10)
      && Untouched(r[i][j].validity) == Untouched(bin.validity)
      && r[i][j].(avgFilteredDepth := bin.avgFilteredDepth, validity := bin.validity) == bin
    // ... and a bin whose update is suppressed is left as it was
    ensures
      var r := WriteBackGrid(g, w, retrieved, inside, opts, landMaskFlag, args);
      !Has(g[i][j].validity, DATA) && opts.clearInt && opts.nibble == 0 ==> r[i][j] == g[i][j]
  {
    if i < |retrieved| {
      UpdatedFlags(g[i][j], retrieved[i][j], opts, landMaskFlag, args);
    }
  }
}
