/** The records the surface pipeline reads from and writes to a PFM store,
    and the options of one run. */
module Records {
  import opened Flags

  datatype Option<T> = None | Some(value: T)

  /** A bin of the PFM grid (BIN_RECORD); depths are modelled as reals. */
  datatype BinRecord = BinRecord(
    numSoundings: nat,
    minFilteredDepth: real,
    maxFilteredDepth: real,
    avgFilteredDepth: real,
    validity: Validity)

  /** One raw sounding of a bin (DEPTH_RECORD): position and validity. */
  datatype Sounding = Sounding(x: real, y: real, z: real, validity: Validity)

  /** The part of the PFM header the pipeline uses. Each user flag name is
      the store's fixed-size, NUL-terminated character buffer. */
  datatype Header = Header(
    averageFiltName: string,
    userFlagNames: seq<string>,
    nullDepth: real)

  /** What the store reports when it is opened: the header and the depth
      limits of the interpolated surface. */
  datatype OpenArgs = OpenArgs(head: Header, maxDepth: real, offset: real)

  /** Run options as the wizard collects them. `surface` is 0 (minimum
      filtered), 1 (maximum filtered) or 2 (all depths). */
  datatype Options = Options(
    surface: int,
    replaceAll: bool,
    clearInt: bool,
    nibble: int,
    clearLand: bool)

  const MIN_FILTERED_SURFACE := 0
  const MAX_FILTERED_SURFACE := 1
  const ALL_DEPTHS_SURFACE := 2

  /** The bin grid as a value: |g| rows of `w` bins each, row-major. */
  type Grid = seq<seq<BinRecord>>

  predicate IsGrid(g: Grid, w: nat) {
    forall i :: 0 <= i < |g| ==> |g[i]| == w
  }
}
