/** Land masking: the run-wide land-mask flag read from the header
    (pfmMisp.cpp:311-314) and the clearing of interpolated fill over land
    (pfmMisp.cpp:703-747). */
module Land {
  import opened Flags
  import opened Records

  /** The name the store gives its tenth user flag when it carries a land mask. */
  const LAND_MASKED_POINT: string := "Land masked point"

  /** The C string held in a character buffer: everything before the first
      NUL (or the whole buffer when it has none). */
  function CString(buf: string): (s: string)
    ensures |s| <= |buf| && s == buf[..|s|]
    ensures '\0' !in s
    ensures |s| < |buf| ==> buf[|s|] == '\0'
  {
    if buf == [] || buf[0] == '\0' then "" else [buf[0]] + CString(buf[1..])
  }

  /** strcmp (a, b) == 0: compares character by character and stops at the
      first NUL; the end of a buffer counts as a NUL. */
  function StrEqual(a: string, b: string): bool {
    var ca := if a == [] then '\0' else a[0];
    var cb := if b == [] then '\0' else b[0];
    if ca != cb then false
    else if ca == '\0' then true
    else StrEqual(a[1..], b[1..])
  }

  /** strcmp agrees with comparing the C strings the buffers hold. */
  lemma {:induction false} StrEqualIsCStringEquality(a: string, b: string)
    ensures StrEqual(a, b) <==> CString(a) == CString(b)
  {
    if a != [] && b != [] && a[0] == b[0] && a[0] != '\0' {
      StrEqualIsCStringEquality(a[1..], b[1..]);
      assert CString(a) == [a[0]] + CString(a[1..]);
      assert CString(b) == [b[0]] + CString(b[1..]);
    }
  }

  /** A buffer without NUL holds itself as its C string. */
  lemma {:induction false} CStringWithoutNul(s: string)
    requires '\0' !in s
    ensures CString(s) == s
  {
    if s != [] {
      CStringWithoutNul(s[1..]);
    }
  }

  /** The run honours land-masked points exactly when the header names user
      flag 10 "Land masked point". */
  function LandMaskFlag(head: Header): (flag: bool)
    requires |head.userFlagNames| == 10
    ensures flag <==> CString(head.userFlagNames[9]) == LAND_MASKED_POINT
  {
    StrEqualIsCStringEquality(head.userFlagNames[9], LAND_MASKED_POINT);
    CStringWithoutNul(LAND_MASKED_POINT);
    StrEqual(head.userFlagNames[9], LAND_MASKED_POINT)
  }

  /** The SRTM mask classifies the bin as land. */
  predicate IsLand(srtm: (int, int) -> int, i: int, j: int) {
    srtm(i, j) == 1
  }

  /** One bin after land clearing: a bin without soundings that the mask
      calls land loses its INTERPOLATED bit; every other bin, field and bit
      is kept. */
  function ClearLandBin(bin: BinRecord, land: bool): (b: BinRecord)
    ensures b.(validity := bin.validity) == bin
    ensures b.validity - INTERPOLATED == bin.validity - INTERPOLATED
    ensures bin.numSoundings != 0 || !land ==> b == bin
    ensures bin.numSoundings == 0 && land ==> !Has(b.validity, INTERPOLATED)
  {
    if bin.numSoundings == 0 && land then bin.(validity := bin.validity - INTERPOLATED) else bin
  }

  /** Land clearing of the whole grid. */
  function ClearLandGrid(g: Grid, w: nat, srtm: (int, int) -> int): (c: Grid)
    requires IsGrid(g, w)
    ensures |c| == |g| && IsGrid(c, w)
  {
    seq(|g|, i requires 0 <= i < |g| =>
      seq(w, j requires 0 <= j < w => ClearLandBin(g[i][j], IsLand(srtm, i, j))))
  }

  /** A second land clearing changes nothing. */
  lemma {:induction false} ClearLandGridIdempotent(g: Grid, w: nat, srtm: (int, int) -> int)
    requires IsGrid(g, w)
    ensures ClearLandGrid(ClearLandGrid(g, w, srtm), w, srtm) == ClearLandGrid(g, w, srtm)
  {
    var c := ClearLandGrid(g, w, srtm);
    var c2 := ClearLandGrid(c, w, srtm);
    forall i | 0 <= i < |g|
      ensures c2[i] == c[i]
    {
      forall j | 0 <= j < w
        ensures c2[i][j] == c[i][j]
      {
        assert (g[i][j].validity - INTERPOLATED) - INTERPOLATED == g[i][j].validity - INTERPOLATED;
      }
    }
  }
}
