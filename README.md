# pfmMisp surface generation, modelled in Dafny

pfmMisp grids a PFM store. The pipeline runs when the user presses the
wizard's "Run" button (`pfmMisp::slotCustomButtonClicked`). It works on the
store's `bin_height × bin_width` grid of bin records, in six steps:

1. It reads the land-mask flag from the name of user flag 10.
2. It feeds selected soundings of every bin to the MISP interpolation engine (the load phase).
3. It runs the fit. When replace-all is set, it renames the average surface in the header.
4. It retrieves the fitted surface row by row and writes it into the bins under a per-bin decision table.
5. Optionally, it erodes interpolated fill that lies too far from real data (the nibble filter).
6. Optionally, it clears interpolated fill over land.

The model is organised as follows:

- `Flags`: validity words as sets of bit positions, and the store's masked validity write.
- `Records`: the bin, sounding, header and option records, and a grid of bins as a value.
- `Selection`: which soundings of a bin are loaded. `ScanBin` is the per-bin scan loop, proved against the function `SelectedSoundings`.
- `WriteBack`: the per-bin write-back decision (`Decide`), the write-back of a whole grid, and the facts about both.
- `Nibble`: the nibble filter as a function of the grid (`Erode`), with its DATA-preservation, idempotence and monotonicity lemmas.
- `Land`: the `strcmp` that derives the land-mask flag, and land clearing.
- `SurfaceHeader`: the surface name written into the header.
- `Store`: the class `PfmStore`.
  - It holds the bin records and the soundings in two-dimensional arrays, and the header as a field.
  - Each phase is a method with the source's nested row/column loops, proved to leave the grid equal to the phase's function applied to the grid before it.
  - `GenerateSurface` runs the whole pipeline. It is proved to end with `AfterRun` of the initial grid when the fit succeeds, and to leave the store unchanged when it fails.

The validity word is a `uint32_t` bit mask. The model represents it as the set of positions of its set bits: `v & f` is `v * f`, `v | f` is `v + f` and `v & ~f` is `v - f`. pfm.h, which defines the bit positions, is not part of this model. The positions used in `Flags` are distinct stand-ins. Every stated property relies only on their being distinct.

## Model

| member | source | states |
|---|---|---|
| Flags.MaskedWrite | pfmMisp.cpp:684-685 | the masked validity write takes exactly the masked bits from the written word and keeps every other stored bit |
| Selection.UsableSoundings | pfmMisp.cpp:365-389 | all-depths selection keeps only soundings of the bin with none of INVAL, DELETED, REFERENCE, never more than the bin has |
| Selection.FirstMatch | pfmMisp.cpp:392-443 | the filtered-mode scan yields at most one sounding, a usable one of the bin whose depth matches the target |
| Selection.SelectedSoundings | pfmMisp.cpp:360-444 | a bin without soundings contributes nothing; every forwarded sounding is usable and from the bin; modes 0 and 1 forward at most one, matching the minimum (mode 0) or maximum (mode 1) filtered depth |
| Selection.UsableSoundingsAppend | pfmMisp.cpp:365-389 | all-depths selection distributes over concatenation, so forwarded soundings keep their order |
| Selection.UsableSoundingsComplete | pfmMisp.cpp:369-388 | every usable sounding of the bin is forwarded in mode 2 |
| Selection.UsableSoundingsAll | pfmMisp.cpp:369-388 | when all soundings are usable, mode 2 forwards exactly the bin's soundings in order |
| Selection.AllDepthsForwardsUsable | pfmMisp.cpp:360-389 | for a bin with soundings, a sounding is forwarded in mode 2 if and only if it is one of the bin's usable soundings |
| Selection.FirstMatchAt | pfmMisp.cpp:392-443 | in modes 0 and 1 the forwarded sounding is the usable matching sounding of least index |
| Selection.FirstMatchNone | pfmMisp.cpp:392-443 | modes 0 and 1 forward nothing if and only if no sounding of the bin is usable and matching |
| Selection.ScanBin | pfmMisp.cpp:360-446 | the scan loop over one bin (with its found flag and early break) forwards exactly the selected soundings |
| Selection.LoadedFromRowFacts | pfmMisp.cpp:354-448 | every point loaded from a row is usable; in modes other than 2 a row of j bins yields at most j points |
| Selection.LoadedFromRowsUsable | pfmMisp.cpp:350-448 | the engine is fed only usable soundings |
| Selection.FilteredLoadsAtMostOnePerBin | pfmMisp.cpp:350-448 | in modes other than 2, at most one point per bin is loaded, so out_count is at most bin_height × bin_width |
| WriteBack.MarkedFlags | pfmMisp.cpp:545-559 | an updated validity has INTERPOLATED set and USER_10 clear |
| WriteBack.MarkedKeepsOtherBits | pfmMisp.cpp:545-559 | the update changes no validity bit other than INTERPOLATED and USER_10 |
| WriteBack.MarkedIdempotent | pfmMisp.cpp:545-559 | updating an updated validity again changes nothing |
| WriteBack.MarkedKeepsData | pfmMisp.cpp:545-565 | the update keeps DATA as it was, so the persist test sees the bin's own DATA bit |
| WriteBack.Decide | pfmMisp.cpp:541-566 | a bin is skipped if and only if it is a land-masked real point under the land-mask flag, or has DATA without replace-all; an updated bin is suppressed if and only if it lacks DATA with clear-interpolated and nibble 0; an updated bin gets the retrieved value when it lies in (-offset, max_depth] and the null depth otherwise, INTERPOLATED set and USER_10 cleared, and no other field changed |
| WriteBack.UpdatedFlags | pfmMisp.cpp:545-559 | every updated bin has INTERPOLATED set, USER_10 clear and its other bits unchanged |
| WriteBack.WriteBackIdempotent | pfmMisp.cpp:541-566 | writing the same retrieved value back into a bin a second time leaves it as the first write did |
| WriteBack.WriteBackGrid | pfmMisp.cpp:509-569 | the write-back of the whole grid, applying the decision table to every retrieved bin inside the footprint; its contract keeps the shape, and WriteBackGridAt states each bin |
| WriteBack.WriteBackGridAt | pfmMisp.cpp:509-569 | bins past the last retrieved row, outside the footprint, land-masked real points, real data without replace-all and suppressed bins are unchanged; a retrieved bin inside the footprint that the table updates and persists takes the retrieved value when in range and the null depth otherwise, has INTERPOLATED set, USER_10 clear, its other bits and fields kept |
| Nibble.Erode | pfmMisp.cpp:651-686 | the filter changes only the INTERPOLATED bit of a bin and never a bin with DATA |
| Nibble.ErodeAt | pfmMisp.cpp:662-686 | a bin without DATA keeps its record when DATA lies in its clamped neighbourhood, and loses INTERPOLATED otherwise |
| Nibble.DataUnchanged | pfmMisp.cpp:684-685 | clearing INTERPOLATED keeps DATA |
| Nibble.DataNearSameData | pfmMisp.cpp:664-679 | the neighbourhood search depends only on the DATA bits of the snapshot |
| Nibble.ErodeIdempotent | pfmMisp.cpp:623-686 | running the filter twice leaves the store as running it once |
| Nibble.ErodeMonotone | pfmMisp.cpp:655-679 | every bin cleared with radius r2 is cleared with any radius r1 <= r2 |
| Land.CString | pfmMisp.cpp:314 | the string held in a character buffer is its prefix before the first NUL |
| Land.StrEqualIsCStringEquality | pfmMisp.cpp:314 | strcmp returns 0 if and only if the two buffers hold the same C string |
| Land.CStringWithoutNul | pfmMisp.cpp:314 | a buffer without NUL holds itself as its C string |
| Land.LandMaskFlag | pfmMisp.cpp:313-314 | the land-mask flag is set if and only if user flag 10 is named "Land masked point" |
| Land.ClearLandBin | pfmMisp.cpp:729-735 | a bin without soundings that the mask calls land loses INTERPOLATED; no other field or bit changes, and every other bin is unchanged |
| Land.ClearLandGrid | pfmMisp.cpp:712-737 | land clearing keeps the grid's shape |
| Land.ClearLandGridIdempotent | pfmMisp.cpp:703-747 | clearing land twice gives the same grid as clearing it once |
| SurfaceHeader.HeaderAfterFit | pfmMisp.cpp:471-490 | the header is written if and only if replace-all is set and the mode is 0, 1 or 2; only the average surface name changes: mode 0 writes MINIMUM MISP SURFACE, mode 1 MAXIMUM MISP SURFACE, mode 2 AVERAGE MISP SURFACE |
| SurfaceHeader.SurfaceNameIdentifiesMode | pfmMisp.cpp:471-490 | the name written identifies the surface mode |
| Selection.Usable | pfmMisp.cpp:370 | a sounding is usable when none of INVAL, DELETED, REFERENCE is set |
| Selection.Matches | pfmMisp.cpp:393-394 | the tolerance test: the depth lies strictly within eps of the target |
| Selection.Candidate | pfmMisp.cpp:393-394 | the filtered-mode test: usable and matching |
| Selection.LoadedFromRow | pfmMisp.cpp:354-448 | the points handed to the engine from the first j bins of a row, bin by bin in column order |
| Selection.LoadedFromRows | pfmMisp.cpp:350-448 | the points handed to the engine from the first i rows, in row-major order |
| WriteBack.InRange | pfmMisp.cpp:546 | the retrieved value lies in (-offset, max_depth] |
| WriteBack.Marked | pfmMisp.cpp:545-559 | the validity of an updated bin: INTERPOLATED set, then USER_10 cleared if set; its facts are MarkedFlags, MarkedKeepsOtherBits, MarkedIdempotent |
| WriteBack.Stored | pfmMisp.cpp:565 | the record the store holds after a decision: the updated one only when it is persisted |
| Nibble.Low | pfmMisp.cpp:655 | the clamped lower bound MAX (i - nibble, 0) |
| Nibble.High | pfmMisp.cpp:656 | the clamped upper bound MIN (i + nibble, n - 1) |
| Nibble.DataNear | pfmMisp.cpp:664-679 | some bin of the clamped neighbourhood holds DATA |
| Nibble.Nibbled | pfmMisp.cpp:662-681 | a bin is cleared when it lacks DATA and no bin of its neighbourhood holds DATA |
| Land.StrEqual | pfmMisp.cpp:314 | strcmp returning 0, character by character up to the first NUL; StrEqualIsCStringEquality states its meaning |
| Land.IsLand | pfmMisp.cpp:731 | the SRTM mask classifies the bin as land when it returns 1 |
| Store.AfterRun | pfmMisp.cpp:509-747 | the store after a successful fit is the write-back, then the erosion only when clear-interpolated and nibble is non-zero, then land clearing only when requested; the shape is kept |
| Store.RunKeepsSkippedBins | pfmMisp.cpp:509-747 | in a bin that the write-back leaves alone, the whole run changes at most the INTERPOLATED bit |
| Store.PfmStore.LoadPhase | pfmMisp.cpp:350-448 | the load loops feed the engine exactly the selected soundings of every bin in row-major order, and out_count is their number |
| Store.PfmStore.LoadRow | pfmMisp.cpp:354-448 | the loop over one row feeds the selected soundings of its bins in order |
| Store.PfmStore.WriteHeader | pfmMisp.cpp:471-490 | the header becomes the renamed one exactly when the rename applies |
| Store.PfmStore.WriteBackPhase | pfmMisp.cpp:509-574 | the retrieve loop, which stops at the first failed row, leaves the bins equal to the grid write-back of the bins before it |
| Store.PfmStore.NibblePhase | pfmMisp.cpp:586-698 | the snapshot-then-erode loops leave the bins equal to the erosion of the bins before them |
| Store.PfmStore.TakeSnapshot | pfmMisp.cpp:623-637 | the snapshot is a fresh array holding every bin's validity |
| Store.PfmStore.NibbleBin | pfmMisp.cpp:662-686 | one step of the erosion gives bin (i, j) its eroded value, consulting only the snapshot, and changes no other bin |
| Store.PfmStore.ClearLandPhase | pfmMisp.cpp:703-747 | the land loops leave the bins equal to the land clearing of the bins before them |
| Store.PfmStore.GenerateSurface | pfmMisp.cpp:279-766 | a run loads the selected soundings; a failed fit changes nothing; otherwise the header is written by the rename rule and the bins end as AfterRun of the bins before the run |
| Store.SearchData | pfmMisp.cpp:664-679 | the neighbourhood search finds a bin with DATA in the rectangle if and only if there is one |

## Left out

- The Qt wizard, the progress bar, event processing and the cursor and button handling are user-interface plumbing.
- Settings persistence is file I/O.
- The MISP engine is a foreign library. Its initialisation, weighting and fit are not modelled.
  - Loading is the sequence of points handed to it.
  - The fit's outcome is a boolean.
  - The retrieved surface is a sequence of rows, and a retrieval failure is the end of that sequence.
- A failed fit ends the process with `exit (-1)`. The model returns from the run with the store unchanged.
- The points handed to the engine are the soundings themselves. The conversion of their x and y to zero-based bin units (floating-point division) is left out.
- Bin-centre latitude and longitude are floating point. The footprint test `bin_inside_ptr` and the SRTM mask `read_srtm_mask` are foreign calls and appear as oracles indexed by row and column.
- Depths are real numbers, so float and double rounding is not modelled. MISP_EPS belongs to the engine and is the parameter `eps`.
- PFM file open and close, raw record I/O, and the fatal paths for allocation and open failures are not modelled.
- The extra padding column of the retrieve buffer is not modelled.
- A bin whose `read_depth_array_index` fails is skipped by the source. The model always has the bin's soundings available.
- `force_original_value` is only displayed and saved, never used by the pipeline.
- pfm.h is not part of this model. The validity bits are distinct stand-in positions, and the two INVAL bits stand for the PFM invalid mask.
- A bin whose record is rewritten with the value it already has is modelled as unchanged. The model does not distinguish a store write of an equal record from no write, for example in land clearing of a bin without INTERPOLATED.
