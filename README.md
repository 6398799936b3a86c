# PrairieView loader model

This project models the PrairieView part of element-data-loader. PrairieView is the two-photon
acquisition software of Bruker; it writes a scan as TIFF files plus one XML descriptor. The
model covers:

- the metadata extractor `_extract_prairieview_metadata`. It yields the channel set, the plane
  set, the page count, the multi-page flag and the Z-position rule, including the selection of
  the one varying Z controller;
- the `PrairieViewMeta` loader object:
  - its lazily filled metadata cache `meta`, which turns the page count into a timepoint count;
  - `get_prairieview_filenames`, which resolves a plane and a channel to source file names;
  - `write_single_bigtiff`, which either returns existing outputs or clears them and
    reassembles the requested plane and channel. The multi-page layout computes global page
    indices and folds the source files in at a running page offset. The legacy layout copies
    one page per file, splitting parts by size;
- the older reader `get_pv_metadata`: its channel, frame and plane counts, and its Z rule.
  That rule builds a dictionary from Z value to positions, deletes the first repeated value's
  positions from the highest down, and requires one Z value per plane.

The XML descriptor is represented by the records the code queries (`ScanDescriptor`), and each
path query is a function over them. TIFF files are represented by their page lists. The output
directory is a listing of output names with their contents. Every exception the code raises is
an `Error` value in a `Result`.

Modules:

- `Common`: options, results, errors.
- `Ordering`: Python's set listing and `np.unique` as sorted distinct lists.
- `ScanDescriptor`: the descriptor records and their queries.
- `Extraction`: the metadata extractor.
- `PageIndex`: page addressing.
- `Reassembly`: the two write paths.
- `Loader`: the cache, file resolution, output handling and the `PrairieViewMeta` class.
- `Reader`: `get_pv_metadata`.

Where the code mutates state, the model does too:

- The class `Loader.PrairieViewMeta` keeps `_meta` as a field. Its methods are proved against
  the functions `Access`, `Resolve` and `Write`.
- The multi-page buffer is an `array` filled in place (`Reassembly.CopyPages`).
- The reader's dictionary loop and deletion loop are methods proved against
  `WithoutFirstRepeat`.

## Model

| member | source | states |
|---|---|---|
| Ordering.SetListingCorrect | element_interface/prairie_view_loader.py:231-232 | `list(set(channel_list))` holds exactly the distinct channel ids, in ascending order, one per distinct value |
| Ordering.UniqueNamesCorrect | element_interface/prairie_view_loader.py:96 | `np.unique` of the file names holds exactly the same names, strictly sorted by code point, without duplicates |
| ScanDescriptor.Frames | element_interface/prairie_view_loader.py:233 | `.//Sequence/Frame` (optionally restricted to one cycle) finds exactly the frames of the matching sequences |
| ScanDescriptor.WithIndex | element_interface/prairie_view_loader.py:312 | the `[@index=...]` filter keeps exactly the frames with that index |
| ScanDescriptor.FilesOf | element_interface/prairie_view_loader.py:92-94 | the `File` records under a set of frames are exactly the files of those frames |
| ScanDescriptor.ChannelList | element_interface/prairie_view_loader.py:227-230 | the channel list holds exactly the `channel` attributes of files that carry one |
| ScanDescriptor.NamesForChannel | element_interface/prairie_view_loader.py:90-96 | the names found for a channel are exactly the filenames of files with that channel |
| ScanDescriptor.FrameIndices | element_interface/prairie_view_loader.py:304-307 | one plane index per cycle-1 frame, in order, each that frame's `index` |
| ScanDescriptor.ValuesAt | element_interface/prairie_view_loader.py:344-349 | the subindex filter holds exactly the Z values whose subindex matches, never more entries than there are sub-values |
| ScanDescriptor.AllValues | element_interface/prairieviewreader.py:139-141 | `z_values` has one entry per Z sub-value, in document order, each that sub-value's value |
| Extraction.CollectControllerValues | element_interface/prairie_view_loader.py:319-332 | `z_repeats` has one list per Z controller, holding that controller's values across the cycle-2 frames |
| Extraction.CountVaryingOne | element_interface/prairie_view_loader.py:333-339 | `sum(controller_assert) == 1` holds exactly when exactly one controller varies |
| Extraction.SelectControllerSpec | element_interface/prairie_view_loader.py:333-341 | controller selection succeeds iff exactly one controller varies, and then yields that controller's values |
| Extraction.ExtractMetadata | element_interface/prairie_view_loader.py:221-353 | the extractor's loop-based computation yields exactly the metadata record, or the error, that `Extract` defines |
| Extraction.ExtractChannels | element_interface/prairie_view_loader.py:227-232 | `channels` is the set of channel attributes, listed ascending, and `num_channels` is its size |
| Extraction.ExtractMultipage | element_interface/prairie_view_loader.py:223 | `is_multipage` holds iff some frame has a file with a `page` attribute |
| Extraction.ExtractFrames | element_interface/prairie_view_loader.py:233 | `num_frames` is first the number of `Sequence/Frame` elements, which is non-zero, and no frame rate is set yet |
| Extraction.ExtractDepths | element_interface/prairie_view_loader.py:283-310 | without cycle-2 Z data: plane `[0]` and the first Z value as a scalar. With it: the planes are the distinct cycle-1 frame indices, and the Z list has one entry per plane |
| Extraction.ExtractZController | element_interface/prairie_view_loader.py:311-341 | with several Z controllers, extraction fails with the ambiguity error unless exactly one varies, and the Z list is that controller's values |
| Extraction.ExtractDepthMismatch | element_interface/prairie_view_loader.py:343-353 | with at most one controller, a subindex-0 Z list whose length differs from the plane count makes extraction fail |
| Extraction.SingleControllerAccepts | element_interface/prairie_view_loader.py:343-353 | with at most one controller, a subindex-0 Z list with one entry per plane makes extraction succeed, and that list is the Z list of the result |
| Extraction.SelectedControllerAccepts | element_interface/prairie_view_loader.py:311-353 | with several controllers, when exactly one varies and its values number one per plane, extraction succeeds and the Z list is that controller's values |
| PageIndex.PageIndicesSpec | element_interface/prairie_view_loader.py:135-141 | `page_indices` has one entry per timepoint, strictly increasing, each below the total page count, each decoding back to its timepoint, plane position and channel position |
| PageIndex.DecodePage | element_interface/prairie_view_loader.py:140-141 | a global page `t*C*P + p*C + c` divides back into `t`, `p` and `c` |
| PageIndex.PageIndexAt | element_interface/prairie_view_loader.py:140-141 | the page of timepoint `t` is below the total page count and decodes back to `t`, the plane position and the channel position |
| PageIndex.PageIndicesDisjoint | element_interface/prairie_view_loader.py:135-141 | two distinct (plane, channel) positions never address the same page |
| PageIndex.PageIndicesExample | element_interface/prairie_view_loader.py:140-141 | 2 channels, 3 planes, 10 timepoints, plane position 1, channel 0 address pages 2, 8, …, 56 |
| Reassembly.FirstUnreadable | element_interface/prairie_view_loader.py:148-164 | every source before the returned position can be opened; the one at it cannot |
| Reassembly.StackContents | element_interface/prairie_view_loader.py:147-162 | after the fold over the source files, slot `j` holds global page `page_indices[j]` of the concatenated files when it exists and is unset otherwise |
| Reassembly.SlotSelected | element_interface/prairie_view_loader.py:153-156 | every slot whose target page lies in the current file is among `global_indices` |
| Reassembly.FileIndicesAligned | element_interface/prairie_view_loader.py:152-156 | the `m`-th in-file index is the target page of the `m`-th selected slot minus `start_page` |
| Reassembly.OverlayBySlots | element_interface/prairie_view_loader.py:159-161 | filling the selected slots and leaving the others untouched is exactly the overlay of the file's pages |
| Reassembly.CopyPages | element_interface/prairie_view_loader.py:159-161 | the in-place array write leaves the buffer equal to the overlay of the file's pages at `start_page` |
| Reassembly.StackExtend | element_interface/prairie_view_loader.py:147-162 | one more file overlays its pages at the running offset, which is the page total of the earlier files |
| Reassembly.StartPageIsPageTotal | element_interface/prairie_view_loader.py:147-161 | the `k`-th file is overlaid at `start_page` equal to the sum of the page counts of the files before it |
| Reassembly.AssembleMultipage | element_interface/prairie_view_loader.py:143-176 | the multi-page loop writes exactly the outputs, and raises exactly the error, that `MultipageRun` defines |
| Reassembly.MultipageRunFrom | element_interface/prairie_view_loader.py:147-176 | continuing the loop from any prefix of files yields the remaining snapshots and the first unreadable file's error |
| Reassembly.MultipageOutputs | element_interface/prairie_view_loader.py:147-176 | with a frame rate: one output per readable file, each the buffer so far, then an error naming the first unreadable file. Without one: no output, and a missing-key error after the first readable file |
| Reassembly.SnapshotsAreRunningBuffers | element_interface/prairie_view_loader.py:166-176 | the `k`-th output is the buffer after the first `k+1` files only |
| Reassembly.PerFileWritesLeavePartialOutputs | element_interface/prairie_view_loader.py:166-176 | with two single-page files, the code's first output has an unset slot, while the combined buffer is complete |
| Reassembly.CombinedStackComplete | element_interface/prairie_view_loader.py:135-162 | when the files hold all pages, the buffer after every file holds, for each timepoint, exactly page `page_indices[t]` |
| Reassembly.SinglePlaneRoundTrip | element_interface/prairie_view_loader.py:135-162 | a single-plane, single-channel acquisition comes back page for page as stored |
| Reassembly.FirstUncopyable | element_interface/prairie_view_loader.py:187-206 | every source before the returned position opens, has one page and can be tagged; the one at it cannot |
| Reassembly.SinglePages | element_interface/prairie_view_loader.py:193-195 | one page per copied source file |
| Reassembly.StreamLegacy | element_interface/prairie_view_loader.py:177-209 | the legacy loop writes exactly the parts, and raises exactly the error, that `Legacy` defines |
| Reassembly.LegacyPages | element_interface/prairie_view_loader.py:187-206 | the pages written, concatenated, are the single pages of the sources before the first uncopyable one, and the error names that source |
| Reassembly.LegacySplit | element_interface/prairie_view_loader.py:207-208 | when every source is copied, each part reaches the size limit exactly at its last page, except possibly the last part |
| Reassembly.LegacyOutputs | element_interface/prairie_view_loader.py:177-209 | the legacy write as a whole: its pages, its error, its size rule, and one part when no limit is set |
| Reassembly.SplitBySizeUnique | element_interface/prairie_view_loader.py:207-208 | the size rule determines the parts: two splits of the same pages are equal |
| Loader.MetaCached | element_interface/prairie_view_loader.py:38-49 | a successful access caches what it yields; once the cache is filled, later accesses yield it unchanged |
| Loader.FirstAccess | element_interface/prairie_view_loader.py:40-47 | the first access succeeds iff extraction succeeds with at least one plane and a non-zero duration. It then yields the extracted record with the frame rate set and `num_frames` = pages / planes rounded down. A failed extraction leaves the cache empty |
| Loader.MetaPoisoned | element_interface/prairie_view_loader.py:40-47 | a division by zero in the adjustment still leaves a record cached, which the next access returns without error, lacking `num_frames` or the frame rate |
| Loader.CorrectedCacheComplete | element_interface/prairie_view_loader.py:38-49 | with the cache set only after the adjustment, every cached or returned record has `num_frames` and the frame rate |
| Loader.PlaneFrames | element_interface/prairie_view_loader.py:87-94 | the frames searched are those with the plane's index when several planes exist, every frame otherwise |
| Loader.ResolveSelection | element_interface/prairie_view_loader.py:63-85 | selection succeeds iff plane and channel are acceptable; omitted values default to element 0, supplied ones are kept; each failure case gives its own error, the plane checked first |
| Loader.ResolveNames | element_interface/prairie_view_loader.py:87-96 | the resolved names are sorted, distinct, and exactly the filenames of the files with the channel under the frames with the plane |
| Loader.NamedInFrames | element_interface/prairie_view_loader.py:92-96 | a name is found for a channel iff one of the frames' files has that channel and name |
| Loader.IndexOf | element_interface/prairie_view_loader.py:137-138 | `list.index` gives the first position holding the value: within range exactly when the value is present, and no earlier position holds it |
| Loader.Matching | element_interface/prairie_view_loader.py:119 | the glob finds exactly the listed outputs with the stem |
| Loader.Without | element_interface/prairie_view_loader.py:124 | unlinking leaves exactly the entries of other stems |
| Loader.MatchingWithout | element_interface/prairie_view_loader.py:119-124 | after unlinking, no output with the stem is left |
| Loader.MatchingNumbered | element_interface/prairie_view_loader.py:166-181 | the outputs written are found by the glob as parts 0 to n-1, in order |
| Loader.ExistingOutputCheck | element_interface/prairie_view_loader.py:114-126 | existing outputs without `overwrite` are returned, the first or all by `gb_per_file`, leaving the directory as it is. Otherwise other stems are untouched, and the stem's outputs are exactly the numbered parts written, which success returns |
| Loader.MultipageWrite | element_interface/prairie_view_loader.py:127-176 | the multi-page path ignores `gb_per_file`, writes one snapshot per readable file and fails naming the first unreadable one; when every file is readable its last output is the complete combined buffer |
| Loader.UnsplitLegacyWrite | element_interface/prairie_view_loader.py:114-211 | an unsplit legacy write of copyable files, with no earlier output or with `overwrite`, leaves the other stems and creates the single part 0 holding all their pages in order, and returns that one path |
| Loader.PrairieViewMeta.constructor | element_interface/prairie_view_loader.py:36 | a new loader has an empty metadata cache |
| Loader.PrairieViewMeta.Meta | element_interface/prairie_view_loader.py:38-49 | the `meta` property leaves the cache and yields the result exactly as `Access` defines them |
| Loader.PrairieViewMeta.GetFilenames | element_interface/prairie_view_loader.py:51-97 | file resolution through `meta` updates the cache as `Access` does and yields `Resolve`'s result or the metadata error |
| Loader.PrairieViewMeta.WriteSingleBigtiff | element_interface/prairie_view_loader.py:99-211 | the call leaves the cache, the directory listing and the result exactly as `Write` defines them |
| Reader.PositionsOf | element_interface/prairieviewreader.py:143-145 | the positions of a value: all of them, each holding it, ascending, none when the value is absent |
| Reader.PositionsComplete | element_interface/prairieviewreader.py:143-145 | every position holding the value is among its listed positions |
| Reader.Keys | element_interface/prairieviewreader.py:143-146 | the dictionary keys are exactly the values present, without duplicates |
| Reader.AddPreserves | element_interface/prairieviewreader.py:144-145 | entering the next position keeps the dictionary equal to the value-to-positions map of the prefix |
| Reader.IndexByValue | element_interface/prairieviewreader.py:143-145 | the loop builds the dictionary: one group per distinct value in first-occurrence order, with all its positions |
| Reader.FirstRepeatFrom | element_interface/prairieviewreader.py:146-148 | the first position whose value occurs elsewhere, no such position before it |
| Reader.KeysInOrder | element_interface/prairieviewreader.py:146-148 | dictionary keys come in order of first occurrence |
| Reader.RepeatedValue | element_interface/prairieviewreader.py:146 | a value has more than one position iff it repeats at each of them |
| Reader.FirstRepeatedGroup | element_interface/prairieviewreader.py:146-148 | the first repeating group is the value at the first repeating position with all its positions; there is none iff no value repeats |
| Reader.KeepDelete | element_interface/prairieviewreader.py:150-151 | deleting index `d` after deleting only higher indices removes exactly position `d` of the original |
| Reader.Reverse | element_interface/prairieviewreader.py:149 | sorting an ascending list in reverse gives the list back to front |
| Reader.DeleteDescending | element_interface/prairieviewreader.py:150-151 | deleting a descending list of indices one by one keeps exactly the elements at the other positions |
| Reader.KeepPositions | element_interface/prairieviewreader.py:147-151 | dropping a value's positions removes exactly its occurrences |
| Reader.DropPlan | element_interface/prairieviewreader.py:147-151 | the reversed positions are valid and descending, and deleting them gives the reader's result |
| Reader.ReverseAscending | element_interface/prairieviewreader.py:148-149 | the reversed positions are descending, in range, and the same positions |
| Reader.DropFirstRepeated | element_interface/prairieviewreader.py:143-151 | the dictionary loop and the deletions yield exactly `WithoutFirstRepeat` |
| Reader.WithoutFirstRepeatSpec | element_interface/prairieviewreader.py:143-151 | with no repeat the list is unchanged. Otherwise the dropped value is the first that repeats and occurs at least twice, and every other value is kept in order |
| Reader.WithoutFirstRepeatExample | element_interface/prairieviewreader.py:143-151 | a fixed controller at 0 beside a stepping one: removing 0 leaves the stepping values |
| Reader.RemoveAllMembers | element_interface/prairieviewreader.py:150-151 | removing every occurrence of a value keeps exactly the other values |
| Reader.GetPvMetadata | element_interface/prairieviewreader.py:45-176 | the reader's computation yields exactly the record, or the error, that `PvMetadata` defines |
| Reader.ReaderZLayout | element_interface/prairieviewreader.py:119-176 | a successful Z rule reports the number of distinct cycle-1 frame indices as the plane count, and a Z list or range with one entry per plane |
| Reader.PvCounts | element_interface/prairieviewreader.py:48-73 | missing cycle 1, settings or frames fail. Otherwise the frame count is the number of frames, which is non-zero, and the channel count is the number of distinct channel ids |
| Reader.PvDepths | element_interface/prairieviewreader.py:101-127 | without cycle-1 Z data: one plane, the first Z value, no bidirectional Z. With it: the planes are the distinct cycle-1 indices, and the Z data has one entry per plane |
| Reader.PvZList | element_interface/prairieviewreader.py:129-157 | several Z sub-values: the Z list is the cycle-1 values without the first repeated value. An empty result and a count other than the plane count each fail, and success holds iff neither happens |
| Reader.ReaderAgreesWithExtractor | element_interface/prairieviewreader.py:51-56 | where both succeed, the reader and the extractor count the same channels and frames |

## Left out

- XML parsing, the search for the descriptor file (`__init__`, `get_prairieview_metadata`, `get_pv_metadata`) and `_extract_prairieview_metadata`'s existence check are not modelled. The model starts from a parsed descriptor.
- The descriptor's scalar settings: frame period, line period, date, pixel size, microns per pixel and scan centre. They are reduced to one flag saying whether all of them are present and parse. Their values are floats or datetimes and are not modelled. Several errors are therefore not modelled: the reader's division by a zero frame period, the `ValueError` from `float()`, `int()` or `strptime` on a malformed value, and the `TypeError` from `float(None)` on a last frame without `relativeTime`.
- Reader.PvMetadata, Reader.GetPvMetadata, Reader.PvCounts: they report success on a descriptor whose frame period is `"0"`. The reader raises `ZeroDivisionError` there, at `framerate = 1 / float(...)` (prairieviewreader.py lines 57-59), because the frame period's value is not modelled.
- Floating point:
  - The frame rate is only "set" or "not set".
  - `scan_duration` is only "zero" or "non-zero".
  - Z positions are tokens compared as strings. The extractor compares controller values as floats, so `"1.0"` and `"1"` count as different here.
  - The reader's `np.arange` range is a parameter giving its size, or None when the Z-step setting is missing.
  - `z_min`, `z_max` and `z_step` are not modelled.
- Reader.ReaderZLayout: the subindex-0 lookup of the range branch is checked on Z-axis entries only. The descriptor does not carry the X and Y axes of `positionCurrent`, which the code's query also matches.
- The TIFF codec: a source file is its page list, and a file that cannot be opened is one missing from the map. Pixel data, shapes, tags and the `np.empty` contents of unset slots are not modelled. An unset slot is `Unset`.
- Reassembly.PartBytes: a part's size on disk is taken as 2 bytes per 16-bit pixel, without TIFF header and tag overhead. `gb_per_file` is a whole number of GiB; fractional values are not modelled.
- `os.path.commonprefix`: the output prefix is always a parameter, so the default prefix computation is not modelled.
- Loader.Matching: the glob `{stem}*.tif` is modelled as equality of stems. It does not capture that the pattern also matches longer stems with the same prefix (for example `pln1` matching `pln10`). Output names are structured values, not formatted strings.
- Ordering.SetListing: `list(set(...))` is modelled as an ascending listing. CPython lists a set of integers in that order only when every element is smaller than the set's hash-table size, as consecutive ids from 0 or 1 are. Otherwise it need not: `set([1, 8])` lists as `[8, 1]`. `slice_idx` and `channel_idx` take their positions from these lists through `.index` (lines 137-138), so for other plane or channel ids the model does not capture which pages are selected.
- `int(a / b)` is modelled as exact floor division. The float rounding for page counts beyond 2^53 is not modelled.
- Logging, the `caiman_compatible` argument (which has no effect), the `return_pln_chn=False` form of `get_prairieview_filenames`, and the re-wrapping of exceptions into messages are not modelled. Errors are kept as values that name the cause.
- Geometry, timing and ROI fields of both metadata dictionaries are not modelled.

## Findings

| source | as written | input that shows it | evidently intended | confidence | as-written member | corrected member |
|---|---|---|---|---|---|---|
| element_interface/prairie_view_loader.py:166-176 | the `imwrite` call sits inside `for input_file in tiff_names` (line 148). Each pass writes the whole buffer to its own numbered output `{stem}_{len(output_tiff_list):04}.tif`, so `_0000`, `_0001`, … each hold only the pages read so far, and every later timepoint is left as `np.empty` left it | a multi-page acquisition of one plane, one channel and two timepoints stored as two single-page files: `_0000` has its second timepoint unset | the buffer is allocated once for every timepoint (lines 143-146) and `start_page` runs across all files (lines 147 and 161). Both point to one output written after the loop, holding every target page | medium, not executed | Reassembly.PerFileWritesLeavePartialOutputs | Reassembly.CombinedStackComplete |
| element_interface/prairie_view_loader.py:41-47 | `_meta` is assigned before the frame adjustment, so a division by zero leaves a record in the cache; the next `meta` access returns it without error, lacking `frame_rate` (and `num_frames` when there are no planes) | a descriptor whose last frame has `relativeTime` 0, such as a single-frame scan: the first access raises, and the second returns a record without `frame_rate` | the cache filled only once the adjustment succeeds | high, not executed | Loader.MetaPoisoned | Loader.CorrectedCacheComplete |

In both rows the loader itself (`Loader.Write`, `Loader.PrairieViewMeta`) follows the code as
written. The corrected definitions are `Reassembly.CombinedStack` and `Loader.AccessCorrected`.
`Loader.MultipageWrite` shows that when every file is readable, the code's last output equals
the corrected single output.
