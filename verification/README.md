# rouvy-tools post-processing, modelled in Dafny

`postprocess.py` turns GoPro videos into GPX tracks and HTML maps. Most of the
script is glue around an external metadata tool, a GPX library, an elevation
service and a map renderer. This project models the three pieces of logic the
script owns and proves what they promise:

- **Duplicate-timestamp pass** (`find_time_errors`, module `TimeErrors`).
  Within every segment, a point whose timestamp equals the previous point's
  timestamp is reported. When removal is requested, the reported indices are
  deleted in descending order. The previous timestamp starts out as the
  sentinel `-1`, modelled as `Prev.Sentinel`. That value equals neither a
  timestamp nor `None`, so index 0 is never reported. Two consecutive missing
  timestamps (`None == None`) do count as duplicates. A first point without a
  timestamp is not flagged, because `-1 != None`.
- **Input ordering** (the split/sort/rejoin in `main`, modules `Lex` and
  `FileOrder`). Each name `fn` becomes `(fn[4:], fn[:4])`. The pairs are sorted
  with Python's tuple and string order, then rejoined as `seg + vid`. Also
  modelled: the map file name `fn.split('.')[0] + '_map.html'`.
- **GPX timestamp serialiser** (`format_time`, modules `Decimal` and
  `TimeFormat`). The output is `YYYY-MM-DDTHH:MM:SS`, then `.mmm` when the
  microsecond is non-zero, then `Z` or the `%z` offset. `ParseTime` reads this
  text back. It is used only to state a round-trip property of the serialiser.

Timestamps in `TimeErrors` have an abstract type `T` that needs only
equality, because the pass only compares them with `==`. Latitude, longitude
and elevation are carried through unchanged. Python's `datetime` is a record
of integers. Its UTC offset is an optional whole number of seconds.

The zone test in `format_time` reads `not offset or offset == 0`. The second
half compares a `timedelta` with an `int` and is never true. The first half
already holds exactly for a missing offset and a zero offset, which is what
`IsUtc` states.

## Model

| member | source | states |
|---|---|---|
| TimeErrors.FindInSegment | postprocess.py:54-61 | The reported indices are exactly the `i` with `0 < i` and `time[i] == time[i-1]`, in strictly ascending order, so index 0 is never reported. The report is empty exactly when no two adjacent points share a timestamp. |
| TimeErrors.DeleteDescending | postprocess.py:63-67 | Running `del points[i]` over the ascending index list in reverse gives the same result as a one-pass filter that drops those indices. The length falls by the number of indices. |
| TimeErrors.CleanSegment | postprocess.py:54-67 | One segment's pass returns the duplicate report. The segment is unchanged when removal is off. With removal on, each run of equal timestamps is collapsed to its first point. |
| TimeErrors.Cleaned | postprocess.py:63-67 | The segment one pass leaves behind: the input when removal is off, otherwise the reference `CollapseRuns`. It has no contract of its own; `CleanSegment` shows the loop produces it and `FilterIsCollapse` ties it to the flagged indices. |
| TimeErrors.FindTimeErrors | postprocess.py:51-67 | The numbers of tracks and segments are unchanged, and each segment is treated on its own. Without removal the GPX is unchanged. With removal the result has no adjacent duplicate timestamps. On data that is already clean, nothing is reported and nothing changes. |
| TimeErrors.CollapseRuns | postprocess.py:58-67 | The reference behaviour. It keeps the first point and never lengthens the segment. Its result has no two adjacent points with equal timestamps. |
| TimeErrors.FilterIsCollapse | postprocess.py:58-67 | Filtering out exactly the flagged indices keeps the first point of every run of equal timestamps and nothing else. |
| TimeErrors.WithoutOneMore | postprocess.py:65-67 | Once every larger flagged index has been deleted, the position of a smaller pending index is unchanged. Deleting it there equals filtering it out as well. |
| TimeErrors.WithoutIsSubsequence | postprocess.py:63-67 | The surviving points keep their relative order. |
| TimeErrors.CollapseClean | postprocess.py:58-67 | A segment without adjacent duplicate timestamps is left as it is. |
| TimeErrors.CollapseIdempotent | postprocess.py:58-67 | Cleaning a segment twice gives the same result as cleaning it once. |
| TimeErrors.RunOfThree | postprocess.py:58-67 | The timestamps `[t, t, t, u]` reduce to `[t, u]`, keeping the first and the last point. |
| TimeErrors.ReportOnlyChangesNothing | postprocess.py:63 | When every segment is the result of a pass without removal, the GPX is the one that went in. |
| TimeErrors.CleanAfterRemoval | postprocess.py:63-67 | When every segment is the result of a pass with removal, no segment has two adjacent points with equal timestamps. |
| TimeErrors.SecondPassIsIdle | postprocess.py:51-67 | On clean input the pass reports no index in any segment and returns the same GPX, whether or not removal is requested. |
| FileOrder.SplitName | postprocess.py:102 | The prefix followed by the rest gives back the name. The prefix has 4 characters, or the whole name when it is shorter, following Python's slice clamping. |
| FileOrder.Rejoin | postprocess.py:105 | `seg + vid` for a pair `(vid, seg)`. It has no contract of its own; `SplitName` shows it inverts the split at line 102. |
| FileOrder.Sort | postprocess.py:104 | The sorted list is a permutation of its input and is non-decreasing in Python's tuple order. |
| FileOrder.SortedPermutationUnique | postprocess.py:104 | Two sorted permutations of the same list are equal, so the sorting algorithm does not affect the order. |
| FileOrder.RejoinSort | postprocess.py:104-105 | Rejoining the sorted pairs gives the same names as rejoining them unsorted. |
| FileOrder.OrderInputs | postprocess.py:102-105 | The ordered list has the same length and the same names as the input. It is non-decreasing by `(fn[4:], fn[:4])`. |
| FileOrder.GroupedByTail | postprocess.py:102-104 | In the ordered list the tails after the first 4 characters are non-decreasing. Names with equal tails are ordered by their 4-character prefix. |
| FileOrder.ChaptersInOrder | postprocess.py:102-105 | The names `GX010002.mp4, GX020001.mp4, GX010001.mp4` are visited as `GX010001.mp4, GX020001.mp4, GX010002.mp4`. |
| FileOrder.Basename | postprocess.py:113 | The base name is a prefix of the file name with no `.` in it. It is either the whole name or is followed by the first `.`. |
| FileOrder.MapFileName | postprocess.py:162 | The map name is the base name followed by `_map.html`. |
| Lex.StrLe | postprocess.py:104 | Python's `<=` on `str`, code point by code point with a proper prefix first. Its properties are stated by the `PairLe` lemmas below through `StrLeReflexive`, `StrLeAntisymmetric`, `StrLeTransitive` and `StrLeTotal`. |
| Lex.PairLe | postprocess.py:104 | Python's `<=` on 2-tuples, used by `vidsegs.sort()`. That it is a total order is stated by `PairLeTransitive`, `PairLeAntisymmetric` and `PairLeTotal`. |
| Lex.PairLeTransitive | postprocess.py:104 | The tuple order used by the sort is transitive. |
| Lex.PairLeAntisymmetric | postprocess.py:104 | Two tuples that are each at most the other are equal. |
| Lex.PairLeTotal | postprocess.py:104 | Any two tuples are comparable. |
| TimeFormat.FormatTime | postprocess.py:23-33 | `format_time`: the stamp, the fraction and the zone joined. Its layout is stated by `FormatTimeShape` and its read-back by `ParseFormatTime`. |
| TimeFormat.IsUtc | postprocess.py:25 | `not offset or offset == 0`: the offset is absent or zero. `ZoneShape` and `FormatTimeShape` state that exactly these times get `Z`. |
| TimeFormat.Stamp | postprocess.py:33 | `strftime('%Y-%m-%dT%H:%M:%S')`. Its layout is stated by `StampShape`, its read-back by `StampFields`. |
| TimeFormat.Fraction | postprocess.py:29-32 | `strftime('.%f')[:4]` for a non-zero microsecond, else empty. Its value is stated by `FractionTruncates` and `SubMillisecondIsZero`. |
| TimeFormat.Zone | postprocess.py:24-28 | `Z` or `strftime('%z')`. Its shape is stated by `ZoneShape`, its read-back by `ParseZoneOf`. |
| TimeFormat.OffsetText | postprocess.py:28 | `strftime('%z')` of a non-zero offset: a sign, then `OffsetDigits`. `ParseOffsetText` shows it reads back as the offset. |
| TimeFormat.OffsetDigits | postprocess.py:28 | The digits `%z` writes: 4 digits, or 6 when the offset has seconds, all decimal. |
| TimeFormat.FormatTimeShape | postprocess.py:23-33 | The text ends in `Z` exactly when the offset is absent or zero. It has a `.` exactly when the microsecond is non-zero, and then only at position 19. That fraction is `.` and `microsecond / 1000` in 3 digits. Without a fraction, position 19 starts the zone. |
| TimeFormat.FractionTruncates | postprocess.py:29-32 | `strftime('.%f')[:4]` is `.` followed by the microsecond divided by 1000, truncated, in 3 zero-padded digits. |
| TimeFormat.SubMillisecondIsZero | postprocess.py:29-30 | Microseconds 1 to 999 give the fraction `.000`, not rounded up. |
| TimeFormat.StampShape | postprocess.py:33 | `%Y-%m-%dT%H:%M:%S` is 19 characters: zero-padded fields at fixed positions with `-`, `T` and `:` between them. |
| TimeFormat.ZoneShape | postprocess.py:24-28 | The zone is `Z` for an absent or zero offset. Otherwise it is the offset's sign followed by 4 or 6 digits. |
| TimeFormat.ParseOffsetText | postprocess.py:28 | Reading back the `%z` text of a non-zero offset gives the offset in seconds. |
| TimeFormat.ParseFormatTime | postprocess.py:23-33 | Reading back the serialised text gives the date, the time of day and the offset. The only losses are the sub-millisecond digits and the difference between a zero offset and none. |
| Decimal.PadPrefix | postprocess.py:30 | Cutting a zero-padded field short gives the field for the number without its last digits, which is truncation. |
| Decimal.ValueOfPad | postprocess.py:33 | A zero-padded decimal field reads back as the number written into it. |

## Left out

- The calls to `exiftool.exe` and `shell` (lines 47-49, 119-127) are external processes and I/O. `shell` ignores its argument and always runs `echo %CD%`.
- `gpxpy.parse`, `gpx.smooth`, `get_uphill_downhill`, `get_moving_data`, `to_xml` and the monkey-patch at line 36 are library code that is not visible here. `format_time` is modelled as a plain function.
- The `srtm` elevation fill (lines 109, 142) belongs to a library and needs network or file data.
- `overlayGPX` (lines 69-86) averages floating-point coordinates and renders HTML with folium.
- `fnmatch.filter(os.listdir(indir), '*.mp4')` (line 99) is left out because its case rules depend on the platform and the directory listing is I/O. `OrderInputs` takes the filtered list as its input.
- `showtree`, argparse, file writing, `print` reporting and the unreachable `if False:` and post-`continue` code (lines 117-121, 152-153, 167-170) are left out. The reported indices are returned instead of printed.
- `trkseg.walk()` is assumed to yield each point with its index in order, as line 56 unpacks it. The walk is modelled as a loop over the index.
- TimeFormat.Valid: years are limited to 1000-9999, because the `%Y` padding of smaller years depends on the platform.
- TimeFormat.OffsetText: UTC offsets are whole seconds. Python also allows microseconds in an offset, which `%z` would print as `.ffffff`.
- FileOrder.Sort: Python's `list.sort` is modelled by an insertion sort. `SortedPermutationUnique` shows that the resulting list is the same.
- FindTimeErrors returns a new `Gpx` instead of deleting from `trkseg.points` in place. Nothing is lost, because the lists come fresh from `gpxpy.parse` and nothing else refers to them.
- MapFileName models only the file name `basename + '_map.html'`. The `os.path.join(outdir, ...)` around it at line 162 is path handling and I/O.
