# motoriders index builder, modelled in Dafny

`build_readme.py` renders every GPX track in the `gpx` folder to a map image
and writes `readme.md`, which gets one section per track. Two parts of the
script are its own logic, and this project models both:

- **Trip statistics** (`trip_stats.dfy`, `gpx_to_png.dfy`). The nested walk
  in `gpx_to_png` goes over tracks, then segments, then points. It flattens
  the parsed file into latitude, longitude and elevation lists. It sums the
  3D distance and the positive elevation changes between consecutive points
  of the same segment. Then it collects the waypoints, projects both point
  lists, and shows the distance in kilometres and the ascent in metres.
  - `TripStats` holds the data model (`Gpx`, `Track`, `Segment`, `Point`,
    `Waypoint`). It also holds the reference folds (`SegmentAscent`,
    `Ascent`, `Distance`, `PointsOf`) and their properties.
  - `GpxToPng` holds the walk, proved equal to those folds. The walk is
    split per segment (`WalkSegment`) and per track (`WalkTrack`). Each
    part starts its own totals at 0 and its own lists empty, and the caller
    adds them to its running totals and appends them to its lists. The
    script keeps one running total and one list of each kind. The two agree
    because the model adds exact reals, where addition is associative.
- **Index assembly** (`posix_path.dfy`, `readme_index.dfy`). The top-level
  loop does the following:
  - keeps the listing items whose lower-cased name ends in `.gpx`;
  - hands each one to the renderer with its PNG path next to it;
  - names its section after `os.path.splitext` of the file name;
  - writes the `# Motoriders` title followed by the sections joined with
    `\n---\n`.

  `PosixPath` models the two path operations used, `os.path.join` and
  `os.path.splitext`, as POSIX behaves. `ReadmeIndex` models the filter,
  the section text, the join and the loop.

Choices made in the model:

- **Numbers.** Coordinates, elevations and distances are `real`, so every
  sum is exact.
- **Distance.** The GPX library's `distance_3d` is a parameter `dist`. It is
  known only to be non-negative, and it is called as `dist(point, prev)`,
  in the same order as the script.
- **Projection.** The EPSG:4326 to EPSG:3857 transformer is a parameter
  `proj` that is applied to each (longitude, latitude) pair.
- **Directory listing.** The result of `os.listdir` is the input sequence.
  The document is returned as a string. Each call of `gpx_to_png` is
  recorded as the `RenderJob` (GPX path, PNG path) it receives.

The model follows the script's text:

- The title is `# Motoriders`.
- The link text is `[Descargar GPX]`.
- The image and download URLs are `https://github.com/joanboure/motoriders/gpx/`
  followed by the name and `.png` or `.gpx`. There is no further path level.
- The download link always names a lower-case `.gpx` file, whatever the
  case of the listed file's extension (see `TwoFileFolder`).

## Model

| member | source | states |
|---|---|---|
| TripStats.Gain | build_readme.py:24-26 | a step adds either nothing or exactly the elevation change, never less than the change and never a negative amount |
| TripStats.SegmentAscent | build_readme.py:13-26 | the cumulative ascent of a segment is never negative |
| TripStats.SegmentDistance | build_readme.py:12-23 | the cumulative distance of a segment is never negative, given a non-negative point distance |
| TripStats.SegmentsOf | build_readme.py:15-16 | the segments visited for a single-track file are that track's segments |
| TripStats.PointsOf | build_readme.py:16-21 | the points flattened from a single segment are that segment's points |
| TripStats.EverySegmentVisited | build_readme.py:15-16 | every segment of every track is visited |
| TripStats.EveryPointFlattened | build_readme.py:16-21 | every point of every segment appears in the flattened point list |
| TripStats.PointCount | build_readme.py:19-21 | counting points segment by segment gives the length of the flattened point list |
| TripStats.Ascent | build_readme.py:13-26 | the total ascent over all segments is never negative |
| TripStats.Distance | build_readme.py:12-23 | the total distance over all segments is never negative |
| TripStats.AscentAppend | build_readme.py:15-27 | both totals are additive over segment lists: a segment contributes the same wherever it sits |
| TripStats.PointsOfAppend | build_readme.py:15-21 | flattening is additive over segment lists, so points keep file order across tracks |
| TripStats.ShortSegmentAddsNothing | build_readme.py:22-27 | inserting a segment of zero or one point anywhere changes neither the ascent nor the distance |
| TripStats.SegmentAscentJoin | build_readme.py:22-27 | the ascent of two runs read as one segment is the runs' ascents plus the gain across their seam |
| TripStats.SplitSegmentDropsSeamGain | build_readme.py:16-18 | two consecutive segments total the ascent of their concatenation minus the seam gain: no pair is formed across a segment boundary |
| TripStats.SeamIsNotPaired | build_readme.py:16-27 | points at 0 m and 10 m climb 10 m as one segment but 0 m as two one-point segments |
| TripStats.AscentMinusDescent | build_readme.py:24-26 | ascent minus descent of a segment is its last elevation minus its first |
| TripStats.NoDescentIffNonDecreasing | build_readme.py:24-26 | a segment loses no elevation exactly when its elevations never drop |
| TripStats.AscentAtLeastNetClimb | build_readme.py:24-26 | a segment's ascent is at least its last elevation minus its first |
| TripStats.AscentIsNetClimbIffNonDecreasing | build_readme.py:24-26 | the ascent equals the net climb exactly when elevations never drop, in both directions |
| TripStats.PeakProfileClimbsTen | build_readme.py:24-26 | the profile 0 m, 10 m, 0 m climbs exactly 10 m |
| GpxToPng.WalkSegment | build_readme.py:17-27 | the point loop with `prev_point` reset to none yields the segment's ascent and distance folds and appends its coordinates in order |
| GpxToPng.WalkTrack | build_readme.py:16-27 | the segment loop yields the per-segment sums of ascent and distance and the track's points in order |
| GpxToPng.WalkWaypoints | build_readme.py:30-32 | the waypoint lists match the file's waypoints in length and order |
| GpxToPng.CollectTrackData | build_readme.py:10-32 | the whole walk returns the reference totals (non-negative), equal-length coordinate lists holding every point in file order, and the waypoint lists in order |
| GpxToPng.Km | build_readme.py:52 | the shown kilometres times 1000 give the metres back, and are between 0 and the metres for a non-negative distance |
| GpxToPng.Transform | build_readme.py:36 | projection keeps count and order: the k-th output pair is the projection of the k-th input pair |
| GpxToPng.ProjectWaypoints | build_readme.py:37-40 | waypoint projection keeps count, and no waypoints give two empty lists |
| GpxToPng.GpxToPlot | build_readme.py:35-53 | the plotted line is the projected track in order, markers are drawn exactly when there are waypoints, and the overlay shows the trip distance in km and the trip ascent |
| PosixPath.SplitExt | build_readme.py:69-71 | root and extension concatenate back to the path, and a non-empty extension is a dot followed by text with no dot and no separator |
| PosixPath.JoinPath | build_readme.py:68 | an absolute second component replaces the first. Otherwise the result is the folder, then exactly one `/` when the folder is non-empty and does not already end in `/`, then the file name |
| PosixPath.SplitExtInDirectory | build_readme.py:68-71 | splitting the extension off `dir/name` gives `dir/` plus the root of `name`, with the same extension |
| PosixPath.SplitExtOfFileName | build_readme.py:71 | a name with a four-character extension loses it unless everything before it is dots |
| PosixPath.PlainNameLosesExtension | build_readme.py:71 | `a.gpx` splits into `a` and `.gpx` |
| PosixPath.OnlyLastExtensionSplit | build_readme.py:71 | `a.b.GPX` splits into `a.b` and `.GPX` |
| PosixPath.LeadingDotNameHasNoExtension | build_readme.py:71 | `.gpx` has no extension and is its own root |
| ReadmeIndex.IsGpxFile | build_readme.py:67 | a name that passes the filter has at least the four characters of its suffix |
| ReadmeIndex.EntryName | build_readme.py:71 | the section name is a prefix of the file name, and whatever is cut off starts with a dot |
| ReadmeIndex.JobSwapsExtension | build_readme.py:68-69 | the PNG path of the render job for a file ends in `.png`, and what precedes it is a prefix of the GPX path: only the extension is swapped |
| ReadmeIndex.Join | build_readme.py:78 | joining nothing gives the empty text, and a join starts with its first piece |
| ReadmeIndex.Readme | build_readme.py:76-78 | the document starts with the title, and is the title alone when no file is selected |
| ReadmeIndex.Lower | build_readme.py:67 | lower-casing keeps the length and folds each character on its own |
| ReadmeIndex.IsGpxFileIffSuffix | build_readme.py:67 | the filter passes exactly the names whose last four characters are a dot and g, p, x in either case |
| ReadmeIndex.Entry | build_readme.py:72-73 | a section's length is fixed by its name's length, and it opens with `### ` and the name |
| ReadmeIndex.EntryEndsWithDownloadLink | build_readme.py:72-73 | every section ends with the `[Descargar GPX]` link to the repository URL of the name plus `.gpx` |
| ReadmeIndex.GpxFiles | build_readme.py:66-67 | no more files are selected than are listed |
| ReadmeIndex.GpxFilesMembers | build_readme.py:66-67 | a file is selected exactly when it is listed and passes the filter |
| ReadmeIndex.GpxFilesAppend | build_readme.py:66-74 | selecting from a split listing selects from each part in order |
| ReadmeIndex.GpxFilesAroundItem | build_readme.py:66-74 | each item contributes itself when it passes the filter and nothing otherwise, in listing position |
| ReadmeIndex.GpxFilesStep | build_readme.py:66-67 | one more listed item adds what it selects on its own |
| ReadmeIndex.Entries | build_readme.py:71-74 | one section per selected file |
| ReadmeIndex.EntriesAppend | build_readme.py:74 | sections of a split file list are the sections of each part in order |
| ReadmeIndex.EntriesAt | build_readme.py:71-74 | the k-th section belongs to the k-th selected file |
| ReadmeIndex.Jobs | build_readme.py:68-70 | one render job per selected file |
| ReadmeIndex.JobsAppend | build_readme.py:68-70 | render jobs of a split file list are those of each part in order |
| ReadmeIndex.JobsAt | build_readme.py:68-70 | the k-th render job belongs to the k-th selected file |
| ReadmeIndex.JoinAppend | build_readme.py:78 | joining two non-empty runs puts exactly one separator between them |
| ReadmeIndex.JoinLength | build_readme.py:78 | a join of k pieces has their total length plus exactly k - 1 separators |
| ReadmeIndex.LastPieceEndsJoin | build_readme.py:78 | no separator follows the last piece |
| ReadmeIndex.ImageNamedLikeEntry | build_readme.py:68-73 | the renderer reads `gpx/<file>` and writes `gpx/<section name>.png`, the image the section embeds |
| ReadmeIndex.ItemSelection | build_readme.py:67-74 | the jobs and sections of a one-item listing are the item's own when it passes, otherwise none |
| ReadmeIndex.BuildReadme | build_readme.py:62-78 | the loop renders exactly the selected files in listing order, and writes the title followed by their joined sections |
| ReadmeIndex.NoGpxFilesIffNoneSelected | build_readme.py:66-67 | nothing is selected exactly when no listed item passes the filter |
| ReadmeIndex.TitleOnlyIffNoGpxFiles | build_readme.py:77-78 | the document is the title alone exactly when no listed item is a GPX file |
| ReadmeIndex.ReadmeLength | build_readme.py:77-78 | a document with k sections holds the title, the sections and exactly k - 1 rules |
| ReadmeIndex.ReadmeInListingOrder | build_readme.py:66-78 | files listed first come first, with one rule between the two groups |
| ReadmeIndex.ReadmeEndsWithLastSection | build_readme.py:77-78 | the document ends with the last selected file's section, not with a rule |
| ReadmeIndex.TwoFileFolder | build_readme.py:66-78 | a folder with `a.gpx`, a non-GPX file and `b.GPX` yields the title, section `a`, one rule, section `b` |
| ReadmeIndex.LeadingDotFileKeepsFullName | build_readme.py:67-78 | a file named `.gpx` is selected and its section is named `.gpx` |

## Left out

- GPX parsing with `gpxpy.parse` and opening the file (lines 8-9): a foreign library plus I/O. The model takes the parsed tracks and waypoints as input.
- `distance_3d` (line 23): foreign floating-point geodesy. It is a parameter, known only to be non-negative.
- The Web Mercator reprojection through `pyproj` (lines 35-40): library trigonometry. It is a pointwise parameter, so only count, order and the empty-waypoints branch are stated.
- Plotting with matplotlib, the contextily basemap download and `savefig` (lines 42-50, 55-59): graphics, network and file output.
- The overlay text and its `:.1f` / `:.0f` rounding (lines 51, 54): float formatting. The model stops at the two figures shown.
- Floating-point rounding of the sums: the model adds reals exactly.
- Missing elevations: a `None` elevation makes line 24 raise a `TypeError` in the script. All elevations are present in the model.
- Point truthiness at line 22: parsed points are always truthy, so the test is modelled as "there is a previous point".
- The order of `os.listdir` and the write of `readme.md` (lines 66, 76-78): filesystem I/O. The listing is an input and the document is returned.
- Lower: folds ASCII letters only. Python's `str.lower` also folds other scripts, but no non-ASCII character lowers to `.`, `g`, `p` or `x`, so the `.gpx` filter is decided exactly.
- Entry: the contract states the length and the heading. The download link is stated by `EntryEndsWithDownloadLink`. The embedded image line is stated only through the length, not character by character.
- BuildReadme: every render is assumed to succeed. In the script, an exception from `gpx_to_png` at line 70 stops the run before line 76, and `readme.md` is never written. Causes include a parse error, a missing elevation, a failed basemap download, or a directory whose name ends in `.gpx`. That abort path is not modelled.
- Transform: the projection is a parameter, so the contract says nothing about the Web Mercator formulas.
