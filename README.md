# SD card quick viewer: scan, date filter and list state

This project models the core of `SDCardQuickView.py`, a small desktop viewer.
The viewer lists the photos on an SD card, filters them by capture date and
deletes the ones the user selects. The model covers:

- **Scan** (`Scanner`): `create_image_list` walks a folder tree. It keeps every
  file whose lower-cased name ends with one of 46 fixed suffixes and emits
  `join(root, file)` in walk order. The walk is an input: the sequence of
  `(root, dirs, files)` triples `os.walk` yielded. `Paths` holds ASCII
  lower-casing, `endswith`, POSIX `join` and `basename`.
- **Capture date** (`Dates`, `Metadata`): `get_image_date` takes the first
  `DateTime` EXIF entry. If that value parses as `YYYY:MM:DD HH:MM:SS`, its
  calendar date is the result. Otherwise the result is the modification date.
  The EXIF map and the modification date are inputs. The modification date is
  optional, because `getmtime` raises on a path that no longer exists.
- **Date filter** (`DateFilter`): `apply_date_filter` rescans the folder and
  keeps, in order, the paths whose effective date lies in the inclusive range
  `start..end`. Dates compare as `(year, month, day)`. If reading any date
  raises, the exception leaves the handler before anything is assigned;
  nothing catches it (see "## Left out").
- **List state** (`Items`, `Viewer`): class `Viewer.App` holds two fields.
  `images` is the list of paths. `items` is the list widget's entries: an
  identity, the shown name, the path, and the selected and checked flags. The
  handlers `load_images`, `on_item_changed`, `select_all_images`,
  `deselect_all_images`, `apply_date_filter` and `delete_images` are methods
  that update those fields in place. The answer of the confirmation box and
  the outcome of each `os.remove` are parameters.

`Scenarios` proves, for one small card, what the scan, the date lookup and
the filter give end to end.

Two behaviours one would expect of a photo viewer are not what the code
does, and the model follows the code:

- **`.HIF`:** one would expect `.hif` and `.heic` photos to be listed. The
  code's tuple has no `heic`, and its `.HIF` entry is upper case. The name is
  lower-cased first, so that entry can never match, and `.hif` files are not
  listed.
- **Failed deletions:** one would expect a file that could not be deleted to
  keep its entry in the list. In the code, `takeItem` sits outside the `try`,
  so the entry is removed either way.

## Model

| member | source | states |
|---|---|---|
| Paths.Lower | SDCardQuickView.py:122 | `file.lower()` keeps the length and maps every ASCII upper-case letter to its lower-case letter and every other character to itself |
| Paths.LowerOfUpper | SDCardQuickView.py:122 | lower-casing an upper-cased name gives the same result as lower-casing the name itself |
| Paths.Join | SDCardQuickView.py:127 | `os.path.join(root, file)` ends with the file name and starts with the root unless the name is absolute; `BasenameOfJoin` states that the basename gives the name back |
| Paths.Basename | SDCardQuickView.py:137 | `os.path.basename`; its properties are stated by `BasenameIsLastComponent` and `BasenameOfJoin` |
| Paths.BasenameIsLastComponent | SDCardQuickView.py:137 | `os.path.basename` is the longest tail of the path without a separator |
| Paths.BasenameOfJoin | SDCardQuickView.py:137 | the name shown for a scanned path is the file name the walk listed |
| Scanner.EndsWithAny | SDCardQuickView.py:122 | `endswith` on a tuple holds iff the string ends with some entry of the tuple |
| Scanner.IsImageFile | SDCardQuickView.py:122-126 | the filter `file.lower().endswith(...)`; `IsImageFileByEnding`, `HifEntryUnreachable` and `MatchIgnoresCase` state what it accepts |
| Scanner.ImageList | SDCardQuickView.py:118-128 | the list `create_image_list` returns; `ImageListMembership`, `ImageListIsKeptEntries` and `ImageListLength` state its contents, order and length |
| Scanner.CreateImageList | SDCardQuickView.py:118-128 | the nested loop over the walk and its files returns exactly `ImageList(walk)` |
| Scanner.KeptInIsKeptPaths | SDCardQuickView.py:121-127 | the inner loop over one directory's files is the filter applied to that directory's entries |
| Scanner.ImageListIsKeptEntries | SDCardQuickView.py:119-128 | the scan result is the filter applied to every file of the walk, in walk order |
| Scanner.ImageListLength | SDCardQuickView.py:119-128 | the scan lists at most as many paths as the walk listed files |
| Scanner.ImageListMembership | SDCardQuickView.py:120-127 | a path is in the scan result iff it is `join(root, file)` for some file of the walk that passes the filter |
| Scanner.EndsWithAnyByEnding | SDCardQuickView.py:122 | against entries of four or five characters, `endswith` holds iff the last four or last five characters are an entry |
| Scanner.SuffixTuple | SDCardQuickView.py:122-126 | the suffix tuple has 46 entries, its last entry is the upper-case `.HIF`, and the 45 before it are already lower case |
| Scanner.IsImageFileByEnding | SDCardQuickView.py:122-126 | a name passes iff the last four or last five characters of its lower-cased form are in the tuple |
| Scanner.UpperHifNeverMatches | SDCardQuickView.py:122-126 | no lower-cased name ends with `.HIF` |
| Scanner.HifEntryUnreachable | SDCardQuickView.py:122-126 | dropping `.HIF` from the tuple changes the outcome for no name |
| Scanner.MatchIgnoresCase | SDCardQuickView.py:122 | a name and its upper-cased form pass or fail together |
| Scanner.JpgIsKept | SDCardQuickView.py:122 | `a.jpg` passes the filter |
| Scanner.UpperCaseJpgIsKept | SDCardQuickView.py:122 | `IMG_0001.JPG` passes the filter |
| Scanner.PngIsKept | SDCardQuickView.py:122 | `b.png` passes the filter |
| Scanner.RawNefIsKept | SDCardQuickView.py:125 | the raw format `DSC_0042.NEF` passes the filter |
| Scanner.HifNeverKept | SDCardQuickView.py:122-126 | no name whose lower-cased form ends with `.hif` passes, whatever its case, although the tuple lists `.HIF` |
| Scanner.TiffNeverKept | SDCardQuickView.py:122-126 | no name whose lower-cased form ends with `.tiff` passes: only `.tif` is listed |
| Scanner.HeicNeverKept | SDCardQuickView.py:122-126 | no name whose lower-cased form ends with `.heic` passes: it is not listed |
| Scanner.UpperCaseHifIsDropped | SDCardQuickView.py:126 | the camera's `C.HIF` does not pass |
| Scanner.TextFileIsDropped | SDCardQuickView.py:122-126 | `c.txt` does not pass |
| Dates.DaysInMonth | SDCardQuickView.py:172 | the day limit `strptime` enforces is 28 to 31, and it is 29 exactly for February of a leap year |
| Dates.ParseExifDateTime | SDCardQuickView.py:172 | a value that parses has the `YYYY:MM:DD HH:MM:SS` layout and denotes a valid calendar date and time |
| Dates.ParseExifText | SDCardQuickView.py:172 | text in the layout parses to its six fields iff they form a valid date and time, and fails otherwise |
| Dates.ParseFormatRoundTrip | SDCardQuickView.py:172 | formatting a valid date and time in the EXIF layout and parsing it gives it back |
| Dates.FormatParseRoundTrip | SDCardQuickView.py:172 | a value that parses is exactly the formatting of what it parses to |
| Dates.LeapDayAcceptedOnlyInLeapYears | SDCardQuickView.py:172 | 29 February parses iff the year is a leap year |
| Dates.OutOfRangeFieldsRejected | SDCardQuickView.py:172 | 31 April, year 0, month 13, hour 24 and second 60 are all rejected |
| Metadata.FindTag | SDCardQuickView.py:170-171 | the search finds nothing iff no entry has the tag, and otherwise returns the value of the first entry that has it |
| Metadata.ExifDate | SDCardQuickView.py:167-172 | the date the first `DateTime` entry supplies; `EffectiveDateFromExif`, `EffectiveDateWithoutTag` and `EffectiveDateOnBadValue` state when it decides the result |
| Metadata.EffectiveDate | SDCardQuickView.py:165-175 | the date is the EXIF date or the modification date, never anything else, and it is missing only when the modification date is |
| Metadata.EffectiveDateFromExif | SDCardQuickView.py:169-172 | when the first `DateTime` entry parses, its calendar date is the result |
| Metadata.EffectiveDateWithoutTag | SDCardQuickView.py:169-175 | with no EXIF map or no `DateTime` entry, the result is the modification date |
| Metadata.EffectiveDateOnBadValue | SDCardQuickView.py:171-175 | when the first `DateTime` entry does not parse, the result is the modification date, and later entries are not consulted |
| Metadata.EffectiveDateOfCameraValue | SDCardQuickView.py:170-172 | a camera-written `DateTime` as the first entry yields that date, whatever follows it and whatever the modification date |
| DateFilter.InRange | SDCardQuickView.py:161-163 | `start_date <= image_date <= end_date`; `DateFilteredMembership` and `EmptyRangeKeepsNothing` state what it keeps |
| DateFilter.DateFiltered | SDCardQuickView.py:158 | the comprehension over a fresh scan; `DateFilteredDefined`, `DateFilteredMembership`, `DateFilteredIsSubsequence` and `DateFilteredIdempotent` state its result |
| DateFilter.DateFilteredDefined | SDCardQuickView.py:158-175 | the filter yields a list iff every scanned path has a date, that is, no `getmtime` call raised |
| DateFilter.DateFilteredMembership | SDCardQuickView.py:158-163 | a path is kept iff it was scanned and `start <= date <= end`, both bounds inclusive |
| DateFilter.DateFilteredIsSubsequence | SDCardQuickView.py:158 | the kept paths are an order-preserving subsequence of the scan |
| DateFilter.DateFilteredIdempotent | SDCardQuickView.py:155-158 | filtering the kept paths again by the same range would change nothing; the source never does that, since a second click rescans, and applying the filter twice equals applying it once because `Viewer.App.ApplyDateFilter`'s result does not depend on the old list |
| DateFilter.EmptyRangeKeepsNothing | SDCardQuickView.py:163 | a range whose start is after its end keeps no path |
| Items.ItemsFor | SDCardQuickView.py:133-141 | each path gives one entry, in order, showing its basename and carrying its path, unchecked and unselected |
| Items.RowOf | SDCardQuickView.py:195 | `row(item)` is -1 iff no entry is that item, and otherwise the row where the item sits |
| Items.Selected | SDCardQuickView.py:178 | the selected entries, top to bottom; `SelectedMembership`, `SelectedEmpty` and `SelectionPartition` state which entries they are |
| Items.Unselected | SDCardQuickView.py:178-195 | the entries a confirmed deletion leaves; `SelectedMembership`, `UnselectedIsSubsequence` and `WithoutSelected` state which entries they are and their order |
| Items.SelectedMembership | SDCardQuickView.py:178 | an entry is in the selected list iff it is listed and selected; the rest are in the unselected list |
| Items.SelectionPartition | SDCardQuickView.py:178 | the selected and unselected entries together account for every entry |
| Items.UnselectedIsSubsequence | SDCardQuickView.py:188-195 | the entries that survive a deletion keep their relative order |
| Items.SelectedEmpty | SDCardQuickView.py:178-180 | the selected list is empty iff no entry is selected |
| Items.NothingSelectedKeepsAll | SDCardQuickView.py:180-182 | with nothing selected, every entry is unselected |
| Items.AllSelected | SDCardQuickView.py:197-200 | after select-all every entry is selected |
| Items.NoneSelected | SDCardQuickView.py:202-205 | after deselect-all no entry is selected |
| Items.LoadedItems | SDCardQuickView.py:131-141 | a freshly loaded list has distinct entries and none is selected |
| Items.TakeRow | SDCardQuickView.py:195 | taking out the row of one more selected entry is the same as removing that entry's identity from the list |
| Items.DeleteStep | SDCardQuickView.py:195 | taking out the row that `row(item)` finds for the next selected entry removes that entry and keeps the entries distinct |
| Items.WithoutSelected | SDCardQuickView.py:188-195 | removing every selected entry by identity leaves exactly the unselected entries |
| Viewer.RemovalReportCovers | SDCardQuickView.py:188-194 | every selected file is reported once, as removed or as failed |
| Viewer.App.constructor | SDCardQuickView.py:47-116 | the window starts with the scan of its folder and one unselected entry per scanned path |
| Viewer.App.LoadImages | SDCardQuickView.py:131-141 | the list is cleared and refilled with one unchecked entry per path; the paths are unchanged |
| Viewer.App.OnItemChanged | SDCardQuickView.py:145-146 | the entry's selection becomes its check state and nothing else changes |
| Viewer.App.SetCheckState | SDCardQuickView.py:143-146 | ticking or clearing a box changes that entry's check state and selection to the new state; an unchanged state changes nothing |
| Viewer.App.SelectAll | SDCardQuickView.py:197-200 | every entry becomes selected and nothing else changes |
| Viewer.App.DeselectAll | SDCardQuickView.py:202-205 | every entry becomes unselected and nothing else changes |
| Viewer.App.ApplyDateFilter | SDCardQuickView.py:155-159 | the paths become the date-filtered fresh scan and the list is reloaded from them; if a date cannot be read, the exception leaves before either field is assigned |
| Viewer.App.RemoveSelected | SDCardQuickView.py:188-195 | the loop over the selected entries leaves exactly the unselected entries in order, and reports the selected paths split by removal outcome |
| Viewer.App.DeleteImages | SDCardQuickView.py:177-195 | nothing selected or declined: the list is unchanged; confirmed: the list becomes the unselected entries in order, even for files whose removal failed, and the report splits the selected paths by removal outcome |
| Scenarios.CardScan | SDCardQuickView.py:118-128 | scanning a card with `a.jpg`, `b.png` and `c.txt` lists the two images |
| Scenarios.CardFilterByDates | SDCardQuickView.py:158-163 | given those two dates, filtering May 2023 keeps the first path and drops the second |
| Scenarios.CardFilterMay | SDCardQuickView.py:155-175 | on that card, filtering May 2023 keeps the photo whose EXIF says 1 May and drops the one modified in June |

## Left out

- Qt widgets, layouts, the status bar, dialogs and message boxes are not modelled. The answer to the confirmation question is a boolean parameter. The information and error boxes appear only as the `DeleteOutcome` value.
- Thumbnail loading and scaling (`QPixmap`, `QIcon`) are not modelled: they do not affect the list's contents.
- `os.walk`, `os.path.getmtime`, `os.remove` and PIL's EXIF reading are inputs to the model. They appear as the walk, the per-path `FileMeta`, and the removal flags. The model assumes the EXIF `DateTime` value is a string.
- Paths.Lower: lower-cases ASCII letters only. Python's `str.lower` also folds non-ASCII letters. All 46 suffixes are ASCII, so the outcome differs only for non-ASCII letters in a name's last five characters.
- Paths.Join: models `posixpath.join`. The Windows variant is not modelled.
- Dates.ParseExifDateTime: accepts only the fixed-width form `DDDD:DD:DD DD:DD:DD` with ASCII digits. `strptime` also accepts single-digit fields, some extra whitespace, and non-ASCII decimal digits (its `%Y` and the `\d` alternatives of `%d`, `%H`, `%M` and `%S` match them, and `int` converts them); all those spellings fall back to the modification date in the model.
- Metadata.EffectiveDate: the modification date is taken as an already-converted calendar date. The local-time conversion of `fromtimestamp` is not modelled.
- Viewer.App.ApplyDateFilter: when `os.path.getmtime` raises, nothing catches the `OSError`, and it leaves the slot connected to the filter button. With PyQt5 5.5 or later and no custom `sys.excepthook`, an unhandled exception in a slot terminates the application. The model treats this uncaught exception as a no-op: it states only that neither field was assigned before the raise.
- Error text, the console message and the error box of `get_image_date` and `delete_images` are not modelled.
- `load_images` connects `itemChanged` to `on_item_changed` again on every call. The model treats the handler as connected once; in Qt a repeated connection runs the idempotent handler several times, with the same result.
- Viewer.App.RemoveSelected: takes entries out of a local copy of the list and stores it back when the loop ends. Nothing else reads the list during the loop, so the final state is the same as with removal in place.
- `on_open_folder_clicked` is not modelled: it picks a folder through a dialog and then rescans and reloads, which `Viewer.App.constructor` already covers. The folder choice is the walk passed in.
- The date edits' ranges and defaults are not modelled; `start` and `end` are parameters.
- The unused imports (`cProfile`, `pstats`, `lru_cache`, `concurrent.futures`, `io`) are not modelled. The source has no thumbnail cache, worker pool or cancellation, so there is nothing of that kind to model.
