# Timeline extractor core, modelled in Dafny

TimelineExtractor downloads a Google location history one day at a time as KML
documents. It merges the days into one history and repairs the result so that
GPSBabel reads it correctly. For photo mode, it collects the capture dates of
photos under a path. This project models the two parts of the program that hold
its logic, and proves what they promise:

- **Location histories** (`src/LocationHistory.py`).
  - Structural element equality.
  - Merging two histories: the names are joined, a Placemark repeated at the
    seam is dropped, and the second history's Placemarks are appended.
  - Folding the merge over a list of days or a range of days.
  - The three repairs run before output: the altitude strip, the
    Point-to-LineString conversion and the LineString reordering. They run in
    the order of `src/extract.py:10-12`.
  - The altitude pattern, as a hand-written recognizer and rewriter.
- **Capture dates** (`src/CaptureDate.py`).
  - The EXIF and XMP readers, and the dispatch on the lower-cased file
    extension.
  - The set of dates under a path.
  - The running least and greatest date over the same traversal.

Files:

| file | contents |
|---|---|
| `wrappers.dfy` | `Option`, `Result` and `Outcome` |
| `element_tree.dfy` | `Element` as an owned tree; `find`, `findall`, `[last()]`, `remove`; `ElementsAreEqual` |
| `kml.dfy` | the KML tags in Clark notation, and the exceptions |
| `merge.dfy` | `Merge` as a function on values, with its properties |
| `altitude_pattern.dfy` | the coordinate pattern `^(?:C +)*C *$` and `re.sub(C, '\1')`, with `C = (\d+(?:\.\d*)?,\d+(?:\.\d*)?),0` |
| `repair.dfy` | the three repairs on one Placemark, the traversal over `Document/Placemark`, the output order |
| `location_history.dfy` | class `KmlTree`, whose methods update the root in place; `GetDates` and `GetDateRange` as loops over the days |
| `capture_date.dfy` | the readers, the dispatch, `GetFromPath` and `GetMinAndMaxFromPath` as recursive methods with loops |

How the model is set up:

- **Documents.** An XML element is an owned value. The in-place updates of
  the source are methods of `KmlTree`, which replace its `root`. Each method is
  specified by a function on the old root, and the properties are lemmas about
  those functions.
- **Days.** A day is an integer day ordinal. The download of one day is a
  parameter `fetch: int -> Option<Element>`; `None` stands for a failed
  request or an unparsable body.
- **The file system.** It is a tree of `Node`s, and a timestamp is an
  integer.
- **Library calls.** `piexif.load`, `ET.parse`, `strptime` and `fromisoformat`
  are uninterpreted fields of `Readers`.
- **Dates that do not parse.** A date string that does not parse raises in
  the source, and nothing catches it. Here that is the error
  `UnreadableDate(path)`, and it propagates out of the traversals just as the
  exception does.

## Model

| member | source | states |
|---|---|---|
| ElementTree.FindFirst | src/LocationHistory.py:32-33 | `find(tag)` gives the first child with the tag: no earlier child has it, and None exactly when no child has it |
| ElementTree.FindLast | src/LocationHistory.py:44 | `Placemark[last()]` gives the last child with the tag: no later child has it, and None exactly when no child has it |
| ElementTree.Children | src/LocationHistory.py:51 | `findall(tag)` gives only children carrying the tag, drawn from the children |
| ElementTree.RemoveAt | src/LocationHistory.py:49 | `remove` takes out exactly one child: the ones before keep their places, the ones after move down by one, and the multiset loses only that child |
| ElementTree.ElementsAreEqual | src/LocationHistory.py:7-21 | tag, text, tail, attributes, child count and children pair by pair; the lemmas below state that this is exactly equality of trees |
| ElementTree.ElementsAreEqualReflexive | src/LocationHistory.py:7-21 | every element is structurally equal to itself |
| ElementTree.ElementsAreEqualIdentical | src/LocationHistory.py:7-21 | structurally equal elements are the same tree |
| ElementTree.ElementsAreEqualIsEquality | src/LocationHistory.py:7-21 | on owned trees, structural equality holds exactly when the two values are equal (both directions) |
| ElementTree.SwappedChildrenAreNotEqual | src/LocationHistory.py:19-21 | children are compared by position: swapping two different children makes the elements unequal |
| Merging.Merged | src/LocationHistory.py:32-40 | the merge fails with 'malformed' exactly when either history lacks a Document, a name, or a name text |
| Merging.MergedName | src/LocationHistory.py:37-42 | a merge of two acceptable histories succeeds; the name becomes `name1 + "\n" + name2`, and the result can be merged again |
| Merging.DropRepeatedPlacemarks | src/LocationHistory.py:44-49 | the last Placemark is dropped exactly when both sides have Placemarks and the last of the first equals the first of the second; otherwise no Placemark is removed |
| Merging.MergedPlacemarks | src/LocationHistory.py:44-52 | after a merge, the first Document's Placemarks are its own (less the repeated seam one) followed by all of the second's, in order |
| Merging.MergedPlacemarkCount | src/LocationHistory.py:44-52 | the Placemark count after a merge is n1 + n2 - 1 with a repeated seam Placemark, and n1 + n2 otherwise |
| Merging.MergedKeepsTheRest | src/LocationHistory.py:24-54 | the root keeps its other children and its fields, the first Document keeps its fields, and the children it selects by any tag other than name and Placemark are the same, in the same order. Where the appended Placemarks go is stated by `MergedDocumentChildren` |
| Merging.DropRepeatedIs | src/LocationHistory.py:44-49 | dropping the seam Placemark, stated with equality of values: the last Placemark child is taken out exactly when the two Placemark selections repeat, and the children are otherwise unchanged |
| Merging.MergedDocumentChildren | src/LocationHistory.py:37-52 | the first Document's children after a merge, in full: its own children with the first name's text replaced, the last Placemark taken out when it repeats, then the second Document's Placemarks appended at the end. Every other child, a later name child included, keeps its value and its order |
| Merging.MergedNameChild | src/LocationHistory.py:37-42 | the merged first name child is the old one with only its text replaced by the joined names; its tail, attributes and children stay |
| AltitudePattern.RenderedIsMatched | src/LocationHistory.py:148-149 | the text of every well-formed list of zero-altitude tuples matches the whole-text pattern |
| AltitudePattern.FullMatch | src/LocationHistory.py:148-149 | the scanner for `^(?:C +)*C *$`; `FullMatchIsZeroAltitudeList` states the language it accepts, both ways |
| AltitudePattern.Recognized | src/LocationHistory.py:148-149 | every text the pattern accepts is the text of a well-formed tuple list, which the lemma returns |
| AltitudePattern.FullMatchIsZeroAltitudeList | src/LocationHistory.py:148-149 | the pattern accepts a text exactly when it is tuples `lon,lat,0` of unsigned decimals, separated by one or more spaces, with optional trailing spaces |
| AltitudePattern.RenderedIsStripped | src/LocationHistory.py:157 | substitution on the text of a tuple list gives the same list with every `,0` dropped |
| AltitudePattern.SubstituteStripsEveryAltitude | src/LocationHistory.py:155-157 | on an accepted text, `re.sub` drops every altitude and keeps every other character |
| AltitudePattern.Substitute | src/LocationHistory.py:157 | `re.sub(C, '\1')`; `RenderedIsStripped` and `SubstituteStripsEveryAltitude` state what it gives on accepted texts |
| Repair.MoveLineStringLastSpec | src/LocationHistory.py:112-116 | moving the LineString keeps the fields and the multiset of children, and keeps the order of every other tag. The LineString goes last; the children before it keep their places, and those after it move up one place in their order, whatever their tags |
| Repair.MoveLineStringLastIdempotent | src/LocationHistory.py:112-116 | with at most one LineString, reordering twice is reordering once |
| Repair.MovedAfterTimeSpan | src/LocationHistory.py:103-116 | after reordering, the LineString is last and the TimeSpan comes before it |
| Repair.PointToLineStringSpec | src/LocationHistory.py:128-135 | conversion happens exactly when there are both a Point and a TimeSpan: one Point fewer, one LineString more, the TimeSpans unchanged. The converted child, the first Point, is retagged LineString and keeps its fields and child count; every other child stays as it was |
| Repair.PointToLineStringCoordinates | src/LocationHistory.py:129-135 | the converted Point is retagged LineString and keeps everything else, except that its first coordinates text `c` becomes `c + " " + c` |
| Repair.PointWithoutCoordinatesIsRetagged | src/LocationHistory.py:129-132 | a converted Point without a coordinates text is only retagged LineString; everything else in it stays |
| Repair.PointToLineString | src/LocationHistory.py:128-135 | the conversion of one Placemark; its contract is in `PointToLineStringSpec`, `PointToLineStringCoordinates` and `PointWithoutCoordinatesIsRetagged` |
| Repair.StripCoordinatesSpec | src/LocationHistory.py:154-157 | stripping changes only the first coordinates child's text, and only when the whole text matches the pattern; otherwise the geometry is unchanged |
| Repair.StripCoordinatesText | src/LocationHistory.py:155-157 | an accepted coordinates text is replaced by the same tuples without their altitudes |
| Repair.StripAltitudeSpec | src/LocationHistory.py:151-164 | the altitude repair touches only the first Point and the first LineString, each as the coordinates strip does, and keeps every tag in place |
| Repair.StripAltitude | src/LocationHistory.py:151-164 | the altitude repair of one Placemark; its contract is in `StripAltitudeSpec`, `StripCoordinatesSpec` and `StripCoordinatesText` |
| Repair.RepairedEndsWithLineString | src/extract.py:10-12 | after the three repairs in output order, a Placemark with a LineString, or with a Point and a TimeSpan, ends with a LineString that follows its TimeSpan |
| Repair.Repaired | src/extract.py:10-12 | the three repairs in output order on one Placemark; `RepairedEndsWithLineString` and `PipelineIsOneTraversal` state what it gives |
| Repair.FixPlacemarksTwice | src/extract.py:10-12 | one traversal after another equals one traversal of the composed repair, when the first repair keeps Placemarks |
| Repair.PipelineIsOneTraversal | src/extract.py:10-12 | the three traversals in output order equal one traversal that repairs each Placemark with the composed repair |
| Repair.FixPlacemarksOfDocument | src/LocationHistory.py:112 | the traversal replaces each Placemark of the first Document by its repair, in the same order and number, and leaves the name alone |
| Repair.MoveLineStringLast | src/LocationHistory.py:112-116 | the reordering of one Placemark; its contract is in `MoveLineStringLastSpec`, `MoveLineStringLastIdempotent` and `MovedAfterTimeSpan` |
| LocationHistory.KmlTree.Merge | src/LocationHistory.py:24-54 | the in-place merge leaves the root equal to `Merged` of the two old roots. On failure it reports 'malformed' and leaves the root as it was. The other tree is not modified |
| LocationHistory.KmlTree.AppendEach | src/LocationHistory.py:51-52 | the append loop leaves the children followed by the Placemarks, in order |
| LocationHistory.KmlTree.ApplyToPlacemarks | src/LocationHistory.py:112-116 | the nested loop over `Document/Placemark` leaves the root equal to the traversal function of the old root |
| LocationHistory.KmlTree.ReorderLineStringAndTimeSpan | src/LocationHistory.py:103-116 | the new root is the old one with every Document Placemark reordered |
| LocationHistory.KmlTree.ConvertTimeSpanPointToLineString | src/LocationHistory.py:119-135 | the new root is the old one with every Document Placemark converted |
| LocationHistory.KmlTree.RemoveErroneousAltitude | src/LocationHistory.py:138-164 | the new root is the old one with every Document Placemark's altitudes stripped |
| LocationHistory.KmlTree.PrepareForOutput | src/extract.py:9-12 | the three in-place repairs in output order leave the root equal to one traversal with the composed repair |
| LocationHistory.Insert | src/LocationHistory.py:77 | inserting keeps a sequence ascending and adds exactly the one element |
| LocationHistory.SortDays | src/LocationHistory.py:77 | `sorted` gives an ascending permutation of the dates, repeats kept |
| LocationHistory.AscendingUnique | src/LocationHistory.py:77 | two ascending sequences with the same elements are equal, so the sorted order is unique |
| LocationHistory.DaysFrom | src/LocationHistory.py:96-97 | the range has `n` days, and day `k` is `start + k` |
| LocationHistory.FoldFrom | src/LocationHistory.py:79-84 | the `Merge` fold over the fetched days; `FoldFromErrors`, `FoldFromFailsOnBadDay` and `FoldFromAllUsable` state what it raises, when it fails and what it gives |
| LocationHistory.FoldFromErrors | src/LocationHistory.py:79-84 | the fold raises only the fetch error or the merge error |
| LocationHistory.FetchAndMerge | src/LocationHistory.py:79-84 | fetching the first day and folding the rest raises only the fetch error or the merge error |
| LocationHistory.FetchDates | src/LocationHistory.py:70-84 | `GetDates` fails with 'at least one date' exactly when the list is empty, and otherwise fails only with the fetch error or the merge error |
| LocationHistory.FetchRange | src/LocationHistory.py:87-100 | `GetDateRange` fails with 'start after end' exactly when the end is before the start, and otherwise fails only with the fetch error or the merge error |
| LocationHistory.GetDates | src/LocationHistory.py:70-84 | the loop fails on an empty list. Otherwise it gives the fold of `Merge` over the fetched days in ascending order, starting from the smallest, or the first exception of that fold |
| LocationHistory.GetDateRange | src/LocationHistory.py:87-100 | the loop fails when the end is before the start. Otherwise it gives the fold over the start day and each following day up to the end |
| LocationHistory.FoldFromFailsOnBadDay | src/LocationHistory.py:81-82 | a day whose fetch fails, or whose history the merge rejects, makes the whole fold fail, wherever it comes |
| LocationHistory.FoldFromUnmergeable | src/LocationHistory.py:82 | a fold from a history `Merge` rejects fails as soon as there is a day to merge into it |
| LocationHistory.FoldFromAllUsable | src/LocationHistory.py:81-82 | when every day is usable the fold succeeds: its name is the names joined by line feeds in day order, and its Placemarks are exactly those of the days joined seam by seam (`JoinedPlacemarks`), so it keeps all of them but at most one per seam |
| LocationHistory.SeamKeepsPlacemarks | src/LocationHistory.py:44-52 | one seam loses no Placemark and invents none, and shortens the total by one exactly when the seam Placemark repeats |
| LocationHistory.JoinedPlacemarksKeepAll | src/LocationHistory.py:81-82 | a Placemark is in the joined result exactly when it is in the first history or in the history of one of the days |
| LocationHistory.FetchDatesIgnoresOrder | src/LocationHistory.py:74-84 | `GetDates` gives the same result for any ordering of the same dates |
| LocationHistory.FetchRangeIsFetchDates | src/LocationHistory.py:87-100 | `GetDateRange(start, end)` is `GetDates` of the `end - start + 1` days from start to end |
| LocationHistory.FetchDatesAllUsable | src/LocationHistory.py:70-84 | with usable days, `GetDates` succeeds with the names in ascending day order, and its Placemarks are exactly those of the days joined seam by seam in that order |
| LocationHistory.FetchDatesSucceedsExactly | src/LocationHistory.py:70-84 | with two or more dates, `GetDates` succeeds exactly when every day is usable: a failed fetch, or a history `Merge` rejects, on any day makes it fail |
| LocationHistory.FetchAndMergeFailsOnBadDay | src/LocationHistory.py:79-84 | with two or more days, an unusable day anywhere makes fetching and merging fail |
| LocationHistory.FetchDatesOneDay | src/LocationHistory.py:77-84 | with one date no `Merge` runs: `GetDates` fails with the fetch error when the fetch fails, and otherwise gives that day's history unchanged, whether `Merge` would accept it or not |
| LocationHistory.FetchRangeSucceedsExactly | src/LocationHistory.py:87-100 | a range of two or more days succeeds exactly when every day from start to end is usable |
| LocationHistory.FetchRangeOneDay | src/LocationHistory.py:91-100 | a range of one day succeeds exactly when that day's fetch does; no `Merge` runs |
| CaptureDate.GetFromPictureFile | src/CaptureDate.py:9-22 | no date when the EXIF block does not load, has no 'Exif' section, or has no tag 36867; a failure (an unparsable date) names that file |
| CaptureDate.FindDescription | src/CaptureDate.py:39 | `rdf:RDF/rdf:Description` gives a Description, and none exactly when no RDF child has a Description |
| CaptureDate.FindDescriptionAt | src/CaptureDate.py:39 | the Description found is the first Description child of the first RDF child that has one: no earlier RDF child has one, and no earlier child of that RDF is a Description |
| CaptureDate.DateTimeText | src/CaptureDate.py:25-45 | the DateTimeOriginal text of the sidecar's Description, if the file parses and it has one; `GetFromXmpFile` states what is done with it |
| CaptureDate.FieldsFromSound | src/CaptureDate.py:47 | what the fraction test accepts starts with the digit runs it read, joined by the separators |
| CaptureDate.FieldsFromComplete | src/CaptureDate.py:47 | any text starting with digit runs joined by non-digit separators passes the fraction test |
| CaptureDate.FieldsFromExactly | src/CaptureDate.py:47 | with non-digit separators, the test accepts exactly the texts starting with digit runs joined by them |
| CaptureDate.HasFractionExactly | src/CaptureDate.py:47 | `re.match('\d+-\d+-\d+T\d+:\d+:\d+\.\d+')` accepts exactly the texts that start with seven digit runs joined by `- - T : : .` |
| CaptureDate.GetFromXmpFile | src/CaptureDate.py:25-50 | no date when the file does not parse, has no Description, or has no DateTimeOriginal attribute. A text that passes the fraction test goes to the fractional parser, any other to the ISO parser, and the result is that parser's date. A text the chosen parser rejects is a failure that names the file |
| CaptureDate.Extension | src/CaptureDate.py:58 | `splitext(path)[1]` is empty or a suffix of the path that starts with a dot and holds no other dot and no slash |
| CaptureDate.ExtensionOfName | src/CaptureDate.py:58 | the extension of `dir/name.ext` is `.ext`, whatever the directory holds |
| CaptureDate.LeadingDotIsNoExtension | src/CaptureDate.py:58 | a name whose only dot leads it has no extension |
| CaptureDate.ExtensionFromLastDot | src/CaptureDate.py:58 | a path with a last dot after a non-dot character of its last component has the extension from that dot on |
| CaptureDate.ExtensionNeedsName | src/CaptureDate.py:58 | a non-empty extension has a non-dot character before it in the last path component |
| CaptureDate.GetFromFile | src/CaptureDate.py:53-76 | an error from reading a file names that file |
| CaptureDate.KindOfExtension | src/CaptureDate.py:58-71 | the lower-cased extension selects the picture reader for `.cr2 .dng .jpg .nef .tif` and the XMP reader for `.xmp`; any other extension makes the file skipped |
| CaptureDate.KindOf | src/CaptureDate.py:58-71 | a file is only read when it has an extension; `KindOfExtension` states which reader each extension selects |
| CaptureDate.PicturesUsePictureReader | src/CaptureDate.py:59-66 | a picture's date is what the picture reader gives |
| CaptureDate.SidecarsUseXmpReader | src/CaptureDate.py:67-68 | a sidecar's date is what the XMP reader gives |
| CaptureDate.PictureReadsExifOnly | src/CaptureDate.py:59-66 | a picture's date depends only on the EXIF reader calls |
| CaptureDate.SidecarReadsXmpOnly | src/CaptureDate.py:67-68 | a sidecar's date depends only on the XMP reader calls |
| CaptureDate.OtherFilesAreSkipped | src/CaptureDate.py:69-71 | any other file gives no date, whatever the readers are |
| CaptureDate.UpperCasePicture | src/CaptureDate.py:58-66 | `name.JPG` is read as a picture |
| CaptureDate.UpperCaseSidecar | src/CaptureDate.py:58-68 | `name.XMP` is read as a sidecar |
| CaptureDate.HiddenFileIsOther | src/CaptureDate.py:58-71 | a hidden file named `.jpg` has no extension and is skipped |
| CaptureDate.GetFromPath | src/CaptureDate.py:79-99 | the recursive method returns the right fold of the traversal: the first exception, or the union of the dates of the entries it visits |
| CaptureDate.DatesIn | src/CaptureDate.py:79-99 | the traversal as a right fold over the tree; `DatesInMeaning` and `DatesInReadsFilesIn` state what it gives and which files it reads |
| CaptureDate.DatesOfEntries | src/CaptureDate.py:84-91 | the loop over a directory's entries, adding to the set, gives the fold over the entries |
| CaptureDate.DatesInReadsFilesIn | src/CaptureDate.py:79-99 | the traversal reads exactly the files at or under the path, in scan order: a directory's own files always, and those of subdirectories only when asked |
| CaptureDate.ReadAllMeaning | src/CaptureDate.py:87-89 | reading files fails exactly when one has a date that does not parse; otherwise it gives exactly the dates they record |
| CaptureDate.DatesInMeaning | src/CaptureDate.py:79-99 | `GetFromPath` fails exactly when a file it reads has an unparsable date; otherwise its result holds exactly the dates those files record, each once |
| CaptureDate.ShallowDirectory | src/CaptureDate.py:84-91 | without subdirectories, a directory's files are exactly its direct file entries, and its dates exactly theirs |
| CaptureDate.DatesFromUnion | src/CaptureDate.py:84-91 | the loop's result fails exactly when an entry fails; otherwise it is the union of what the entries contribute |
| CaptureDate.DirectoryIsUnionOfEntries | src/CaptureDate.py:84-91 | a directory's dates are the union of its entries' dates (a subdirectory's own dates when visited); it fails exactly when an entry does |
| CaptureDate.VisitingAddsDates | src/CaptureDate.py:90-91 | when the deep traversal succeeds, so does the shallow one, with a subset of the dates |
| CaptureDate.MissingPathIsEmpty | src/CaptureDate.py:96-99 | a path that is neither a file nor a directory gives no dates and reads no file; the min/max is (None, None) (lines 133-136) |
| CaptureDate.CombineMin | src/CaptureDate.py:120-123 | the running minimum ignores None, never replaces a present bound with None, and is at most both inputs |
| CaptureDate.CombineMax | src/CaptureDate.py:125-128 | the running maximum ignores None, never replaces a present bound with None, and is at least both inputs |
| CaptureDate.BoundsOfUnion | src/CaptureDate.py:120-128 | combining the bounds of two sets gives the bounds of their union |
| CaptureDate.MinMaxInAgrees | src/CaptureDate.py:102-136 | the min/max fold fails when, and only when, the set traversal does, with the same error. Otherwise it gives the least and greatest element of the set, or None for both when the set is empty |
| CaptureDate.MinMaxIn | src/CaptureDate.py:102-136 | the min/max traversal as a right fold; `MinMaxInAgrees` states that it is the bounds of `DatesIn` |
| CaptureDate.GetMinAndMaxFromPath | src/CaptureDate.py:102-136 | the method fails exactly when `GetFromPath` does. It gives (None, None) exactly when `GetFromPath` finds no date. Otherwise it gives the least and greatest date `GetFromPath` finds, so min <= max |
| CaptureDate.MinMaxOfEntries | src/CaptureDate.py:108-128 | the loop with running bounds over a directory's entries gives the min/max fold over the entries |

## Left out

- `GetDate` (src/LocationHistory.py:57-67): the HTTP request, the status check, the URL and the XML parsing. They are replaced by the `fetch` parameter.
- src/extract.py beyond the repair order:
  - argument parsing, the cookie file, namespace registration, serialization and file writing are I/O;
  - `GetLocationHistoryForPaths` (src/extract.py:33-44) only joins `GetFromPath` results and calls `GetDates` on their days;
  - its calls pass `AuthUser` and `Rapt` (src/extract.py:25, 30), which the `GetDates` and `GetDateRange` shown here do not accept. Those calls are not modelled.
- Logging calls in both files: side effects only.
- An unparsable day body: `ET.fromstring` raises `ET.ParseError` (src/LocationHistory.py:67); here `fetch` answers None for it, so it becomes the same 'Could not fetch location history.' failure as a bad status.
- Aliasing of Placemark objects. After a Python merge, the appended Placemarks are shared with the second tree. Here trees are values, so each history owns its Placemarks. `LocationHistory.KmlTree.Merge` requires two distinct trees; the source never merges a tree into itself.
- The regex engine. Python's `\d` and `str.lower` handle Unicode; the model uses ASCII digits and ASCII lower-casing only. Python's `$` also matches just before a final line feed; the recognizer anchors at the end of the text only.
- The library parsers are uninterpreted. This covers `piexif.load`, `ET.parse`, `bytes.decode('utf-8')` with `strptime`, `strptime` with `%f`, and `fromisoformat`. The UTF-8 decode is folded into `exifDateTime`.
- Dates are integers. Comparing a naive with an aware datetime raises `TypeError` in Python; that is not modelled.
- `os.scandir` order, symbolic-link cycles and entries that are neither files nor directories beyond `Missing`.
- `os.path.splitext` is modelled for POSIX paths only; Windows separators are not.
- CaptureDate.GetFromPath: the traversal is stated for any per-file reader `read`; the source's reader is `ReaderOf(rd)`, which is `GetFromFile` with fixed library calls. Its result is a set; the source turns it into a list in set order.
- CaptureDate.GetFromFile: its ensures states only the error's file. What it dispatches to is stated by the lemmas beside it.
