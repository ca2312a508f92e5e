# manga-dl in Dafny

A verified model of the `Manga` downloader class in `index.js`. The class knows the URL of a
series on a manga site and a local root directory. It reads the series page into a list of volumes.
Each volume has a name (`""` or a tag such as `"v01/"`) and chapter ids. It then downloads every page
image of the chosen volumes into `root/Volume NN/Chapter ID/PP.jpg`, keeping a per-volume progress
record `{done, buffered, total}` up to date while it works.

The project has five modules:

- `Wrappers` (`wrappers.dfy`): `Option` and `Result`.
- `JsString` (`js_string.dfy`): the JavaScript string operations the code relies on.
  These are `indexOf`, `replace` with a string pattern, `slice` with negative indices,
  `n + ''`, `new Array(k + 1).join(z)`, and the `* 1` coercion of a digit string.
- `Layout` (`layout.dfy`): `pad`, the chapter directory and the page file, the chapter and page
  links, the reading of volume names and chapter ids from anchor hrefs, and the page-count slice.
- `Files` (`files.dfy`): the local disk as a map from paths to bytes, held by the class `Disk`.
  It has `download` and the loop that repeats it until it succeeds.
- `Downloader` (`downloader.dfy`): the `Manga` class with its constructor and `getVolumes`.
  It also has `saveVolumes`, `saveVolume` and `saveChapter`, run one step after another.
  A volume is a `Volume` object whose `loading` record the downloads update in place.

The network and the HTML parser are inputs. `getVolumes` receives the anchor hrefs of each
chapter list. Each chapter comes with its page-count text and its pages. Each page comes with its
image URL and the outcome of every request for that image. The pages of a chapter run in the order
given, and any numbering of them `1..N` is allowed. So every order in which the source's
concurrent page downloads could finish is covered.

## Model

| member | source | states |
|---|---|---|
| JsString.IndexOf | index.js:39 | `s.indexOf(pat)`: -1, or a position at which the pattern fits inside the string |
| JsString.IndexOfSpec | index.js:39 | `indexOf` returns a position where the pattern occurs and no earlier one does, or -1 exactly when it occurs nowhere |
| JsString.ReplaceFirst | index.js:38 | `s.replace(pat, rep)` with a string pattern replaces only the first occurrence and leaves a string without one alone |
| JsString.ReplaceLeadingMatch | index.js:38 | `replace` of a pattern the string starts with removes exactly that prefix |
| JsString.RelativeIndex | index.js:111 | a `slice` argument counts from the end when negative and is clamped to the string |
| JsString.Slice | index.js:111 | `s.slice(start, end)` is never longer than `s` |
| JsString.SliceBetween | index.js:111 | `slice(|prefix|, -|suffix|)` of `prefix + middle + suffix` is `middle` |
| JsString.DecimalValue | index.js:112 | `text * 1` for a digit string: the number the digits denote |
| JsString.NatToString | index.js:261 | `n + ''` for a non-negative integer: its decimal digits |
| JsString.NatToStringDigits | index.js:261 | `n + ''` is a non-empty digit string, starts with `0` only for 0, and reads back as `n` |
| JsString.Repeat | index.js:262 | `new Array(k + 1).join(z)`: `k` copies of `z` one after another |
| JsString.RepeatShape | index.js:262 | `new Array(k + 1).join(z)` with a one-character `z` is `k` copies of `z` |
| Layout.Fill | index.js:260 | the fill `pad` uses: the one given, or `0` when none or an empty one is given |
| Layout.Pad | index.js:259-263 | `pad(n, width, z)`: the digits of `n`, left-filled with `z` (or `0`) when shorter than `width` |
| Layout.PadShape | index.js:259-263 | `pad` ends with the digits of `n`; these are the whole result once they reach `width`; with a one-character fill the result is exactly `width` long and is fill characters before the digits |
| Layout.PadKeepsValue | index.js:259-263 | a zero-padded number is still a digit string that reads as the same number |
| Layout.PadInjective | index.js:259-263 | with the default fill, distinct numbers pad to distinct strings |
| Layout.PadExamples | index.js:259-263 | page 3 pads to `"03"` and page 12 to `"12"` |
| Layout.VolumeDir | index.js:96 | the volume segment of a chapter directory: the name without its first character, or `01/` for the unnamed volume |
| Layout.ChapterDir | index.js:96 | the chapter directory `root/Volume <segment>Chapter <id>` |
| Layout.PageFile | index.js:127 | the file of page `n`: `dir/` followed by `n` padded to two digits and `.jpg` |
| Layout.ChapterLink | index.js:95 | the chapter link `url/<name>c<id>` |
| Layout.PageLink | index.js:105 | the link of page `n` of a chapter: the chapter link followed by `/n.html` (also index.js:119) |
| Layout.UnnamedVolumeIsFirst | index.js:96 | an unnamed volume and the volume `v01/` share a chapter directory |
| Layout.PageFileInjective | index.js:127 | two pages of one chapter never share a file |
| Layout.ThirdPageFile | index.js:127 | page 3 is stored as `03.jpg` inside its chapter directory |
| Layout.PageFileExample | index.js:96-127 | page 3 of chapter 1 of an unnamed volume is `root/Volume 01/Chapter 1/03.jpg` |
| Layout.VolumeName | index.js:38-40 | the name read from an href is empty or ends with `/` |
| Layout.NameBeforeChapter | index.js:39-40 | the text before the first `/c`, followed by `/`, or empty when there is no `/c`; either way empty or ending with `/` |
| Layout.ChapterId | index.js:43 | the chapter id of an href: remove the first `url/<name>c`, then drop the last seven characters |
| Layout.NameBeforeChapterOfRest | index.js:39-40 | the first `/c` of `<name>c<id>/1.html` ends exactly the name, so the name is read back |
| Layout.AnchorVolumeName | index.js:38-40 | the volume name read from an anchor href is the name the href was built from |
| Layout.AnchorChapterId | index.js:43 | the chapter id read from an anchor href is the id the href was built from |
| Layout.AnchorRoundTrip | index.js:38-43 | an href parses back into its name and id, and the first-page link rebuilt from them is the href itself |
| Layout.AnchorExamples | index.js:38-43 | `url/v01/c001/1.html` gives name `v01/` and id `001`; `url/c001/1.html` gives the empty name |
| Layout.PageCountText | index.js:111 | the text from three characters after the first `of` up to the last three characters, read with JavaScript's clamped slice indices (so from position 2 when there is no `of`) |
| Layout.PageCount | index.js:111-112 | the page count `images * 1` when that text is a digit string; nothing otherwise |
| Layout.PageCountTextOf | index.js:111 | the text of a line `... of TEXT` followed by three characters is `TEXT` |
| Layout.PageCountRoundTrip | index.js:111-112 | a count line `... of N` followed by three characters reads as `N` |
| Layout.MalformedPageCount | index.js:111-112 | a count line whose text after `of` is not a number is rejected |
| Files.DownloadEffect | index.js:210-238 | `download` succeeds exactly when the file is on disk afterwards. It keeps every other file and adds at most the target. An existing file means success with no change. Otherwise it succeeds exactly when the request delivered the data and the write succeeded, and the file then holds that data |
| Files.DownloadIdempotent | index.js:212-213 | after a successful download, downloading the same file again changes nothing and succeeds |
| Files.FirstStore | index.js:129 | the first request of a retry sequence that stores the file: no earlier one does |
| Files.StoreEffect | index.js:129 | repeating the download ends with the file stored exactly when it existed or some request stores it; an existing file is left as it is, a new one holds the payload of the first request that stores it, and no other file changes |
| Files.Disk.constructor | index.js:210-238 | the disk starts with the files it is given |
| Files.Disk.Download | index.js:210-238 | the disk operation has exactly the effect `DownloadEffect` describes, including removing a partly written file |
| Files.Disk.DownloadUntilStored | index.js:129 | the retry loop has exactly the effect `StoreEffect` describes |
| Downloader.Volume.constructor | index.js:46-50 | a volume object holds the name and chapters read and a clear (`null`) record |
| Downloader.IsJpg | index.js:126 | holds exactly when the image URL contains `.jpg` somewhere |
| Downloader.PageEffect | index.js:121-131 | a page completes exactly when it is not a `.jpg` or its file can be stored; it keeps every file and adds only its own file, and only for a `.jpg` |
| Downloader.Records | index.js:82 | the `loading` record of every volume, in order |
| Downloader.RunChapter | index.js:113-139 | the pages of a chapter run one after another: at most every page stalls |
| Downloader.RunChapterFrame | index.js:113-139 | running a chapter's pages keeps every file and adds only `.jpg` page files of that chapter |
| Downloader.LastPageFresh | index.js:127 | the last page's file belongs to no earlier page, so the earlier pages neither add nor remove it |
| Downloader.LastPageOutcome | index.js:126-132 | the last page completes exactly when it could complete from the disk the chapter started with |
| Downloader.RunChapterSettles | index.js:113-139 | after the pages ran, each `.jpg` page's file exists exactly when that page could complete |
| Downloader.RunChapterStalls | index.js:113-139 | no page stalls exactly when every page could complete |
| Downloader.RunChapterOutcome | index.js:113-139 | a chapter finishes exactly when every `.jpg` page is stored, and the disk only grows by the chapter's files |
| Downloader.NextChapterStored | index.js:86-89 | files stored for earlier chapters of a volume survive the next chapter |
| Downloader.ChaptersStoredExtends | index.js:86-89 | stored chapter files survive any later download, which never removes a file |
| Downloader.RunVolume | index.js:86-89 | the chapters of a volume run one after another: at most every page of the volume stalls |
| Downloader.RunVolumeStep | index.js:86-89 | one more chapter adds its stalled pages and its pages to the volume's run |
| Downloader.RunVolumeFrame | index.js:86-89 | a volume's run keeps every file and adds only `.jpg` page files of its chapters |
| Downloader.VolumeRecord | index.js:82-90 | the record `saveVolume` leaves: clear when no page stalled, otherwise ordered with `done` short of `total` |
| Downloader.RunVolumeStored | index.js:86-89 | when no page of a volume stalls, every `.jpg` page file of every chapter is on disk |
| Downloader.RunChosen | index.js:71-76 | the chosen volumes run one after another |
| Downloader.RunChosenFrame | index.js:71-76 | the run of the chosen volumes keeps every file and adds only `.jpg` page files of chosen chapters |
| Downloader.ChosenGrowth | index.js:71-76 | the same frame as `RunChosenFrame`, for the disk and file set given as arguments |
| Downloader.RunChosenStored | index.js:71-76 | when no page stalls, every `.jpg` page file of every chosen volume is on disk |
| Downloader.ChosenStoredStep | index.js:71-76 | the files of earlier chosen volumes survive the next volume, which adds its own |
| Downloader.ChosenStoredExtends | index.js:71-76 | the files of the chosen volumes survive any later download |
| Downloader.ChosenVolumes | index.js:72-73 | the volume objects saved: each chosen one, and only volumes of the list |
| Downloader.LastSave | index.js:72-73 | the last turn of the loop that saves a given volume: it saves that volume and no later turn does |
| Downloader.ChosenIndices | index.js:64-69 | the indices worked through are the selection given, or every volume index in order |
| Downloader.AllIndices | index.js:64-69 | with no selection the volumes chosen are exactly 0, 1, …, count-1 in order |
| Downloader.ChapterIds | index.js:42-44 | one chapter id per anchor |
| Downloader.VolumeOf | index.js:36-44 | one chapter list gives a volume with one chapter per anchor |
| Downloader.ChapterIdsOfAnchors | index.js:42-44 | anchors for chapters `ids` of one volume give back the ids in reverse order |
| Downloader.VolumeOfAnchors | index.js:35-50 | a chapter list whose anchors all link chapters of one volume reads back as that volume, chapters oldest first |
| Downloader.VolumeOfParts | index.js:38-44 | the volume of a list is the name read from its last anchor with the ids read from every anchor |
| Downloader.Entries | index.js:46-50 | the name and chapters of each volume object, in order |
| Downloader.VolumesOf | index.js:35-51 | one volume per chapter list |
| Downloader.VolumesOfStep | index.js:35-51 | reading one more list from the end appends its volume |
| Downloader.VolumesOfReversed | index.js:35 | the `k`-th volume read comes from the `k`-th chapter list counted from the end of the page |
| Downloader.Manga.constructor | index.js:15-27 | the URL is kept, the path defaults to `~/Downloads`, and the volumes are the ones given |
| Downloader.Manga.Create | index.js:15-20 | an empty URL fails with `URL required`, and only an empty URL fails |
| Downloader.Manga.GetVolumes | index.js:29-55 | one volume per chapter list, read last list first, each a fresh object distinct from the others with a clear record; it succeeds exactly when every list has anchors, and otherwise stops at the last list without anchors |
| Downloader.Manga.ReadLists | index.js:35-51 | the loop reads the lists from the end and stops at the first list without anchors, having read every list after it |
| Downloader.Manga.ReadNext | index.js:35-51 | reading one more list appends the volume `VolumeOf` describes |
| Downloader.Manga.NewVolumes | index.js:46-50 | one fresh volume object per entry, holding that entry, with a clear record; no two entries share an object |
| Downloader.Manga.ReadVolume | index.js:36-44 | the name and chapter ids pushed for one list are the volume `VolumeOf` describes |
| Downloader.Manga.SaveVolumes | index.js:57-78 | a given path replaces the root, and the indices chosen are the selection or every index in order. The disk afterwards is the run of the chosen volumes, and everything finished exactly when no page stalled. No volume that was not chosen changes its record. Each chosen volume's record is exactly the one its last save left: clear when none of that save's pages stalled, otherwise `{T - stalled, T, T}` for that save's page total `T`; all are clear when everything finished. No file is lost, every new file is a `.jpg` page file of a chosen chapter, and when everything finished every such file of every chosen chapter is on disk |
| Downloader.Manga.SaveIndices | index.js:71-76 | saving the chosen indices in turn keeps every promise `SaveVolumes` states about the disk and the records |
| Downloader.Manga.ChosenSaved | index.js:71-76 | the loop's promises, with the frame and storage facts about the run, give every promise of `SaveVolumes` |
| Downloader.Manga.SaveChosen | index.js:71-76 | the disk afterwards is the run of the chosen volumes; each chosen volume's record is exactly the one its last save left, from the disk that save started with, and it is clear when everything finished |
| Downloader.Manga.SaveNextVolume | index.js:72-73 | saving one more chosen volume extends the run by that volume, gives it the record its save leaves, and keeps the records of the volumes saved before |
| Downloader.Manga.SaveVolume | index.js:80-92 | the disk afterwards is the volume's run; the record before it is cleared has `buffered = total = Σ N` over the chapters and `done` short by exactly the pages that stalled. The volume finishes exactly when `done = total`, and then the record is cleared and every page file of every chapter is stored; the record left is `VolumeRecord` of the disk the save started from. No file is lost, and every new file is a `.jpg` page file of the volume |
| Downloader.Manga.SaveChapters | index.js:85-89 | from a record `{0, 0, 0}` the chapters run in turn; every page ends buffered and counted, done but for the pages that stalled |
| Downloader.Manga.SaveNextChapter | index.js:86-87 | one more chapter extends the volume's run and its counts by that chapter |
| Downloader.Manga.SaveChapter | index.js:94-143 | `total` grows by the page count, `buffered` by the number of pages, `done` by the pages that completed; the counts are ordered afterwards; the disk is the chapter run's result and the chapter finishes exactly when no page stalls |
| Downloader.Manga.SavePages | index.js:113-139 | the page loop has the chapter run's effect on the disk, counts every page buffered and every completed page done, and keeps the counts ordered after every page |
| Downloader.Manga.SavePage | index.js:115-135 | a page is counted buffered; it is counted done exactly when it completes, that is when it is not a `.jpg` or its download succeeded; the counts stay ordered |

## Left out

- `getDom`, the HTML parser and the `domutils` lookups are not modelled. The anchor hrefs of each chapter list (already filtered by `indexOf(url)`), the page-count text and the image URL of each page are inputs.
- `findManga` searches and scrapes the site over the network and is not modelled.
- `mkdirp`/`makePath` create directories. The disk is a flat map from paths to contents, so no directories exist in the model.
- `execute('rm', ['-rf', file])` is modelled only as removing the path from the disk.
- `Promise.all` and the `co` generators run concurrently in the source. The model runs volumes, chapters and pages one after another in the order given. The page order is free, so every order in which pages can finish is covered. Volumes and chapters saved at the same time in the source are not interleaved in the model.
- Downloader.Manga.SavePage: the retry-forever loop around `download` is a finite sequence of request outcomes. When they run out without success, the page stalls: it is counted buffered but not done, and the volume record is never cleared. In the source the promise never resolves.
- The retry loops for the page-count div and the `img#image` element (index.js:104-107, 118-121) are not modelled; their final results are inputs.
- Downloader.Runnable: the page-count text must be a string of ASCII digits that gives the number of pages. The source coerces any text with `* 1`: malformed text gives `NaN`, and text with surrounding whitespace (`" 12"`, `"12\n"`) or in other numeric forms still gives a number, which the model rejects.
- JsString.NatToString: numbers are unbounded naturals. In JavaScript they are doubles, and `n + ''` switches to exponent notation from 10^21 on; page numbers are far below that.
- JsString.DecimalValue: `* 1` of a long digit string rounds above 2^53 and gives `Infinity` for very long ones; the model gives the exact value. Page counts are far below 2^53.
- Layout.Pad: pads the exact decimal digits of an unbounded natural (see JsString.NatToString).
- Downloader.Progress: the `done`, `buffered` and `total` counters are unbounded naturals; in the source they are doubles, exact for counts below 2^53.
- JsString.IndexOf and JsString.Slice count characters (Unicode scalar values); JavaScript counts UTF-16 code units, so positions differ for text outside the Basic Multilingual Plane.
- Downloader.Manga.constructor: when no volumes are given, `volumes` starts empty. In the source it stays undefined until `getVolumes` runs.
- Downloader.Manga.SaveVolumes: every chosen index must be a valid volume index with one runnable chapter per chapter id. In the source a bad index throws a `TypeError`.
- Downloader.Manga.SaveIndices: the same requirement as `SaveVolumes`.
- Downloader.Manga.SaveChosen: the same requirement as `SaveVolumes`.
- Downloader.Manga.SaveVolumes, Downloader.Manga.SaveIndices and Downloader.Manga.SaveChosen: a volume chosen more than once (a selection such as `[0, 0]`, or one object given twice) is saved once per choice, one save after the other, and keeps the record of its last save. In the source all saves start before any is awaited (index.js:71-73), so the repeated volume's saves share one record: the second `saveVolume` replaces the first one's record, both count into it, the first to finish sets it to `null` (index.js:90), and a page of the other still running then throws on `++volume.loading.buffered` or `++volume.loading.done` (index.js:125, 132), so `saveVolumes` never completes. The model does not capture that failure.
- Downloader.Manga.GetVolumes: it reads every list into entries first, then creates all the volume objects. The source creates each object as soon as its list is read. Nothing observes the difference.
- `sample.js` is a command-line demo that polls the progress on a timer; it is not part of this model.
- The commented-out `open` function (index.js:267-286) is not part of this model.
