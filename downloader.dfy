/**
 * The `Manga` downloader class (index.js lines 14-143): the series URL and
 * local root, the discovered volumes, and the sequential model of
 * `saveVolumes`, `saveVolume` and `saveChapter` with the per-volume progress
 * record `{done, buffered, total}` they update.
 *
 * Everything the source reads from the network or the DOM is an input here:
 * the anchor hrefs of each chapter list, the page-count text of a chapter,
 * the image URL of a page, and the outcome of every request for an image.
 */
module Downloader {
  import opened Wrappers
  import opened JsString
  import opened Layout
  import opened Files

  /** The local root used when the constructor is given none. */
  const DefaultPath := "~/Downloads"

  /** The `loading` record of a volume: pages done, pages whose image URL is known, pages counted. */
  datatype Progress = Progress(done: nat, buffered: nat, total: nat)
  {
    predicate Ordered()
    {
      done <= buffered <= total
    }
  }

  /** The name (`""` or e.g. `"v01/"`) and the chapter ids of a volume, as a series page lists them. */
  datatype Entry = Entry(name: string, chapters: seq<string>)

  /** One object of `volumes`: its entry, and its progress record, which the downloads update in place (null when idle). */
  class Volume {
    const name: string
    const chapters: seq<string>
    var loading: Option<Progress>

    constructor (entry: Entry)
      ensures name == entry.name && chapters == entry.chapters && loading == None
    {
      name := entry.name;
      chapters := entry.chapters;
      loading := None;
    }
  }

  /** The record of a volume is clear, or its counts are ordered. */
  ghost predicate Sound(volume: Volume)
    reads volume
  {
    volume.loading.None? || volume.loading.value.Ordered()
  }

  /** One page as the network presents it: its number, the `src` of its image, and the outcome of each request for the image. */
  datatype Page = Page(number: nat, imageUrl: string, attempts: seq<FetchOutcome>)

  /**
   * One chapter as the network presents it: the text holding its page count, and its pages
   * in the order their downloads run.
   */
  datatype ChapterRun = ChapterRun(countText: string, pages: seq<Page>)

  /** The image URL contains `.jpg` somewhere (index.js line 126): only such pages are written to disk. */
  predicate IsJpg(url: string)
  {
    IndexOf(url, ".jpg") != -1
  }

  /** No two pages share a number. */
  predicate DistinctNumbers(pages: seq<Page>)
  {
    forall i, j | 0 <= i < j < |pages| :: pages[i].number != pages[j].number
  }

  /**
   * A chapter the model can run: its count text reads as the number of pages it has, the pages
   * are numbered `1..n` without repetition (so each page is requested once), and each page has
   * at least one request outcome.
   */
  predicate Runnable(run: ChapterRun)
  {
    && PageCount(run.countText) == Some(|run.pages|)
    && (forall j | 0 <= j < |run.pages| :: 1 <= run.pages[j].number <= |run.pages|)
    && DistinctNumbers(run.pages)
    && (forall j | 0 <= j < |run.pages| :: |run.pages[j].attempts| > 0)
  }

  /** One runnable chapter per chapter id of the volume. */
  predicate Fits(volume: Volume, runs: seq<ChapterRun>)
  {
    |runs| == |volume.chapters| && forall c | 0 <= c < |runs| :: Runnable(runs[c])
  }

  /** The number of pages of all the chapters. */
  function TotalPages(runs: seq<ChapterRun>): nat
  {
    if runs == [] then 0 else TotalPages(runs[..|runs| - 1]) + |runs[|runs| - 1].pages|
  }

  /** The files a chapter may write: one per `.jpg` page. */
  ghost function JpgPageFiles(dir: string, pages: seq<Page>): set<string>
  {
    if pages == [] then {}
    else
      var page := pages[|pages| - 1];
      JpgPageFiles(dir, pages[..|pages| - 1]) + if IsJpg(page.imageUrl) then {PageFile(dir, page.number)} else {}
  }

  /** The page can complete: it is not an image, or its file exists already, or one of its requests stores it. */
  ghost predicate Deliverable(before: FileMap, dir: string, page: Page)
  {
    IsJpg(page.imageUrl) ==> PageFile(dir, page.number) in before || EventuallyStores(page.attempts)
  }

  /** After the chapter ran, the file of an image page exists exactly when the page could complete. */
  ghost predicate Settled(before: FileMap, after: FileMap, dir: string, page: Page)
  {
    IsJpg(page.imageUrl) ==> (PageFile(dir, page.number) in after <==> Deliverable(before, dir, page))
  }

  /** Every image page of the chapter has its file. */
  ghost predicate ChapterStored(files: FileMap, dir: string, pages: seq<Page>)
  {
    forall j | 0 <= j < |pages| && IsJpg(pages[j].imageUrl) :: PageFile(dir, pages[j].number) in files
  }

  /**
   * What one page does to the disk (index.js lines 121-131): an image page is downloaded
   * until stored, any other page completes and leaves the disk alone.
   */
  function PageEffect(files: FileMap, dir: string, page: Page): (r: Effect)
    ensures r.ok <==> Deliverable(files, dir, page)
    ensures Extends(files, r.files)
    ensures forall f | f in r.files && f !in files :: IsJpg(page.imageUrl) && f == PageFile(dir, page.number)
  {
    if IsJpg(page.imageUrl) then StoreEffect(files, PageFile(dir, page.number), page.attempts) else Effect(true, files)
  }

  /** The `loading` record of each volume, in order. */
  function Records(volumes: seq<Volume>): (r: seq<Option<Progress>>)
    reads volumes
    ensures |r| == |volumes| && forall i | 0 <= i < |volumes| :: r[i] == volumes[i].loading
  {
    if volumes == [] then [] else Records(volumes[..|volumes| - 1]) + [volumes[|volumes| - 1].loading]
  }

  /** How many pages stalled, and the disk afterwards. */
  datatype RunEffect = RunEffect(stalled: nat, files: FileMap)

  /** The pages run one after another from `files`: how many stalled, and the disk afterwards. */
  function RunChapter(files: FileMap, dir: string, pages: seq<Page>): (r: RunEffect)
    ensures r.stalled <= |pages|
  {
    if pages == [] then RunEffect(0, files)
    else
      var prior := RunChapter(files, dir, pages[..|pages| - 1]);
      var step := PageEffect(prior.files, dir, pages[|pages| - 1]);
      RunEffect(if step.ok then prior.stalled else prior.stalled + 1, step.files)
  }

  /** Running pages keeps every file and adds only image files of the chapter. */
  lemma {:induction false} RunChapterFrame(files: FileMap, dir: string, pages: seq<Page>)
    ensures var r := RunChapter(files, dir, pages);
      Extends(files, r.files) && r.files.Keys <= files.Keys + JpgPageFiles(dir, pages)
  {
    if pages != [] {
      var last := |pages| - 1;
      var prefix, page := pages[..last], pages[last];
      RunChapterFrame(files, dir, prefix);
      var prior := RunChapter(files, dir, prefix);
      var step := PageEffect(prior.files, dir, page);
      ExtendsTransitive(files, prior.files, step.files);
      forall f | f in step.files
        ensures f in files.Keys + JpgPageFiles(dir, pages)
      {
        if f !in prior.files {
          assert pages[last] == page;
        }
      }
    }
  }

  /**
   * With distinct page numbers, the file of the last page is no earlier page's file, so running
   * the earlier pages leaves it present exactly when it was present before.
   */
  lemma LastPageFresh(files: FileMap, dir: string, pages: seq<Page>)
    requires DistinctNumbers(pages) && |pages| > 0
    ensures var last := |pages| - 1;
      var file := PageFile(dir, pages[last].number);
      && (forall j | 0 <= j < last :: PageFile(dir, pages[j].number) != file)
      && (file in RunChapter(files, dir, pages[..last]).files <==> file in files)
  {
    var last := |pages| - 1;
    var prefix, file := pages[..last], PageFile(dir, pages[last].number);
    forall j | 0 <= j < last
      ensures PageFile(dir, pages[j].number) != file
    {
      if PageFile(dir, pages[j].number) == file {
        PageFileInjective(dir, pages[j].number, pages[last].number);
      }
    }
    RunChapterFrame(files, dir, prefix);
    NotAPageFile(dir, prefix, file);
  }

  /** A file that no page's file equals is not among the image files of the pages. */
  lemma {:induction false} NotAPageFile(dir: string, pages: seq<Page>, file: string)
    requires forall j | 0 <= j < |pages| :: PageFile(dir, pages[j].number) != file
    ensures file !in JpgPageFiles(dir, pages)
  {
    if pages != [] {
      NotAPageFile(dir, pages[..|pages| - 1], file);
    }
  }

  /** The last page of distinct-numbered pages completes exactly when it could complete from the disk before the chapter. */
  lemma LastPageOutcome(files: FileMap, dir: string, pages: seq<Page>)
    requires DistinctNumbers(pages) && |pages| > 0
    ensures var last := |pages| - 1;
      var prior := RunChapter(files, dir, pages[..last]);
      PageEffect(prior.files, dir, pages[last]).ok <==> Deliverable(files, dir, pages[last])
  {
    LastPageFresh(files, dir, pages);
  }

  /** Running pages with distinct numbers settles every page. */
  lemma {:induction false} RunChapterSettles(files: FileMap, dir: string, pages: seq<Page>)
    requires DistinctNumbers(pages)
    ensures forall j | 0 <= j < |pages| :: Settled(files, RunChapter(files, dir, pages).files, dir, pages[j])
  {
    if pages != [] {
      var last := |pages| - 1;
      var prefix := pages[..last];
      assert DistinctNumbers(prefix);
      RunChapterSettles(files, dir, prefix);
      var prior := RunChapter(files, dir, prefix);
      var step := PageEffect(prior.files, dir, pages[last]);
      assert RunChapter(files, dir, pages).files == step.files;
      LastPageFresh(files, dir, pages);
      LastPageOutcome(files, dir, pages);
      assert forall j | 0 <= j < last :: Settled(files, prior.files, dir, pages[j]) by {
        assert forall j | 0 <= j < last :: prefix[j] == pages[j];
      }
      SettledStep(files, prior.files, step.files, dir, pages);
    }
  }

  /** Running pages with distinct numbers stalls nowhere exactly when every page could complete. */
  lemma {:induction false} RunChapterStalls(files: FileMap, dir: string, pages: seq<Page>)
    requires DistinctNumbers(pages)
    ensures RunChapter(files, dir, pages).stalled == 0 <==> forall j | 0 <= j < |pages| :: Deliverable(files, dir, pages[j])
  {
    if pages != [] {
      var last := |pages| - 1;
      var prefix := pages[..last];
      assert DistinctNumbers(prefix);
      RunChapterStalls(files, dir, prefix);
      LastPageOutcome(files, dir, pages);
      assert forall j | 0 <= j < last :: prefix[j] == pages[j];
    }
  }

  /**
   * The last page settles, and adding only its file keeps the earlier pages, whose files differ
   * from it, settled.
   */
  lemma SettledStep(files: FileMap, prior: FileMap, after: FileMap, dir: string, pages: seq<Page>)
    requires |pages| > 0
    requires var last := |pages| - 1;
      forall j | 0 <= j < last :: Settled(files, prior, dir, pages[j]) && PageFile(dir, pages[j].number) != PageFile(dir, pages[last].number)
    requires Extends(prior, after)
    requires forall f | f in after && f !in prior :: f == PageFile(dir, pages[|pages| - 1].number)
    requires Settled(files, after, dir, pages[|pages| - 1])
    ensures forall j | 0 <= j < |pages| :: Settled(files, after, dir, pages[j])
  {
  }

  /** Once every page is settled, the chapter's image files are all stored exactly when every page could complete. */
  lemma StoredIffDeliverable(before: FileMap, after: FileMap, dir: string, pages: seq<Page>)
    requires forall j | 0 <= j < |pages| :: Settled(before, after, dir, pages[j])
    ensures ChapterStored(after, dir, pages) <==> forall j | 0 <= j < |pages| :: Deliverable(before, dir, pages[j])
  {
    if ChapterStored(after, dir, pages) {
      forall j | 0 <= j < |pages|
        ensures Deliverable(before, dir, pages[j])
      {
        assert Settled(before, after, dir, pages[j]);
      }
    }
  }

  /**
   * Running pages with distinct numbers keeps every file, adds only image files of the chapter,
   * settles every page, and stalls nowhere exactly when every page could complete, that is,
   * exactly when every image file of the chapter is stored afterwards.
   */
  lemma RunChapterOutcome(files: FileMap, dir: string, pages: seq<Page>)
    requires DistinctNumbers(pages)
    ensures var r := RunChapter(files, dir, pages);
      && Extends(files, r.files)
      && r.files.Keys <= files.Keys + JpgPageFiles(dir, pages)
      && (forall j | 0 <= j < |pages| :: Settled(files, r.files, dir, pages[j]))
      && (r.stalled == 0 <==> forall j | 0 <= j < |pages| :: Deliverable(files, dir, pages[j]))
      && (r.stalled == 0 <==> ChapterStored(r.files, dir, pages))
  {
    RunChapterFrame(files, dir, pages);
    RunChapterSettles(files, dir, pages);
    RunChapterStalls(files, dir, pages);
    StoredIffDeliverable(files, RunChapter(files, dir, pages).files, dir, pages);
  }

  /** The first `n` chapters of the volume have every image file under `root`. */
  ghost predicate ChaptersStored(files: FileMap, root: string, volume: Volume, runs: seq<ChapterRun>, n: nat)
    requires n <= |runs| <= |volume.chapters|
  {
    forall c | 0 <= c < n :: ChapterStored(files, ChapterDir(root, volume.name, volume.chapters[c]), runs[c].pages)
  }

  /** Files stored for earlier chapters survive a later chapter, which adds its own. */
  lemma NextChapterStored(before: FileMap, after: FileMap, root: string, volume: Volume, runs: seq<ChapterRun>, n: nat)
    requires n < |runs| <= |volume.chapters|
    requires ChaptersStored(before, root, volume, runs, n) && Extends(before, after)
    requires ChapterStored(after, ChapterDir(root, volume.name, volume.chapters[n]), runs[n].pages)
    ensures ChaptersStored(after, root, volume, runs, n + 1)
  {
    forall c | 0 <= c < n + 1
      ensures ChapterStored(after, ChapterDir(root, volume.name, volume.chapters[c]), runs[c].pages)
    {
      if c < n {
        assert ChapterStored(before, ChapterDir(root, volume.name, volume.chapters[c]), runs[c].pages);
      }
    }
  }

  /** Files present for the first `n` chapters of a volume stay present on a disk that keeps every file. */
  lemma ChaptersStoredExtends(before: FileMap, after: FileMap, root: string, volume: Volume, runs: seq<ChapterRun>, n: nat)
    requires n <= |runs| <= |volume.chapters|
    requires ChaptersStored(before, root, volume, runs, n) && Extends(before, after)
    ensures ChaptersStored(after, root, volume, runs, n)
  {
  }

  /** The chapters of a volume run one after another from `files`: how many pages stalled in all, and the disk afterwards. */
  function RunVolume(files: FileMap, root: string, volume: Volume, runs: seq<ChapterRun>): (r: RunEffect)
    requires |runs| <= |volume.chapters|
    ensures r.stalled <= TotalPages(runs)
  {
    if runs == [] then RunEffect(0, files)
    else
      var last := |runs| - 1;
      var prior := RunVolume(files, root, volume, runs[..last]);
      var step := RunChapter(prior.files, ChapterDir(root, volume.name, volume.chapters[last]), runs[last].pages);
      RunEffect(prior.stalled + step.stalled, step.files)
  }

  /** Running one more chapter of the volume adds its stalled pages and its effect on the disk. */
  lemma RunVolumeStep(files: FileMap, root: string, volume: Volume, runs: seq<ChapterRun>, c: nat)
    requires c < |runs| <= |volume.chapters|
    ensures var prior := RunVolume(files, root, volume, runs[..c]);
      var step := RunChapter(prior.files, ChapterDir(root, volume.name, volume.chapters[c]), runs[c].pages);
      && RunVolume(files, root, volume, runs[..c + 1]) == RunEffect(prior.stalled + step.stalled, step.files)
      && TotalPages(runs[..c + 1]) == TotalPages(runs[..c]) + |runs[c].pages|
  {
    assert runs[..c + 1][..c] == runs[..c];
  }

  /** The files the chapters of a volume may write: the image files of each chapter in its own directory. */
  ghost function VolumeFiles(root: string, volume: Volume, runs: seq<ChapterRun>): set<string>
    requires |runs| <= |volume.chapters|
  {
    if runs == [] then {}
    else
      var last := |runs| - 1;
      VolumeFiles(root, volume, runs[..last]) + JpgPageFiles(ChapterDir(root, volume.name, volume.chapters[last]), runs[last].pages)
  }

  /** Running the chapters of a volume keeps every file and adds only image files of its chapters. */
  lemma {:induction false} RunVolumeFrame(files: FileMap, root: string, volume: Volume, runs: seq<ChapterRun>)
    requires |runs| <= |volume.chapters|
    ensures var r := RunVolume(files, root, volume, runs);
      Extends(files, r.files) && r.files.Keys <= files.Keys + VolumeFiles(root, volume, runs)
  {
    if runs != [] {
      var last := |runs| - 1;
      RunVolumeFrame(files, root, volume, runs[..last]);
      var prior := RunVolume(files, root, volume, runs[..last]);
      var dir := ChapterDir(root, volume.name, volume.chapters[last]);
      RunChapterFrame(prior.files, dir, runs[last].pages);
      ExtendsTransitive(files, prior.files, RunChapter(prior.files, dir, runs[last].pages).files);
    }
  }

  /** When no page of a volume stalls, every image file of every chapter is on disk afterwards. */
  lemma {:induction false} RunVolumeStored(files: FileMap, root: string, volume: Volume, runs: seq<ChapterRun>)
    requires |runs| <= |volume.chapters|
    requires forall c | 0 <= c < |runs| :: DistinctNumbers(runs[c].pages)
    requires RunVolume(files, root, volume, runs).stalled == 0
    ensures ChaptersStored(RunVolume(files, root, volume, runs).files, root, volume, runs, |runs|)
  {
    if runs != [] {
      var last := |runs| - 1;
      var prefix := runs[..last];
      assert forall c | 0 <= c < last :: prefix[c] == runs[c];
      RunVolumeStored(files, root, volume, prefix);
      var prior := RunVolume(files, root, volume, prefix);
      var dir := ChapterDir(root, volume.name, volume.chapters[last]);
      RunChapterOutcome(prior.files, dir, runs[last].pages);
      assert ChaptersStored(prior.files, root, volume, runs, last) by {
        assert ChaptersStored(prior.files, root, volume, prefix, last);
      }
      NextChapterStored(prior.files, RunChapter(prior.files, dir, runs[last].pages).files, root, volume, runs, last);
    }
  }

  /**
   * The record `saveVolume` leaves on a volume whose chapters run from the disk `files`: cleared
   * when no page stalled (index.js line 90), otherwise every page buffered and counted, and done
   * but for the pages that stalled.
   */
  function VolumeRecord(files: FileMap, root: string, volume: Volume, runs: seq<ChapterRun>): (r: Option<Progress>)
    requires |runs| <= |volume.chapters|
    ensures r.None? || (r.value.Ordered() && r.value.done < r.value.total)
  {
    var stalled := RunVolume(files, root, volume, runs).stalled;
    if stalled == 0 then None else Some(Progress(TotalPages(runs) - stalled, TotalPages(runs), TotalPages(runs)))
  }

  /** The files saving the first `n` chosen volumes may write: the image files of the chapters of each. */
  ghost function ChosenFiles(root: string, volumes: seq<Volume>, chosen: seq<int>, runs: seq<seq<ChapterRun>>, n: nat): set<string>
    requires |runs| == |chosen| && n <= |chosen|
    requires forall k | 0 <= k < |chosen| :: 0 <= chosen[k] < |volumes| && |runs[k]| <= |volumes[chosen[k]].chapters|
  {
    if n == 0 then {}
    else ChosenFiles(root, volumes, chosen, runs, n - 1) + VolumeFiles(root, volumes[chosen[n - 1]], runs[n - 1])
  }

  /** The first `n` chosen volumes saved one after another from `files`: how many pages stalled in all, and the disk afterwards. */
  function RunChosen(files: FileMap, root: string, volumes: seq<Volume>, chosen: seq<int>, runs: seq<seq<ChapterRun>>, n: nat): RunEffect
    requires |runs| == |chosen| && n <= |chosen|
    requires forall k | 0 <= k < |chosen| :: 0 <= chosen[k] < |volumes| && |runs[k]| <= |volumes[chosen[k]].chapters|
  {
    if n == 0 then RunEffect(0, files)
    else
      var prior := RunChosen(files, root, volumes, chosen, runs, n - 1);
      var step := RunVolume(prior.files, root, volumes[chosen[n - 1]], runs[n - 1]);
      RunEffect(prior.stalled + step.stalled, step.files)
  }

  /** Saving the chosen volumes keeps every file and adds only image files of their chapters. */
  lemma RunChosenFrame(files: FileMap, root: string, volumes: seq<Volume>, chosen: seq<int>, runs: seq<seq<ChapterRun>>, n: nat)
    requires |runs| == |chosen| && n <= |chosen|
    requires forall k | 0 <= k < |chosen| :: 0 <= chosen[k] < |volumes| && |runs[k]| <= |volumes[chosen[k]].chapters|
    ensures var r := RunChosen(files, root, volumes, chosen, runs, n);
      Extends(files, r.files) && r.files.Keys <= files.Keys + ChosenFiles(root, volumes, chosen, runs, n)
  {
    ChosenGrowth(files, root, volumes, chosen, runs, n, RunChosen(files, root, volumes, chosen, runs, n).files, ChosenFiles(root, volumes, chosen, runs, n));
  }

  /** `RunChosenFrame` for the disk `after` and the file set `allowed` that the first `n` saves give. */
  lemma {:induction false} ChosenGrowth(files: FileMap, root: string, volumes: seq<Volume>, chosen: seq<int>, runs: seq<seq<ChapterRun>>, n: nat,
                                        after: FileMap, allowed: set<string>)
    requires |runs| == |chosen| && n <= |chosen|
    requires forall k | 0 <= k < |chosen| :: 0 <= chosen[k] < |volumes| && |runs[k]| <= |volumes[chosen[k]].chapters|
    requires after == RunChosen(files, root, volumes, chosen, runs, n).files
    requires allowed == ChosenFiles(root, volumes, chosen, runs, n)
    ensures Extends(files, after) && after.Keys <= files.Keys + allowed
  {
    if n > 0 {
      var prior := RunChosen(files, root, volumes, chosen, runs, n - 1).files;
      var a := ChosenFiles(root, volumes, chosen, runs, n - 1);
      ChosenGrowth(files, root, volumes, chosen, runs, n - 1, prior, a);
      RunVolumeFrame(prior, root, volumes[chosen[n - 1]], runs[n - 1]);
      GrowsWithin(files, prior, after, a, VolumeFiles(root, volumes[chosen[n - 1]], runs[n - 1]));
    }
  }

  /** A disk that grows within `a` and then within `b` has grown within `a + b`. */
  lemma GrowsWithin(files: FileMap, middle: FileMap, after: FileMap, a: set<string>, b: set<string>)
    requires Extends(files, middle) && middle.Keys <= files.Keys + a
    requires Extends(middle, after) && after.Keys <= middle.Keys + b
    ensures Extends(files, after) && after.Keys <= files.Keys + (a + b)
  {
    ExtendsTransitive(files, middle, after);
  }

  /** When no page of the chosen volumes stalls, every image file of every chapter of each is on disk afterwards. */
  lemma {:induction false} RunChosenStored(files: FileMap, root: string, volumes: seq<Volume>, chosen: seq<int>, runs: seq<seq<ChapterRun>>, n: nat)
    requires |runs| == |chosen| && n <= |chosen|
    requires forall k | 0 <= k < |chosen| :: 0 <= chosen[k] < |volumes| && |runs[k]| <= |volumes[chosen[k]].chapters|
    requires forall k | 0 <= k < |chosen| :: forall c | 0 <= c < |runs[k]| :: DistinctNumbers(runs[k][c].pages)
    requires RunChosen(files, root, volumes, chosen, runs, n).stalled == 0
    ensures var r := RunChosen(files, root, volumes, chosen, runs, n);
      forall k | 0 <= k < n :: ChaptersStored(r.files, root, volumes[chosen[k]], runs[k], |runs[k]|)
  {
    if n > 0 {
      var last := n - 1;
      RunChosenStored(files, root, volumes, chosen, runs, last);
      var prior := RunChosen(files, root, volumes, chosen, runs, last);
      var after := RunVolume(prior.files, root, volumes[chosen[last]], runs[last]).files;
      assert Extends(prior.files, after) by {
        RunVolumeFrame(prior.files, root, volumes[chosen[last]], runs[last]);
      }
      assert ChaptersStored(after, root, volumes[chosen[last]], runs[last], |runs[last]|) by {
        RunVolumeStored(prior.files, root, volumes[chosen[last]], runs[last]);
      }
      ChosenStoredStep(prior.files, after, root, volumes, chosen, runs, last);
    }
  }

  /** The first `k + 1` chosen volumes are stored once the first `k` were and the next one is stored without losing a file. */
  lemma ChosenStoredStep(before: FileMap, after: FileMap, root: string, volumes: seq<Volume>, chosen: seq<int>, runs: seq<seq<ChapterRun>>, k: nat)
    requires |runs| == |chosen| && k < |chosen|
    requires forall j | 0 <= j < |chosen| :: 0 <= chosen[j] < |volumes| && |runs[j]| <= |volumes[chosen[j]].chapters|
    requires forall j | 0 <= j < k :: ChaptersStored(before, root, volumes[chosen[j]], runs[j], |runs[j]|)
    requires Extends(before, after)
    requires ChaptersStored(after, root, volumes[chosen[k]], runs[k], |runs[k]|)
    ensures forall j | 0 <= j < k + 1 :: ChaptersStored(after, root, volumes[chosen[j]], runs[j], |runs[j]|)
  {
    ChosenStoredExtends(before, after, root, volumes, chosen, runs, k);
  }

  /** Files stored for the first `n` chosen volumes survive on a disk that keeps every file. */
  lemma ChosenStoredExtends(before: FileMap, after: FileMap, root: string, volumes: seq<Volume>, chosen: seq<int>, runs: seq<seq<ChapterRun>>, n: nat)
    requires |runs| == |chosen| && n <= |chosen|
    requires forall k | 0 <= k < |chosen| :: 0 <= chosen[k] < |volumes| && |runs[k]| <= |volumes[chosen[k]].chapters|
    requires Extends(before, after)
    requires forall k | 0 <= k < n :: ChaptersStored(before, root, volumes[chosen[k]], runs[k], |runs[k]|)
    ensures forall k | 0 <= k < n :: ChaptersStored(after, root, volumes[chosen[k]], runs[k], |runs[k]|)
  {
    forall k | 0 <= k < n
      ensures ChaptersStored(after, root, volumes[chosen[k]], runs[k], |runs[k]|)
    {
      ChaptersStoredExtends(before, after, root, volumes[chosen[k]], runs[k], |runs[k]|);
    }
  }

  /** The volume objects at the first `n` chosen indices. */
  ghost function ChosenVolumes(volumes: seq<Volume>, chosen: seq<int>, n: nat): (r: set<Volume>)
    requires n <= |chosen|
    requires forall k | 0 <= k < |chosen| :: 0 <= chosen[k] < |volumes|
    ensures forall k | 0 <= k < n :: volumes[chosen[k]] in r
    ensures forall v | v in r :: v in volumes
  {
    if n == 0 then {} else ChosenVolumes(volumes, chosen, n - 1) + {volumes[chosen[n - 1]]}
  }

  /** The position of the last save of `v` among the first `n` chosen indices: later positions save other volumes. */
  ghost function LastSave(volumes: seq<Volume>, chosen: seq<int>, n: nat, v: Volume): (i: nat)
    requires n <= |chosen|
    requires forall k | 0 <= k < |chosen| :: 0 <= chosen[k] < |volumes|
    requires v in ChosenVolumes(volumes, chosen, n)
    ensures i < n && volumes[chosen[i]] == v
    ensures forall j | i < j < n :: volumes[chosen[j]] != v
  {
    if volumes[chosen[n - 1]] == v then n - 1 else LastSave(volumes, chosen, n - 1, v)
  }

  /** The selection `saveVolumes` works through: the one given, or every volume index in order. */
  ghost function Selected(selection: Option<seq<int>>, count: nat): seq<int>
  {
    if selection.Some? then selection.value else seq(count, i => i)
  }

  /** The indices `saveVolumes` works through (index.js lines 64-69): the selection, or every index in order. */
  method ChosenIndices(selection: Option<seq<int>>, count: nat) returns (indices: seq<int>)
    ensures indices == Selected(selection, count)
  {
    if selection.None? {
      indices := AllIndices(count);
      assert indices == seq(count, i => i);
    } else {
      indices := selection.value;
    }
  }

  /** The index list `saveVolumes` builds when given no selection (index.js lines 64-69). */
  method AllIndices(count: nat) returns (indices: seq<int>)
    ensures |indices| == count
    ensures forall i | 0 <= i < count :: indices[i] == i
  {
    indices := [];
    var index := 0;
    while index < count
      invariant 0 <= index <= count
      invariant |indices| == index
      invariant forall i | 0 <= i < index :: indices[i] == i
    {
      indices := indices + [index];
      index := index + 1;
    }
  }

  /**
   * The volume `getVolumes` builds from one chapter list, given its anchor hrefs in page order
   * (newest chapter first): the name comes from the oldest anchor, and the chapter ids run oldest first.
   */
  function VolumeOf(url: string, anchors: seq<string>): (entry: Entry)
    requires |anchors| > 0
    ensures |entry.chapters| == |anchors|
  {
    var name := VolumeName(url, anchors[|anchors| - 1]);
    Entry(name, ChapterIds(url, name, anchors))
  }

  /** The chapter ids of the anchors, read from the last anchor to the first. */
  function ChapterIds(url: string, name: string, anchors: seq<string>): (ids: seq<string>)
    ensures |ids| == |anchors|
  {
    if anchors == [] then [] else ChapterIds(url, name, anchors[1..]) + [ChapterId(url, name, anchors[0])]
  }

  /** The elements of `s` in the opposite order. */
  function Reversed(s: seq<string>): (r: seq<string>)
    ensures |r| == |s|
  {
    if s == [] then [] else Reversed(s[1..]) + [s[0]]
  }

  /** Anchors that link the first pages of chapters `ids` of one volume give back the ids, last first. */
  lemma {:induction false} ChapterIdsOfAnchors(url: string, name: string, ids: seq<string>, anchors: seq<string>)
    requires |anchors| == |ids|
    requires forall j | 0 <= j < |ids| :: anchors[j] == Anchor(url, name, ids[j])
    ensures ChapterIds(url, name, anchors) == Reversed(ids)
  {
    if ids != [] {
      assert forall j | 0 <= j < |ids| - 1 :: anchors[1..][j] == Anchor(url, name, ids[1..][j]);
      ChapterIdsOfAnchors(url, name, ids[1..], anchors[1..]);
      AnchorChapterId(url, name, ids[0]);
    }
  }

  /**
   * A chapter list whose anchors all link the first pages of chapters of one volume is read back
   * as that volume, with its chapters in publication order (the page lists the newest first).
   */
  lemma VolumeOfAnchors(url: string, name: string, ids: seq<string>, anchors: seq<string>)
    requires IsVolumeName(name) && |ids| > 0 && |anchors| == |ids|
    requires forall j | 0 <= j < |ids| :: '/' !in ids[j] && anchors[j] == Anchor(url, name, ids[j])
    ensures VolumeOf(url, anchors) == Entry(name, Reversed(ids))
  {
    var last := |ids| - 1;
    assert anchors[last] == Anchor(url, name, ids[last]);
    AnchorVolumeName(url, name, ids[last]);
    ChapterIdsOfAnchors(url, name, ids, anchors);
    VolumeOfParts(url, anchors, name, Reversed(ids));
  }

  /** The volume of a chapter list is made of the name read from its last anchor and the ids read from all of them. */
  lemma VolumeOfParts(url: string, anchors: seq<string>, name: string, chapters: seq<string>)
    requires |anchors| > 0
    requires VolumeName(url, anchors[|anchors| - 1]) == name && ChapterIds(url, name, anchors) == chapters
    ensures VolumeOf(url, anchors) == Entry(name, chapters)
  {
  }

  /** The name and chapter ids of each volume object. */
  function Entries(volumes: seq<Volume>): (entries: seq<Entry>)
    ensures |entries| == |volumes|
  {
    if volumes == [] then []
    else
      var last := volumes[|volumes| - 1];
      Entries(volumes[..|volumes| - 1]) + [Entry(last.name, last.chapters)]
  }

  /** The volumes `getVolumes` builds from chapter lists that all have anchors: one per list, the last list first. */
  function VolumesOf(url: string, lists: seq<seq<string>>): (entries: seq<Entry>)
    requires forall i | 0 <= i < |lists| :: lists[i] != []
    ensures |entries| == |lists|
  {
    if lists == [] then [] else VolumesOf(url, lists[1..]) + [VolumeOf(url, lists[0])]
  }

  /** Reading one more list, the last unread one, appends its volume. */
  lemma VolumesOfStep(url: string, lists: seq<seq<string>>, i: nat)
    requires i < |lists| && forall k | i <= k < |lists| :: lists[k] != []
    ensures VolumesOf(url, lists[i..]) == VolumesOf(url, lists[i + 1..]) + [VolumeOf(url, lists[i])]
  {
    assert lists[i..][1..] == lists[i + 1..];
  }

  /** Position `k` of the volumes is read from the `k`-th chapter list from the end. */
  lemma {:induction false} VolumesOfReversed(url: string, lists: seq<seq<string>>, k: nat)
    requires forall i | 0 <= i < |lists| :: lists[i] != []
    requires k < |lists|
    ensures VolumesOf(url, lists)[k] == VolumeOf(url, lists[|lists| - 1 - k])
  {
    if k < |lists| - 1 {
      VolumesOfReversed(url, lists[1..], k);
      assert lists[1..][|lists| - 2 - k] == lists[|lists| - 1 - k];
    }
  }

  class Manga {
    const url: string
    var path: string
    var volumes: seq<Volume>

    /** `new Manga(url, path, volumes)` for a non-empty URL; `path` defaults, `volumes` starts empty when absent. */
    constructor (url: string, path: string, volumes: Option<seq<Volume>>)
      requires url != ""
      ensures this.url == url
      ensures this.path == if path == "" then DefaultPath else path
      ensures this.volumes == if volumes.Some? then volumes.value else []
    {
      this.url := url;
      this.path := if path == "" then DefaultPath else path;
      this.volumes := if volumes.Some? then volumes.value else [];
    }

    /** The constructor with its error path: an empty URL throws `URL required`. */
    static method Create(url: string, path: string, volumes: Option<seq<Volume>>) returns (r: Result<Manga, string>)
      ensures r.Failure? <==> url == ""
      ensures r.Failure? ==> r.error == "URL required"
      ensures r.Success? ==> fresh(r.value) && r.value.url == url
      ensures r.Success? ==> r.value.path == if path == "" then DefaultPath else path
      ensures r.Success? ==> r.value.volumes == if volumes.Some? then volumes.value else []
    {
      if url == "" {
        return Failure("URL required");
      }
      var manga := new Manga(url, path, volumes);
      return Success(manga);
    }

    /**
     * `getVolumes`, given the hrefs of the anchors of each chapter list in page order.
     * The lists are read last first; a list without anchors makes the source throw (it reads
     * the href of `anchors[0]`), which leaves the volumes read so far and reports failure.
     * The entries are read first and the volume objects created afterwards; the source creates
     * each object as soon as its list is read, which nothing in between observes.
     */
    method GetVolumes(lists: seq<seq<string>>) returns (ok: bool)
      modifies this`volumes
      ensures ok <==> forall i | 0 <= i < |lists| :: lists[i] != []
      ensures |volumes| <= |lists| && (ok ==> |volumes| == |lists|)
      ensures !ok ==> |volumes| < |lists| && lists[|lists| - 1 - |volumes|] == []
      ensures forall i | |lists| - |volumes| <= i < |lists| :: lists[i] != []
      ensures forall i | 0 <= i < |volumes| :: fresh(volumes[i]) && volumes[i].loading == None
      ensures forall i, j | 0 <= i < j < |volumes| :: volumes[i] != volumes[j]
      ensures Entries(volumes) == VolumesOf(url, lists[|lists| - |volumes|..])
    {
      var entries, from := ReadLists(lists);
      ok := from == 0;
      volumes := NewVolumes(entries);
    }

    /**
     * The loop of `getVolumes` over the chapter lists, last first: it reads the lists from
     * `from` on and stops at `from`, the first list from the end without anchors, or at 0.
     */
    method ReadLists(lists: seq<seq<string>>) returns (entries: seq<Entry>, from: nat)
      ensures from <= |lists| && (from > 0 ==> lists[from - 1] == [])
      ensures forall i | from <= i < |lists| :: lists[i] != []
      ensures entries == VolumesOf(url, lists[from..])
    {
      entries := [];
      from := |lists|;
      while from > 0 && |lists[from - 1]| > 0
        invariant from <= |lists|
        invariant forall i | from <= i < |lists| :: lists[i] != []
        invariant entries == VolumesOf(url, lists[from..])
      {
        entries := ReadNext(lists, from - 1, entries);
        from := from - 1;
      }
    }

    /** One step of the loop: reading list `i` appends its volume. */
    method ReadNext(lists: seq<seq<string>>, i: nat, entries: seq<Entry>) returns (more: seq<Entry>)
      requires i < |lists| && forall k | i <= k < |lists| :: lists[k] != []
      requires entries == VolumesOf(url, lists[i + 1..])
      ensures more == VolumesOf(url, lists[i..])
    {
      var entry := ReadVolume(lists[i]);
      VolumesOfStep(url, lists, i);
      more := entries + [entry];
    }

    /** The volume objects for the entries read, each with a clear progress record. */
    static method NewVolumes(entries: seq<Entry>) returns (volumes: seq<Volume>)
      ensures Entries(volumes) == entries
      ensures forall i | 0 <= i < |volumes| :: fresh(volumes[i]) && volumes[i].loading == None
      ensures forall i, j | 0 <= i < j < |volumes| :: volumes[i] != volumes[j]
    {
      volumes := [];
      while |volumes| < |entries|
        invariant |volumes| <= |entries|
        invariant Entries(volumes) == entries[..|volumes|]
        invariant forall i | 0 <= i < |volumes| :: fresh(volumes[i]) && volumes[i].loading == None
        invariant forall i, j | 0 <= i < j < |volumes| :: volumes[i] != volumes[j]
      {
        var volume := new Volume(entries[|volumes|]);
        assert (volumes + [volume])[..|volumes|] == volumes;
        volumes := volumes + [volume];
      }
      assert entries[..|volumes|] == entries;
    }

    /**
     * One chapter list of `getVolumes`: the volume name from the last anchor, then the chapter
     * ids pushed while walking the anchors from last to first.
     */
    method ReadVolume(anchors: seq<string>) returns (entry: Entry)
      requires |anchors| > 0
      ensures entry == VolumeOf(url, anchors)
    {
      var name := VolumeName(url, anchors[|anchors| - 1]);
      var chapters: seq<string> := [];
      var j := |anchors|;
      while j > 0
        invariant 0 <= j <= |anchors|
        invariant chapters == ChapterIds(url, name, anchors[j..])
      {
        j := j - 1;
        assert anchors[j..][1..] == anchors[j + 1..];
        chapters := chapters + [ChapterId(url, name, anchors[j])];
      }
      assert anchors[0..] == anchors;
      entry := Entry(name, chapters);
    }

    /**
     * What saving the volumes at the indices of `chosen`, one after another, leaves behind,
     * starting from the disk `files` and the records `records` (one per volume).
     * The disk is what `RunChosen` describes, and the whole selection finished exactly when no
     * page stalled. No other volume's record changed. Each chosen volume's record is exactly the
     * one its last save left behind (`VolumeRecord` of the disk that save started from), and is
     * cleared when everything finished. No file was lost,
     * every new file is an image file of a chosen chapter, and when everything finished every
     * image file of every chosen chapter is on disk.
     */
    ghost predicate SavedChosen(files: FileMap, records: seq<Option<Progress>>, disk: Disk, chosen: seq<int>, runs: seq<seq<ChapterRun>>, finished: bool)
      requires |runs| == |chosen| && |records| == |volumes|
      requires forall k | 0 <= k < |chosen| :: 0 <= chosen[k] < |volumes| && |runs[k]| == |volumes[chosen[k]].chapters|
      reads this, disk, volumes
    {
      var r := RunChosen(files, path, volumes, chosen, runs, |chosen|);
      var saved := ChosenVolumes(volumes, chosen, |chosen|);
      && disk.files == r.files && (finished <==> r.stalled == 0)
      && (forall i | 0 <= i < |volumes| && volumes[i] !in saved :: volumes[i].loading == records[i])
      && (forall v | v in saved :: Sound(v) && var i := LastSave(volumes, chosen, |chosen|, v);
           v.loading == VolumeRecord(RunChosen(files, path, volumes, chosen, runs, i).files, path, v, runs[i]))
      && (finished ==> forall v | v in saved :: v.loading.None?)
      && Extends(files, disk.files)
      && disk.files.Keys <= files.Keys + ChosenFiles(path, volumes, chosen, runs, |chosen|)
      && (finished ==> forall k | 0 <= k < |chosen| :: ChaptersStored(disk.files, path, volumes[chosen[k]], runs[k], |runs[k]|))
    }

    /**
     * `saveVolumes(selection, newPath)`: a non-empty `newPath` replaces the root; then every
     * selected volume (all of them, in index order, when there is no selection) is saved in turn.
     */
    method SaveVolumes(disk: Disk, selection: Option<seq<int>>, newPath: string, runs: seq<seq<ChapterRun>>)
      returns (finished: bool, ghost chosen: seq<int>)
      requires |runs| == |Selected(selection, |volumes|)|
      requires forall k | 0 <= k < |runs| ::
        0 <= Selected(selection, |volumes|)[k] < |volumes| && |runs[k]| == |volumes[Selected(selection, |volumes|)[k]].chapters|
      requires forall k | 0 <= k < |runs| :: forall c | 0 <= c < |runs[k]| :: Runnable(runs[k][c])
      modifies this`path, disk, volumes
      ensures path == if newPath != "" then newPath else old(path)
      ensures chosen == Selected(selection, |volumes|)
      ensures SavedChosen(old(disk.files), old(Records(volumes)), disk, chosen, runs, finished)
    {
      ghost var files, records := disk.files, Records(volumes);
      if newPath != "" {
        path := newPath;
      }
      var indices := ChosenIndices(selection, |volumes|);
      chosen := indices;
      // A new root changes neither the disk nor any record.
      assert disk.files == files && Records(volumes) == records;
      finished := SaveIndices(disk, indices, runs);
    }

    /** The volumes at the indices of `chosen`, saved in turn, with everything `SavedChosen` promises. */
    method SaveIndices(disk: Disk, chosen: seq<int>, runs: seq<seq<ChapterRun>>) returns (finished: bool)
      requires |runs| == |chosen|
      requires forall k | 0 <= k < |chosen| :: 0 <= chosen[k] < |volumes| && |runs[k]| == |volumes[chosen[k]].chapters|
      requires forall k | 0 <= k < |chosen| :: forall c | 0 <= c < |runs[k]| :: Runnable(runs[k][c])
      modifies disk, volumes
      ensures SavedChosen(old(disk.files), old(Records(volumes)), disk, chosen, runs, finished)
    {
      finished := SaveChosen(disk, chosen, runs);
      ChosenSaved(old(disk.files), old(Records(volumes)), disk, chosen, runs, finished);
    }

    /** What the loop over the chosen volumes promises, together with the frame and storage facts about `RunChosen`, is `SavedChosen`. */
    lemma ChosenSaved(files: FileMap, records: seq<Option<Progress>>, disk: Disk, chosen: seq<int>, runs: seq<seq<ChapterRun>>, finished: bool)
      requires |runs| == |chosen| && |records| == |volumes|
      requires forall k | 0 <= k < |chosen| :: 0 <= chosen[k] < |volumes| && |runs[k]| == |volumes[chosen[k]].chapters|
      requires forall k | 0 <= k < |chosen| :: forall c | 0 <= c < |runs[k]| :: Runnable(runs[k][c])
      requires var r := RunChosen(files, path, volumes, chosen, runs, |chosen|);
        disk.files == r.files && (finished <==> r.stalled == 0)
      requires forall v | v in ChosenVolumes(volumes, chosen, |chosen|) ::
        Sound(v) && (finished ==> v.loading.None?) &&
        var i := LastSave(volumes, chosen, |chosen|, v);
        v.loading == VolumeRecord(RunChosen(files, path, volumes, chosen, runs, i).files, path, v, runs[i])
      requires forall i | 0 <= i < |volumes| && volumes[i] !in ChosenVolumes(volumes, chosen, |chosen|) ::
        volumes[i].loading == records[i]
      ensures SavedChosen(files, records, disk, chosen, runs, finished)
    {
      RunChosenFrame(files, path, volumes, chosen, runs, |chosen|);
      if finished {
        RunChosenStored(files, path, volumes, chosen, runs, |chosen|);
      }
    }

    /**
     * The loop of `saveVolumes`: save the volumes at the indices of `chosen`, one after another.
     * A volume chosen more than once is saved once per choice, one save after the other, and keeps
     * the record of its last save. In the source those saves overlap and share one record, so the
     * first to finish clears it and a page of another then fails on the cleared record.
     */
    method SaveChosen(disk: Disk, chosen: seq<int>, runs: seq<seq<ChapterRun>>) returns (finished: bool)
      requires |runs| == |chosen|
      requires forall k | 0 <= k < |chosen| :: 0 <= chosen[k] < |volumes| && |runs[k]| == |volumes[chosen[k]].chapters|
      requires forall k | 0 <= k < |chosen| :: forall c | 0 <= c < |runs[k]| :: Runnable(runs[k][c])
      modifies disk, ChosenVolumes(volumes, chosen, |chosen|)
      ensures var r := RunChosen(old(disk.files), path, volumes, chosen, runs, |chosen|);
        disk.files == r.files && (finished <==> r.stalled == 0)
      ensures forall v | v in ChosenVolumes(volumes, chosen, |chosen|) ::
        Sound(v) && (finished ==> v.loading.None?) &&
        var i := LastSave(volumes, chosen, |chosen|, v);
        v.loading == VolumeRecord(RunChosen(old(disk.files), path, volumes, chosen, runs, i).files, path, v, runs[i])
    {
      ghost var files := disk.files;
      finished := true;
      var k := 0;
      while k < |chosen|
        invariant 0 <= k <= |chosen|
        invariant var r := RunChosen(files, path, volumes, chosen, runs, k);
          disk.files == r.files && (finished <==> r.stalled == 0)
        invariant forall v | v in ChosenVolumes(volumes, chosen, k) ::
          Sound(v) && (finished ==> v.loading.None?) &&
          var i := LastSave(volumes, chosen, k, v);
          v.loading == VolumeRecord(RunChosen(files, path, volumes, chosen, runs, i).files, path, v, runs[i])
      {
        finished := SaveNextVolume(disk, chosen, runs, k, files, finished);
        k := k + 1;
      }
    }

    /** One turn of the loop of `saveVolumes`: save the volume at `chosen[k]` after the ones before it. */
    method SaveNextVolume(disk: Disk, chosen: seq<int>, runs: seq<seq<ChapterRun>>, k: nat, ghost files: FileMap, finished: bool)
      returns (more: bool)
      requires |runs| == |chosen| && k < |chosen|
      requires forall j | 0 <= j < |chosen| :: 0 <= chosen[j] < |volumes| && |runs[j]| == |volumes[chosen[j]].chapters|
      requires forall c | 0 <= c < |runs[k]| :: Runnable(runs[k][c])
      requires var r := RunChosen(files, path, volumes, chosen, runs, k);
        disk.files == r.files && (finished <==> r.stalled == 0)
      requires forall v | v in ChosenVolumes(volumes, chosen, k) ::
        Sound(v) && (finished ==> v.loading.None?) &&
        var i := LastSave(volumes, chosen, k, v);
        v.loading == VolumeRecord(RunChosen(files, path, volumes, chosen, runs, i).files, path, v, runs[i])
      modifies disk, volumes[chosen[k]]
      ensures var r := RunChosen(files, path, volumes, chosen, runs, k + 1);
        disk.files == r.files && (more <==> r.stalled == 0)
      ensures forall v | v in ChosenVolumes(volumes, chosen, k + 1) ::
        Sound(v) && (more ==> v.loading.None?) &&
        var i := LastSave(volumes, chosen, k + 1, v);
        v.loading == VolumeRecord(RunChosen(files, path, volumes, chosen, runs, i).files, path, v, runs[i])
    {
      var volumeDone;
      ghost var last;
      volumeDone, last := SaveVolume(disk, chosen[k], runs[k]);
      more := finished && volumeDone;
      forall v | v in ChosenVolumes(volumes, chosen, k + 1)
        ensures Sound(v) && (more ==> v.loading.None?) &&
        var i := LastSave(volumes, chosen, k + 1, v);
        v.loading == VolumeRecord(RunChosen(files, path, volumes, chosen, runs, i).files, path, v, runs[i])
      {
        if v != volumes[chosen[k]] {
          assert v.loading == old(v.loading);
        }
      }
    }

    /**
     * `saveVolume(index)`: reset the volume's record to `{0, 0, 0}`, save each chapter in turn,
     * and clear the record once every chapter has finished. `last` is the record just before that:
     * every page buffered and counted, and done but for the pages that stalled.
     */
    method SaveVolume(disk: Disk, index: int, runs: seq<ChapterRun>) returns (finished: bool, ghost last: Progress)
      requires 0 <= index < |volumes| && Fits(volumes[index], runs)
      modifies volumes[index], disk
      ensures var r := RunVolume(old(disk.files), path, volumes[index], runs);
        && disk.files == r.files
        && last == Progress(TotalPages(runs) - r.stalled, TotalPages(runs), TotalPages(runs))
        && (finished <==> r.stalled == 0)
      ensures last.Ordered() && (finished <==> last.done == last.total)
      ensures volumes[index].loading == if finished then None else Some(last)
      ensures volumes[index].loading == VolumeRecord(old(disk.files), path, volumes[index], runs)
      ensures Sound(volumes[index])
      ensures Extends(old(disk.files), disk.files)
      ensures disk.files.Keys <= old(disk.files).Keys + VolumeFiles(path, volumes[index], runs)
      ensures finished ==> ChaptersStored(disk.files, path, volumes[index], runs, |runs|)
    {
      var volume := volumes[index];
      volume.loading := Some(Progress(0, 0, 0));
      finished := SaveChapters(disk, volume, runs);
      RunVolumeFrame(old(disk.files), path, volume, runs);
      if finished {
        RunVolumeStored(old(disk.files), path, volume, runs);
      }
      last := volume.loading.value;
      if finished {
        volume.loading := None;
      }
    }

    /**
     * The chapter loop of `saveVolume`: each chapter in turn, from a record of `{0, 0, 0}`.
     * Afterwards every page is buffered and counted, the pages that stalled are not done, and
     * the chapters all finished exactly when no page stalled.
     */
    method SaveChapters(disk: Disk, volume: Volume, runs: seq<ChapterRun>) returns (finished: bool)
      requires volume.loading == Some(Progress(0, 0, 0)) && Fits(volume, runs)
      modifies volume, disk
      ensures var r := RunVolume(old(disk.files), path, volume, runs);
        && disk.files == r.files
        && volume.loading.Some? && volume.loading.value == Progress(TotalPages(runs) - r.stalled, TotalPages(runs), TotalPages(runs))
        && (finished <==> r.stalled == 0)
    {
      finished := true;
      var c := 0;
      while c < |runs|
        invariant 0 <= c <= |runs|
        invariant var r := RunVolume(old(disk.files), path, volume, runs[..c]);
          && disk.files == r.files
          && volume.loading.Some? && volume.loading.value == Progress(TotalPages(runs[..c]) - r.stalled, TotalPages(runs[..c]), TotalPages(runs[..c]))
          && (finished <==> r.stalled == 0)
      {
        finished := SaveNextChapter(disk, volume, runs, c, old(disk.files), finished);
        c := c + 1;
      }
      assert runs[..c] == runs;
    }

    /** One step of the chapter loop: saving chapter `c` extends the run of the chapters before it by one. */
    method SaveNextChapter(disk: Disk, volume: Volume, runs: seq<ChapterRun>, c: nat, ghost files: FileMap, finished: bool)
      returns (more: bool)
      requires c < |runs| <= |volume.chapters| && Runnable(runs[c])
      requires var r := RunVolume(files, path, volume, runs[..c]);
        && disk.files == r.files
        && volume.loading.Some? && volume.loading.value == Progress(TotalPages(runs[..c]) - r.stalled, TotalPages(runs[..c]), TotalPages(runs[..c]))
        && (finished <==> r.stalled == 0)
      modifies volume, disk
      ensures var r := RunVolume(files, path, volume, runs[..c + 1]);
        && disk.files == r.files
        && volume.loading.Some? && volume.loading.value == Progress(TotalPages(runs[..c + 1]) - r.stalled, TotalPages(runs[..c + 1]), TotalPages(runs[..c + 1]))
        && (more <==> r.stalled == 0)
    {
      ghost var prior := RunVolume(files, path, volume, runs[..c]);
      ghost var total := TotalPages(runs[..c]);
      var chapterDone := SaveChapter(disk, volume, volume.chapters[c], runs[c]);
      ghost var step := RunChapter(prior.files, ChapterDir(path, volume.name, volume.chapters[c]), runs[c].pages);
      RunVolumeStep(files, path, volume, runs, c);
      more := finished && chapterDone;
    }

    /**
     * `saveChapter(volume, chapter)`: add the chapter's page count to the volume's `total`,
     * then run its pages in the order given. The chapter finishes when no page stalls.
     */
    method SaveChapter(disk: Disk, volume: Volume, chapter: string, run: ChapterRun) returns (finished: bool)
      requires volume.loading.Some? && volume.loading.value.Ordered() && Runnable(run)
      modifies volume, disk
      ensures var before := old(volume.loading.value);
        var r := RunChapter(old(disk.files), ChapterDir(path, volume.name, chapter), run.pages);
        && disk.files == r.files
        && (finished <==> r.stalled == 0)
        && volume.loading.Some?
        && volume.loading.value == Progress(
             before.done + |run.pages| - r.stalled, before.buffered + |run.pages|, before.total + |run.pages|)
      ensures volume.loading.value.Ordered()
    {
      var dir := ChapterDir(path, volume.name, chapter);
      var images := PageCount(run.countText).value;
      var progress := volume.loading.value;
      volume.loading := Some(progress.(total := progress.total + images));
      var stalled := SavePages(disk, volume, dir, run.pages);
      finished := stalled == 0;
    }

    /**
     * The page loop of `saveChapter`: each page in turn, counting the pages that stall. The
     * chapter's pages are already in `total`, so the counts stay ordered after every page.
     */
    method SavePages(disk: Disk, volume: Volume, dir: string, pages: seq<Page>) returns (stalled: nat)
      requires volume.loading.Some? && volume.loading.value.Ordered()
      requires volume.loading.value.buffered + |pages| <= volume.loading.value.total
      requires forall j | 0 <= j < |pages| :: |pages[j].attempts| > 0
      modifies volume, disk
      ensures RunEffect(stalled, disk.files) == RunChapter(old(disk.files), dir, pages)
      ensures var before := old(volume.loading.value);
        volume.loading.Some? && volume.loading.value == Progress(before.done + |pages| - stalled, before.buffered + |pages|, before.total)
      ensures volume.loading.value.Ordered()
    {
      var progress := volume.loading.value;
      stalled := 0;
      var k := 0;
      while k < |pages|
        invariant 0 <= stalled <= k <= |pages|
        invariant RunEffect(stalled, disk.files) == RunChapter(old(disk.files), dir, pages[..k])
        invariant volume.loading.Some? && volume.loading.value == Progress(progress.done + k - stalled, progress.buffered + k, progress.total)
        invariant volume.loading.value.Ordered()
      {
        var completed := SavePage(disk, volume, dir, pages[k]);
        assert pages[..k + 1][..k] == pages[..k];
        if !completed {
          stalled := stalled + 1;
        }
        k := k + 1;
      }
      assert pages[..k] == pages;
    }

    /**
     * One page of `saveChapter`: count it `buffered`, download its image if the URL is a `.jpg`
     * (retrying until a download succeeds), then count it `done`. A page whose requests run out
     * without success stalls: it stays counted as buffered but not done. The page is already
     * in `total`, so the counts are ordered between the two increments as well.
     */
    method SavePage(disk: Disk, volume: Volume, dir: string, page: Page) returns (completed: bool)
      requires volume.loading.Some? && volume.loading.value.Ordered()
      requires volume.loading.value.buffered < volume.loading.value.total
      requires |page.attempts| > 0
      modifies volume, disk
      ensures Effect(completed, disk.files) == PageEffect(old(disk.files), dir, page)
      ensures var before := old(volume.loading.value);
        volume.loading.Some? && volume.loading.value == Progress(before.done + (if completed then 1 else 0), before.buffered + 1, before.total)
      ensures volume.loading.value.Ordered()
    {
      var progress := volume.loading.value;
      volume.loading := Some(progress.(buffered := progress.buffered + 1));
      assert volume.loading.value.Ordered();
      completed := true;
      if IsJpg(page.imageUrl) {
        completed := disk.DownloadUntilStored(page.imageUrl, PageFile(dir, page.number), page.attempts);
      }
      if completed {
        progress := volume.loading.value;
        volume.loading := Some(progress.(done := progress.done + 1));
      }
    }
  }
}
