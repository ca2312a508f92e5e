/**
 * The pure string logic of the downloader: `pad`, the local directory and
 * file of a page, the remote link of a page, the parsing of the chapter
 * anchors of a series page and the page-count text of a chapter page.
 */
module Layout {
  import opened Wrappers
  import opened JsString

  /** The fill string `pad` uses: the one given, or `0` when none or an empty one is given (index.js line 260). */
  function Fill(z: string): string
  {
    if z == "" then "0" else z
  }

  /** `pad(n, width, z)`: the decimal string of `n`, left-filled with copies of `z` up to `width`. */
  function Pad(n: nat, width: int, z: string): string
  {
    var digits := NatToString(n);
    if |digits| >= width then digits else Repeat(Fill(z), width - |digits|) + digits
  }

  /**
   * `pad` ends with the digits of `n` and leaves them alone once they reach `width`; with a
   * one-character fill the result is exactly `width` long (or the digits, if longer) and
   * everything before the digits is the fill character.
   */
  lemma PadShape(n: nat, width: int, z: string)
    ensures var r, digits := Pad(n, width, z), NatToString(n);
      && |digits| <= |r| && r[|r| - |digits|..] == digits
      && (|digits| >= width ==> r == digits)
      && (|Fill(z)| == 1 ==> |r| == if |digits| >= width then |digits| else width)
      && (|Fill(z)| == 1 ==> forall i | 0 <= i < |r| - |digits| :: r[i] == Fill(z)[0])
  {
    var digits := NatToString(n);
    if |digits| < width {
      var r := Repeat(Fill(z), width - |digits|) + digits;
      assert r[|r| - |digits|..] == digits;
      if |Fill(z)| == 1 {
        RepeatShape(Fill(z), width - |digits|);
      }
    }
  }

  /** Padding with the default zeros keeps the number: the padded string still reads as `n`. */
  lemma PadKeepsValue(n: nat, width: int)
    ensures IsDigits(Pad(n, width, "")) && DecimalValue(Pad(n, width, "")) == n
  {
    var r, digits := Pad(n, width, ""), NatToString(n);
    PadShape(n, width, "");
    NatToStringDigits(n);
    var zeros := r[..|r| - |digits|];
    assert r == zeros + digits;
    LeadingZeros(zeros, digits);
  }

  /** Distinct pages get distinct padded numbers. */
  lemma PadInjective(n: nat, m: nat, width: int)
    requires Pad(n, width, "") == Pad(m, width, "")
    ensures n == m
  {
    PadKeepsValue(n, width);
    PadKeepsValue(m, width);
  }

  lemma PadExamples()
    ensures Pad(3, 2, "") == "03"
    ensures Pad(12, 2, "") == "12"
  {
    assert NatToString(3) == "3" && Repeat("0", 1) == "0";
    assert NatToString(12) == "12";
  }

  /** The directory segment of a volume: `name.slice(1)` (`"v01/"` gives `"01/"`), or `"01/"` for the unnamed volume. */
  function VolumeDir(name: string): string
  {
    if name != "" then name[1..] else "01/"
  }

  /** The local directory of a chapter (index.js line 96). */
  function ChapterDir(root: string, name: string, chapter: string): string
  {
    root + "/Volume " + VolumeDir(name) + "Chapter " + chapter
  }

  /** The local file of a page of a chapter, inside its directory (index.js line 127). */
  function PageFile(dir: string, page: nat): string
  {
    dir + "/" + Pad(page, 2, "") + ".jpg"
  }

  /** The remote link of a chapter (index.js line 95). */
  function ChapterLink(url: string, name: string, chapter: string): string
  {
    url + "/" + name + "c" + chapter
  }

  /** The remote page of one page of a chapter (index.js lines 105 and 119). */
  function PageLink(url: string, name: string, chapter: string, page: nat): string
  {
    ChapterLink(url, name, chapter) + "/" + NatToString(page) + ".html"
  }

  /** An unnamed volume and the volume `v01/` are stored in the same directory. */
  lemma UnnamedVolumeIsFirst(root: string, chapter: string)
    ensures ChapterDir(root, "", chapter) == ChapterDir(root, "v01/", chapter)
  {
  }

  /** Two pages of one chapter never share a file, so downloading one cannot touch another. */
  lemma PageFileInjective(dir: string, p: nat, q: nat)
    requires PageFile(dir, p) == PageFile(dir, q)
    ensures p == q
  {
    var f := PageFile(dir, p);
    assert f[|dir| + 1..|f| - 4] == Pad(p, 2, "");
    assert f[|dir| + 1..|f| - 4] == Pad(q, 2, "");
    PadInjective(p, q, 2);
  }

  /** Page 3 of a chapter is stored as `03.jpg` inside the chapter's directory. */
  lemma ThirdPageFile(dir: string)
    ensures PageFile(dir, 3) == dir + "/03.jpg"
  {
    assert Pad(3, 2, "") == "03" by {
      assert NatToString(3) == "3" && Repeat("0", 1) == "0";
    }
    calc {
      PageFile(dir, 3);
      (dir + "/" + "03") + ".jpg";
      dir + ("/" + "03" + ".jpg");
      { assert "/" + "03" + ".jpg" == "/03.jpg"; }
      dir + "/03.jpg";
    }
  }

  /** The files of a chapter as a series with an unnamed volume stores them. */
  lemma PageFileExample(root: string)
    ensures PageFile(ChapterDir(root, "", "1"), 3) == root + "/Volume 01/Chapter 1/03.jpg"
  {
    var dir := root + "/Volume 01/Chapter 1";
    assert ChapterDir(root, "", "1") == dir;
    ThirdPageFile(dir);
    assert dir + "/03.jpg" == root + "/Volume 01/Chapter 1/03.jpg";
  }

  /** The href of a chapter anchor on a series page: the first page of the chapter. */
  function Anchor(url: string, name: string, chapter: string): string
  {
    url + "/" + name + "c" + chapter + "/1.html"
  }

  /** A volume name as a series page writes it: empty, or a tag without `/` followed by `/`. */
  predicate IsVolumeName(name: string)
  {
    name == "" || (name[|name| - 1] == '/' && forall i | 0 <= i < |name| - 1 :: name[i] != '/')
  }

  /**
   * The volume name of a chapter list, read from one anchor href (index.js lines 38-40):
   * strip `url + "/"`, then keep what precedes the first `"/c"` followed by `"/"`,
   * or nothing when there is no `"/c"`.
   */
  function VolumeName(url: string, href: string): (name: string)
    ensures name == "" || name[|name| - 1] == '/'
  {
    NameBeforeChapter(ReplaceFirst(href, url + "/", ""))
  }

  function NameBeforeChapter(rest: string): (name: string)
    ensures name == "" || name[|name| - 1] == '/'
  {
    var chapter := IndexOf(rest, "/c");
    if chapter >= 0 then rest[..chapter] + "/" else ""
  }

  /** The chapter id of an anchor href (index.js line 43): strip `url/name c`, then drop the last 7 characters. */
  function ChapterId(url: string, name: string, href: string): string
  {
    Slice(ReplaceFirst(href, url + "/" + name + "c", ""), 0, -7)
  }

  lemma OccursSlashC(s: string, i: int)
    ensures OccursAt(s, "/c", i) <==> 0 <= i && i + 1 < |s| && s[i] == '/' && s[i + 1] == 'c'
  {
    if 0 <= i && i + 1 < |s| {
      assert s[i..i + 2] == [s[i], s[i + 1]];
    }
  }

  /** Reading the volume name of an anchor gives back the name it was built from. */
  lemma AnchorVolumeName(url: string, name: string, chapter: string)
    requires IsVolumeName(name) && '/' !in chapter
    ensures VolumeName(url, Anchor(url, name, chapter)) == name
  {
    var rest := name + "c" + chapter + "/1.html";
    assert Anchor(url, name, chapter) == (url + "/") + rest;
    ReplaceLeadingMatch(url + "/", rest);
    NameBeforeChapterOfRest(name, chapter);
  }

  /** What follows `url/` in an anchor href reads back as the volume name. */
  lemma NameBeforeChapterOfRest(name: string, chapter: string)
    requires IsVolumeName(name) && '/' !in chapter
    ensures NameBeforeChapter(name + "c" + chapter + "/1.html") == name
  {
    if name == "" {
      assert name + "c" + chapter + "/1.html" == "c" + chapter + "/1.html";
      NoSlashC(chapter);
    } else {
      var tag := name[..|name| - 1];
      assert name == tag + "/";
      assert name + "c" + chapter + "/1.html" == tag + "/c" + chapter + "/1.html";
      FirstSlashC(tag, chapter);
    }
  }

  lemma NoSlashC(chapter: string)
    requires '/' !in chapter
    ensures NameBeforeChapter("c" + chapter + "/1.html") == ""
  {
    var rest := "c" + chapter + "/1.html";
    IndexOfSpec(rest, "/c");
    forall i | 0 <= i
      ensures !OccursAt(rest, "/c", i)
    {
      OccursSlashC(rest, i);
      if 1 <= i <= |chapter| {
        assert rest[i] == chapter[i - 1];
      } else if i == |chapter| + 1 {
        assert rest[i + 1] == '1';
      }
    }
  }

  lemma FirstSlashC(tag: string, chapter: string)
    requires forall i | 0 <= i < |tag| :: tag[i] != '/'
    ensures NameBeforeChapter(tag + "/c" + chapter + "/1.html") == tag + "/"
  {
    var rest := tag + "/c" + chapter + "/1.html";
    IndexOfSpec(rest, "/c");
    OccursSlashC(rest, |tag|);
    forall i | 0 <= i < |tag|
      ensures !OccursAt(rest, "/c", i)
    {
      OccursSlashC(rest, i);
      assert rest[i] == tag[i];
    }
    assert rest[..|tag|] == tag;
  }

  /** Reading the chapter id of an anchor gives back the id it was built from. */
  lemma AnchorChapterId(url: string, name: string, chapter: string)
    ensures ChapterId(url, name, Anchor(url, name, chapter)) == chapter
  {
    var tail := chapter + "/1.html";
    assert Anchor(url, name, chapter) == (url + "/" + name + "c") + tail;
    ReplaceLeadingMatch(url + "/" + name + "c", tail);
    SliceBetween("", chapter, "/1.html");
    assert "" + chapter + "/1.html" == tail;
  }

  /**
   * Parsing an anchor href gives back the volume name and the chapter id it was built from,
   * and the first-page link rebuilt from them is the href itself.
   */
  lemma AnchorRoundTrip(url: string, name: string, chapter: string)
    requires IsVolumeName(name) && '/' !in chapter
    ensures VolumeName(url, Anchor(url, name, chapter)) == name
    ensures ChapterId(url, name, Anchor(url, name, chapter)) == chapter
    ensures PageLink(url, name, chapter, 1) == Anchor(url, name, chapter)
  {
    AnchorVolumeName(url, name, chapter);
    AnchorChapterId(url, name, chapter);
    assert NatToString(1) == "1";
  }

  lemma AnchorExamples(url: string)
    ensures VolumeName(url, url + "/v01/c001/1.html") == "v01/"
    ensures VolumeName(url, url + "/c001/1.html") == ""
    ensures ChapterId(url, "v01/", url + "/v01/c001/1.html") == "001"
  {
    assert url + "/v01/c001/1.html" == Anchor(url, "v01/", "001");
    assert url + "/c001/1.html" == Anchor(url, "", "001");
    AnchorRoundTrip(url, "v01/", "001");
    AnchorRoundTrip(url, "", "001");
  }

  /** The page-count text of a chapter page (index.js line 111): from 3 past the first `"of"` up to 3 before the end. */
  function PageCountText(info: string): string
  {
    Slice(info, IndexOf(info, "of") + 3, -3)
  }

  /** The page count `images * 1` when the text is a string of digits; anything else is malformed. */
  function PageCount(info: string): Option<nat>
  {
    var text := PageCountText(info);
    if IsDigits(text) then Some(DecimalValue(text)) else None
  }

  /** The page-count text of a line `... of TEXT` followed by three trailing characters is `TEXT`. */
  lemma PageCountTextOf(before: string, text: string, trailer: string)
    requires IndexOf(before, "of") == -1 && |trailer| == 3
    ensures PageCountText(before + "of " + text + trailer) == text
  {
    var info := before + "of " + text + trailer;
    assert info == before + "of" + (" " + text + trailer);
    FirstOf(before, " " + text + trailer);
    assert info == (before + "of ") + text + trailer;
    SliceBetween(before + "of ", text, trailer);
  }

  /** A page-count line `... of N` followed by three trailing characters reads as `N`. */
  lemma PageCountRoundTrip(before: string, n: nat, trailer: string)
    requires IndexOf(before, "of") == -1 && |trailer| == 3
    ensures PageCount(before + "of " + NatToString(n) + trailer) == Some(n)
  {
    NatToStringDigits(n);
    PageCountTextOf(before, NatToString(n), trailer);
  }

  /** When `before` holds no `"of"`, the first `"of"` of `before + "of" + rest` is the one after `before`. */
  lemma {:induction false} FirstOf(before: string, rest: string)
    requires IndexOf(before, "of") == -1
    ensures IndexOf(before + "of" + rest, "of") == |before|
    decreases |before|
  {
    var s := before + "of" + rest;
    if before == "" {
      assert s[..2] == "of";
    } else {
      assert s[..2] != "of" by {
        if |before| == 1 {
          assert s[1] == 'o';
        } else {
          assert s[..2] == before[..2];
        }
      }
      FirstOf(before[1..], rest);
      assert s[1..] == before[1..] + "of" + rest;
    }
  }

  /** A string without the letter `o` holds no `"of"`. */
  lemma {:induction false} WithoutO(s: string)
    requires 'o' !in s
    ensures IndexOf(s, "of") == -1
    decreases |s|
  {
    if |s| >= 2 {
      assert s[0] != 'o';
      WithoutO(s[1..]);
    }
  }

  /** A count line whose text after `of` is not a number is malformed. */
  lemma MalformedPageCount()
    ensures PageCount("N/A of pages") == None
  {
    WithoutO("N/A ");
    assert "N/A of pages" == "N/A " + "of " + "pa" + "ges";
    PageCountTextOf("N/A ", "pa", "ges");
    assert !IsDigit("pa"[0]);
  }
}
