/** Where a downloaded image goes: its extension, inferred from the link, and its
    path `{download_path}/{keyword}/{site_name}_{index:04}.{ext}`. */
module Naming {
  import opened Text

  /** The extension used when the link's suffix is not recognised. */
  const DEFAULT_EXT: string := "jpg"

  /** The file extension for a link: the last `.`-separated piece of the link,
      lower-cased, when that is `jpg`, `jpeg`, `gif` or `png` (`jpeg` is saved as
      `jpg`); otherwise `default`. */
  function GetExtensionFromLink(link: string, default: string): (r: string)
    ensures r == "jpg" || r == "gif" || r == "png" || r == default
  {
    var splits := Split(link, '.');
    if |splits| == 0 then default
    else ImageType(Lower(splits[|splits| - 1]), default)
  }

  /** The saved extension for a lower-cased suffix. */
  function ImageType(ext: string, default: string): string
  {
    if ext == "jpg" || ext == "jpeg" then "jpg"
    else if ext == "gif" then "gif"
    else if ext == "png" then "png"
    else default
  }

  /** The piece that decides is the text after the link's last `.`, or the whole
      link when it has none: a recognised suffix gives its type (`jpeg` giving
      `jpg`), anything else the default. */
  lemma ExtensionOfLastDot(link: string, default: string)
    ensures GetExtensionFromLink(link, default) == ImageType(Lower(AfterLast(link, '.')), default)
  {
    ExtensionOfLastPiece(link, default);
    LastPieceIsAfterLast(link, '.');
  }

  lemma ExtensionOfLastPiece(link: string, default: string)
    ensures GetExtensionFromLink(link, default) == ImageType(Lower(Split(link, '.')[|Split(link, '.')| - 1]), default)
  {
  }

  /** With the default the downloader uses, the extension is one of three, and
      holds neither `.` nor `/`. */
  lemma ExtensionIsImageType(link: string)
    ensures var e := GetExtensionFromLink(link, DEFAULT_EXT);
      (e == "jpg" || e == "gif" || e == "png") && '.' !in e && '/' !in e
  {
    var e := GetExtensionFromLink(link, DEFAULT_EXT);
    ImageTypeIsPlain(e);
  }

  lemma ImageTypeIsPlain(e: string)
    requires e == "jpg" || e == "gif" || e == "png"
    ensures '.' !in e && '/' !in e
  {
    assert forall i :: 0 <= i < |e| ==> 'a' <= e[i] <= 'z';
  }

  /** A link ending in `.JPG` is saved as `jpg`, whatever comes before the dot. */
  lemma UpperCaseJpg(stem: string)
    ensures GetExtensionFromLink(stem + ".JPG", DEFAULT_EXT) == "jpg"
  {
    ExtensionOfLastDot(stem + ".JPG", DEFAULT_EXT);
    Around(stem, "JPG");
    assert Lower("JPG") == "jpg";
  }

  /** A `.bmp` link falls back to the default. */
  lemma BmpIsDefault(stem: string)
    ensures GetExtensionFromLink(stem + ".bmp", DEFAULT_EXT) == DEFAULT_EXT
  {
    ExtensionOfLastDot(stem + ".bmp", DEFAULT_EXT);
    Around(stem, "bmp");
    assert Lower("bmp") == "bmp";
  }

  /** A query string after a known suffix hides it: the default is used. */
  lemma QueryStringIsDefault(stem: string)
    ensures GetExtensionFromLink(stem + ".png?s=1", DEFAULT_EXT) == DEFAULT_EXT
  {
    ExtensionOfLastDot(stem + ".png?s=1", DEFAULT_EXT);
    Around(stem, "png?s=1");
    assert |Lower("png?s=1")| == 7;
  }

  /** The text after the last `.` of `a.b`, for `b` without a `.`. */
  lemma Around(a: string, b: string)
    requires '.' !in b
    ensures AfterLast(a + "." + b, '.') == b
  {
    LastIndexOfAround(a, b, '.');
    assert (a + "." + b)[|a| + 1..] == b;
  }

  /** `str(index).zfill(4)`. */
  function IndexText(index: nat): string
  {
    ZFill(NatToString(index), 4)
  }

  /** The index field is at least four decimal digits and reads back as the index,
      so distinct indices give distinct fields. */
  lemma IndexTextReadsBack(index: nat)
    ensures |IndexText(index)| >= 4 && AllDigits(IndexText(index))
    ensures DigitsValue(IndexText(index)) == index
  {
    var s := NatToString(index);
    NatToStringRoundTrip(index);
    if |s| < 4 {
      LeadingZerosValue(4 - |s|, s);
    }
  }

  /** The directory of one keyword: `'{}/{}'.format(download_path, keyword)`. */
  function KeywordDir(downloadPath: string, keyword: string): string
  {
    downloadPath + "/" + keyword
  }

  /** The file name for link `index` of one task. */
  function ImagePath(downloadPath: string, keyword: string, siteName: string, index: nat, ext: string): string
  {
    KeywordDir(downloadPath, keyword) + "/" + FileName(siteName, index, ext)
  }

  /** `path` is the directory `dir` or lies somewhere below it: what a recursive
      removal of `dir` takes away. */
  predicate InTree(path: string, dir: string)
  {
    path == dir || (|path| > |dir| && path[..|dir|] == dir && path[|dir|] == '/')
  }

  /** The file name of a link lies inside its keyword's directory. */
  lemma ImagePathInKeywordDir(downloadPath: string, keyword: string, siteName: string, index: nat, ext: string)
    ensures var p := ImagePath(downloadPath, keyword, siteName, index, ext);
      InTree(p, KeywordDir(downloadPath, keyword)) && p != KeywordDir(downloadPath, keyword)
  {
    var d := KeywordDir(downloadPath, keyword);
    assert ImagePath(downloadPath, keyword, siteName, index, ext) == d + ("/" + FileName(siteName, index, ext));
  }

  /** Under one download directory, a file name determines the keyword, the site
      name, the index and the extension it was made from, provided the site name
      and the extension hold no `/` and the extension no `.`. Hence links with
      different indices never share a file, and neither do two sources of one
      keyword nor two keywords. */
  lemma ImagePathInjective(downloadPath: string,
                           k1: string, s1: string, i1: nat, e1: string,
                           k2: string, s2: string, i2: nat, e2: string)
    requires '/' !in s1 && '/' !in s2
    requires '/' !in e1 && '/' !in e2 && '.' !in e1 && '.' !in e2
    requires ImagePath(downloadPath, k1, s1, i1, e1) == ImagePath(downloadPath, k2, s2, i2, e2)
    ensures k1 == k2 && s1 == s2 && i1 == i2 && e1 == e2
  {
    var t1 := FileName(s1, i1, e1);
    var t2 := FileName(s2, i2, e2);
    FileNameHasNoSlash(s1, i1, e1);
    FileNameHasNoSlash(s2, i2, e2);
    assert ImagePath(downloadPath, k1, s1, i1, e1) == KeywordDir(downloadPath, k1) + ['/'] + t1;
    assert ImagePath(downloadPath, k2, s2, i2, e2) == KeywordDir(downloadPath, k2) + ['/'] + t2;
    SplitAtLastUnique(KeywordDir(downloadPath, k1), t1, KeywordDir(downloadPath, k2), t2, '/');
    assert k1 == KeywordDir(downloadPath, k1)[|downloadPath| + 1..];
    assert k2 == KeywordDir(downloadPath, k2)[|downloadPath| + 1..];
    FileNameInjective(s1, i1, e1, s2, i2, e2);
  }

  /** The last component of an image path: `{site_name}_{index:04}.{ext}`. */
  function FileName(siteName: string, index: nat, ext: string): string
  {
    siteName + "_" + IndexText(index) + "." + ext
  }

  lemma IndexTextIsPlain(index: nat)
    ensures '/' !in IndexText(index) && '_' !in IndexText(index) && '.' !in IndexText(index)
  {
    var z := IndexText(index);
    IndexTextReadsBack(index);
    assert forall i :: 0 <= i < |z| ==> IsDigit(z[i]);
  }

  lemma FileNameHasNoSlash(siteName: string, index: nat, ext: string)
    requires '/' !in siteName && '/' !in ext
    ensures '/' !in FileName(siteName, index, ext)
  {
    IndexTextIsPlain(index);
  }

  lemma FileNameInjective(s1: string, i1: nat, e1: string, s2: string, i2: nat, e2: string)
    requires '.' !in e1 && '.' !in e2
    requires FileName(s1, i1, e1) == FileName(s2, i2, e2)
    ensures s1 == s2 && i1 == i2 && e1 == e2
  {
    var z1, z2 := IndexText(i1), IndexText(i2);
    IndexTextIsPlain(i1);
    IndexTextIsPlain(i2);
    var n1 := s1 + "_" + z1;
    var n2 := s2 + "_" + z2;
    assert FileName(s1, i1, e1) == n1 + ['.'] + e1;
    assert FileName(s2, i2, e2) == n2 + ['.'] + e2;
    SplitAtLastUnique(n1, e1, n2, e2, '.');
    assert n1 == s1 + ['_'] + z1 && n2 == s2 + ['_'] + z2;
    SplitAtLastUnique(s1, z1, s2, z2, '_');
    IndexTextReadsBack(i1);
    IndexTextReadsBack(i2);
  }
}
