/** The files one task writes: link `i` of the collected list goes to its own
    numbered file when fetching and saving it succeed, and a failure at one link
    leaves the other links' files as they are. */
module Download {
  import opened Text
  import opened Naming

  newtype byte = x: int | 0 <= x < 256
  type Bytes = seq<byte>

  /** What fetching one link and saving the response turns out to do. */
  datatype Outcome =
    | GetRaised          // `requests.get` raised: no save is attempted
    | SaveRaised         // the response came, but opening the file failed (swallowed by the saver)
    | Saved(body: Bytes) // the response body was written to the file

  /** A collected link together with what fetching it will do. */
  datatype Link = Link(url: string, outcome: Outcome)

  /** A way of naming the file of link number `i` with address `url`. */
  type Namer = (nat, string) -> string

  /** The files written for `links` in order, link `i` going to `name(i, url)`
      when it is fetched and saved. */
  function Writes(name: Namer, links: seq<Link>): map<string, Bytes>
  {
    if |links| == 0 then map[]
    else
      var i := |links| - 1;
      var written := Writes(name, links[..i]);
      match links[i].outcome
      case Saved(body) => written[name(i, links[i].url) := body]
      case _ => written
  }

  /** How many links are fetched and saved. */
  function CountSaved(links: seq<Link>): nat
  {
    if |links| == 0 then 0
    else CountSaved(links[..|links| - 1]) + (if links[|links| - 1].outcome.Saved? then 1 else 0)
  }

  /** Different indices never get the same name. */
  ghost predicate IndexInjective(name: Namer)
  {
    forall i, u, j, v :: name(i, u) == name(j, v) ==> i == j
  }

  /** Every written file is named after a link that was fetched and saved. */
  lemma {:induction false} WritesFromSavedLinks(name: Namer, links: seq<Link>)
    ensures forall p :: p in Writes(name, links) ==>
      exists i :: 0 <= i < |links| && links[i].outcome.Saved? && p == name(i, links[i].url)
  {
    if |links| > 0 {
      var n := |links| - 1;
      var init := links[..n];
      WritesFromSavedLinks(name, init);
      forall p | p in Writes(name, links)
        ensures exists i :: 0 <= i < |links| && links[i].outcome.Saved? && p == name(i, links[i].url)
      {
        if p in Writes(name, init) {
          var i :| 0 <= i < n && init[i].outcome.Saved? && p == name(i, init[i].url);
          assert init[i] == links[i];
        }
      }
    }
  }

  /** A saved link's file holds its body: no other link overwrites it. */
  lemma {:induction false} SavedLinkWritten(name: Namer, links: seq<Link>, i: nat)
    requires IndexInjective(name)
    requires i < |links| && links[i].outcome.Saved?
    ensures name(i, links[i].url) in Writes(name, links)
    ensures Writes(name, links)[name(i, links[i].url)] == links[i].outcome.body
  {
    var n := |links| - 1;
    if i < n {
      SavedLinkWritten(name, links[..n], i);
      assert links[..n][i] == links[i];
    }
  }

  /** One file per saved link. */
  lemma {:induction false} WritesCount(name: Namer, links: seq<Link>)
    requires IndexInjective(name)
    ensures |Writes(name, links)| == CountSaved(links)
  {
    if |links| > 0 {
      var n := |links| - 1;
      var init := links[..n];
      WritesCount(name, init);
      WritesFromSavedLinks(name, init);
      if links[n].outcome.Saved? {
        assert name(n, links[n].url) !in Writes(name, init);
      }
    }
  }

  /** Namers that never agree write disjoint sets of files. */
  lemma WritesDisjoint(n1: Namer, links1: seq<Link>, n2: Namer, links2: seq<Link>)
    requires forall i, u, j, v :: n1(i, u) != n2(j, v)
    ensures Writes(n1, links1).Keys !! Writes(n2, links2).Keys
  {
    WritesFromSavedLinks(n1, links1);
    WritesFromSavedLinks(n2, links2);
  }

  // ---------------------------------------------------------------------------
  // the files of one task
  // ---------------------------------------------------------------------------

  /** The file for link number `index` with address `url`, its extension inferred
      from the link. */
  function FileFor(downloadPath: string, keyword: string, siteName: string, index: nat, url: string): string
  {
    ImagePath(downloadPath, keyword, siteName, index, GetExtensionFromLink(url, DEFAULT_EXT))
  }

  function FileNamer(downloadPath: string, keyword: string, siteName: string): Namer
  {
    (i: nat, url: string) => FileFor(downloadPath, keyword, siteName, i, url)
  }

  /** The files `download_images` writes for `links`, numbered by position. */
  function ImageWrites(downloadPath: string, keyword: string, siteName: string, links: seq<Link>): map<string, Bytes>
  {
    Writes(FileNamer(downloadPath, keyword, siteName), links)
  }

  /** One more link adds its file when it is saved, and nothing otherwise. */
  lemma ImageWritesSnoc(downloadPath: string, keyword: string, siteName: string, links: seq<Link>, i: nat)
    requires i < |links|
    ensures ImageWrites(downloadPath, keyword, siteName, links[..i + 1]) ==
      if links[i].outcome.Saved?
      then ImageWrites(downloadPath, keyword, siteName, links[..i])[FileFor(downloadPath, keyword, siteName, i, links[i].url) := links[i].outcome.body]
      else ImageWrites(downloadPath, keyword, siteName, links[..i])
  {
    assert links[..i + 1][..i] == links[..i];
    assert links[..i + 1][i] == links[i];
  }

  /** A file of link `i` cannot be a file of link `j` with another index. */
  lemma FileForIndex(downloadPath: string, keyword: string, siteName: string, i: nat, url: string, j: nat, ext: string)
    requires '/' !in siteName && '/' !in ext && '.' !in ext
    requires FileFor(downloadPath, keyword, siteName, i, url) == ImagePath(downloadPath, keyword, siteName, j, ext)
    ensures i == j
  {
    ExtensionIsImageType(url);
    ImagePathInjective(downloadPath, keyword, siteName, i, GetExtensionFromLink(url, DEFAULT_EXT),
                       keyword, siteName, j, ext);
  }

  lemma FileNamerInjective(downloadPath: string, keyword: string, siteName: string)
    requires '/' !in siteName
    ensures IndexInjective(FileNamer(downloadPath, keyword, siteName))
  {
    var name := FileNamer(downloadPath, keyword, siteName);
    forall i, u, j, v | name(i, u) == name(j, v)
      ensures i == j
    {
      ExtensionIsImageType(v);
      FileForIndex(downloadPath, keyword, siteName, i, u, j, GetExtensionFromLink(v, DEFAULT_EXT));
    }
  }

  /** Every file `download_images` writes belongs to a link that was fetched and
      saved, is named after that link's index, and lies inside the keyword's
      directory. */
  lemma ImageWritesFromSavedLinks(downloadPath: string, keyword: string, siteName: string, links: seq<Link>)
    ensures forall p :: p in ImageWrites(downloadPath, keyword, siteName, links) ==>
      exists i :: 0 <= i < |links| && links[i].outcome.Saved? && p == FileFor(downloadPath, keyword, siteName, i, links[i].url)
    ensures forall p :: p in ImageWrites(downloadPath, keyword, siteName, links) ==>
      InTree(p, KeywordDir(downloadPath, keyword)) && p != KeywordDir(downloadPath, keyword)
  {
    var name := FileNamer(downloadPath, keyword, siteName);
    WritesFromSavedLinks(name, links);
    forall p | p in ImageWrites(downloadPath, keyword, siteName, links)
      ensures exists i :: 0 <= i < |links| && links[i].outcome.Saved? && p == FileFor(downloadPath, keyword, siteName, i, links[i].url)
      ensures InTree(p, KeywordDir(downloadPath, keyword)) && p != KeywordDir(downloadPath, keyword)
    {
      var i :| 0 <= i < |links| && links[i].outcome.Saved? && p == name(i, links[i].url);
      ImagePathInKeywordDir(downloadPath, keyword, siteName, i, GetExtensionFromLink(links[i].url, DEFAULT_EXT));
    }
  }

  /** Per-link failure isolation. Every link that was fetched and saved has its own
      file holding its body, whatever happened to the links around it; a link whose
      fetch or save raised has no file under its index, whatever the extension; and
      there are exactly as many files as saved links. */
  lemma FailureIsolation(downloadPath: string, keyword: string, siteName: string, links: seq<Link>)
    requires '/' !in siteName
    ensures forall i :: 0 <= i < |links| && links[i].outcome.Saved? ==>
      var p := FileFor(downloadPath, keyword, siteName, i, links[i].url);
      p in ImageWrites(downloadPath, keyword, siteName, links) &&
      ImageWrites(downloadPath, keyword, siteName, links)[p] == links[i].outcome.body
    ensures forall i, ext :: 0 <= i < |links| && !links[i].outcome.Saved? && '/' !in ext && '.' !in ext ==>
      ImagePath(downloadPath, keyword, siteName, i, ext) !in ImageWrites(downloadPath, keyword, siteName, links)
    ensures |ImageWrites(downloadPath, keyword, siteName, links)| == CountSaved(links)
  {
    var name := FileNamer(downloadPath, keyword, siteName);
    var w := ImageWrites(downloadPath, keyword, siteName, links);
    FileNamerInjective(downloadPath, keyword, siteName);
    WritesCount(name, links);
    forall i | 0 <= i < |links| && links[i].outcome.Saved?
      ensures FileFor(downloadPath, keyword, siteName, i, links[i].url) in w
      ensures w[FileFor(downloadPath, keyword, siteName, i, links[i].url)] == links[i].outcome.body
    {
      SavedLinkWritten(name, links, i);
    }
    WritesFromSavedLinks(name, links);
    forall i, ext | 0 <= i < |links| && !links[i].outcome.Saved? && '/' !in ext && '.' !in ext
      ensures ImagePath(downloadPath, keyword, siteName, i, ext) !in w
    {
      var q := ImagePath(downloadPath, keyword, siteName, i, ext);
      if q in w {
        var j :| 0 <= j < |links| && links[j].outcome.Saved? && q == name(j, links[j].url);
        FileForIndex(downloadPath, keyword, siteName, j, links[j].url, i, ext);
      }
    }
  }

  /** Two tasks that differ in keyword or in site name write disjoint sets of
      files, so tasks can run side by side without contending for a path. */
  lemma ImageWritesDisjoint(downloadPath: string,
                            k1: string, s1: string, links1: seq<Link>,
                            k2: string, s2: string, links2: seq<Link>)
    requires '/' !in s1 && '/' !in s2
    requires k1 != k2 || s1 != s2
    ensures ImageWrites(downloadPath, k1, s1, links1).Keys !! ImageWrites(downloadPath, k2, s2, links2).Keys
  {
    var n1 := FileNamer(downloadPath, k1, s1);
    var n2 := FileNamer(downloadPath, k2, s2);
    forall i, u, j, v
      ensures n1(i, u) != n2(j, v)
    {
      FileForApart(downloadPath, k1, s1, i, u, k2, s2, j, v);
    }
    WritesDisjoint(n1, links1, n2, links2);
  }

  lemma FileForApart(downloadPath: string, k1: string, s1: string, i: nat, u: string,
                     k2: string, s2: string, j: nat, v: string)
    requires '/' !in s1 && '/' !in s2
    requires k1 != k2 || s1 != s2
    ensures FileFor(downloadPath, k1, s1, i, u) != FileFor(downloadPath, k2, s2, j, v)
  {
    var e1 := GetExtensionFromLink(u, DEFAULT_EXT);
    var e2 := GetExtensionFromLink(v, DEFAULT_EXT);
    ExtensionIsImageType(u);
    ExtensionIsImageType(v);
    if ImagePath(downloadPath, k1, s1, i, e1) == ImagePath(downloadPath, k2, s2, j, e2) {
      ImagePathInjective(downloadPath, k1, s1, i, e1, k2, s2, j, e2);
    }
  }
}
