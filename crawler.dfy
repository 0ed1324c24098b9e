/** The crawler object: its settings, and the filesystem it reads and changes (the
    directories and files under the working directory, and the keyword file).
    Collecting links and answering the removal prompt come from outside. */
module Crawler {
  import opened Wrappers
  import opened Sites
  import opened Naming
  import opened Download
  import opened FileSystem
  import Keywords
  import opened Planning
  import opened Dispatch
  import opened Audit

  class AutoCrawler {
    const config: Config
    var dirs: set<string>
    var files: map<string, Bytes>
    /** The text of `keywords.txt`. */
    var keywordFile: string

    /** The directories and files as one value. */
    function State(): Disk
      reads this
    {
      Disk(dirs, files)
    }

    /** `__init__`: keep the settings and make the download directory, with its
        parents, if it is not there yet. */
    constructor (config: Config, dirs: set<string>, files: map<string, Bytes>, keywordFile: string)
      ensures this.config == config
      ensures this.dirs == dirs + Ancestry(config.downloadPath)
      ensures this.files == files && this.keywordFile == keywordFile
    {
      this.config := config;
      this.dirs := dirs + Ancestry(config.downloadPath);
      this.files := files;
      this.keywordFile := keywordFile;
    }

    /** `get_keywords`: load the keywords, then write them back sorted, one per
        line. */
    method LoadKeywords() returns (keywords: seq<string>)
      modifies this
      ensures keywords == Keywords.GetKeywords(old(keywordFile))
      ensures keywordFile == Keywords.Serialize(keywords)
      ensures dirs == old(dirs) && files == old(files)
    {
      keywords := Keywords.GetKeywords(keywordFile);
      var text := "";
      var i := 0;
      while i < |keywords|
        invariant 0 <= i <= |keywords|
        invariant text == Keywords.Serialize(keywords[..i])
        invariant dirs == old(dirs) && files == old(files)
      {
        Keywords.SerializeAppend(keywords[..i], keywords[i]);
        assert keywords[..i + 1] == keywords[..i] + [keywords[i]];
        text := text + keywords[i] + "\n";
        i := i + 1;
      }
      assert keywords[..|keywords|] == keywords;
      keywordFile := text;
    }

    /** `make_dir`. */
    method MakeDir(dirname: string)
      modifies this
      ensures State() == FileSystem.DirMade(old(State()), dirname)
      ensures keywordFile == old(keywordFile)
    {
      if !(dirname in dirs || dirname in files) {
        dirs := dirs + Ancestry(dirname);
      }
    }

    /** `save_image_to_file`: write the body when the file can be written; a
        failure to write is swallowed. */
    method SaveImageToFile(outcome: Outcome, filePath: string)
      modifies this
      ensures files == if outcome.Saved? then old(files)[filePath := outcome.body] else old(files)
      ensures dirs == old(dirs) && keywordFile == old(keywordFile)
    {
      if outcome.Saved? {
        files := files[filePath := outcome.body];
      }
    }

    /** `download_images`: make the keyword's directory, then fetch the links in
        order, saving link `i` as `{site}_{i:04}.{ext}`; a link that fails is
        skipped and the loop goes on. */
    method DownloadImages(keyword: string, links: seq<Link>, siteName: string)
      modifies this
      ensures State() == Dispatch.ImagesDownloaded(old(State()), config.downloadPath, keyword, links, siteName)
      ensures keywordFile == old(keywordFile)
    {
      MakeDir(KeywordDir(config.downloadPath, keyword));
      ghost var made := State();
      var i := 0;
      while i < |links|
        invariant 0 <= i <= |links|
        invariant dirs == made.dirs && keywordFile == old(keywordFile)
        invariant files == made.files + ImageWrites(config.downloadPath, keyword, siteName, links[..i])
      {
        var link := links[i];
        ghost var before := ImageWrites(config.downloadPath, keyword, siteName, links[..i]);
        ImageWritesSnoc(config.downloadPath, keyword, siteName, links, i);
        if !link.outcome.GetRaised? {
          var ext := GetExtensionFromLink(link.url, DEFAULT_EXT);
          var path := ImagePath(config.downloadPath, keyword, siteName, i, ext);
          assert path == FileFor(config.downloadPath, keyword, siteName, i, link.url);
          if link.outcome.Saved? {
            UnionUpdate(made.files, before, path, link.outcome.body);
          }
          SaveImageToFile(link.outcome, path);
        }
        i := i + 1;
      }
      assert links[..|links|] == links;
    }

    /** `download_from_site`: ask the site's collector for links and download
        them; an unknown code downloads an empty list, and a collector that
        raises ends the task without touching the disk. */
    method DownloadFromSite(keyword: string, code: int, collect: Collector)
      modifies this
      ensures State() == RunTask(old(State()), config, Task(keyword, code), collect)
      ensures keywordFile == old(keywordFile)
    {
      var siteName := SiteName(code);
      var links: Option<seq<Link>>;
      match Request(config.face, keyword, code) {
        case None =>
          links := Some([]);
        case Some(request) =>
          links := collect(request);
      }
      if links.Some? {
        DownloadImages(keyword, links.value, siteName);
      }
    }

    /** The task list of `do_crawling`. */
    method PlanTasks(keywords: seq<string>) returns (tasks: seq<Task>)
      ensures tasks == Planned(config, dirs + files.Keys, keywords)
    {
      ghost var existing := dirs + files.Keys;
      tasks := [];
      var i := 0;
      while i < |keywords|
        invariant 0 <= i <= |keywords|
        invariant tasks == Planned(config, existing, keywords[..i])
      {
        var keyword := keywords[i];
        var dirName := KeywordDir(config.downloadPath, keyword);
        PlannedStep(config, existing, keywords, i);
        if (dirName in dirs || dirName in files) && config.skip {
          // the directory is there already: skip the keyword
          assert Skipped(config, existing, keyword);
        } else {
          assert !Skipped(config, existing, keyword);
          var added: seq<Task> := [];
          if config.doGoogle {
            added := added + [Task(keyword, if config.fullResolution then GOOGLE_FULL else GOOGLE)];
          }
          if config.doNaver {
            added := added + [Task(keyword, if config.fullResolution then NAVER_FULL else NAVER)];
          }
          NewTasks(keyword);
          tasks := tasks + added;
        }
        i := i + 1;
      }
      assert keywords[..|keywords|] == keywords;
    }

    lemma NewTasks(keyword: string)
      ensures TasksFor(keyword, SourceCodes(config)) ==
        (if config.doGoogle then [Task(keyword, if config.fullResolution then GOOGLE_FULL else GOOGLE)] else []) +
        (if config.doNaver then [Task(keyword, if config.fullResolution then NAVER_FULL else NAVER)] else [])
    {
    }

    /** The tasks, one after another: the pool's workers, in one of their
        orders. */
    method RunTasks(tasks: seq<Task>, collect: Collector)
      modifies this
      ensures State() == Dispatch.TasksRun(old(State()), config, tasks, collect)
      ensures keywordFile == old(keywordFile)
    {
      var i := 0;
      while i < |tasks|
        invariant 0 <= i <= |tasks|
        invariant State() == Dispatch.TasksRun(old(State()), config, tasks[..i], collect)
        invariant keywordFile == old(keywordFile)
      {
        DownloadFromSite(tasks[i].keyword, tasks[i].code, collect);
        assert tasks[..i + 1][..i] == tasks[..i];
        i := i + 1;
      }
      assert tasks[..|tasks|] == tasks;
    }

    /** `shutil.rmtree(dir)`. */
    method RemoveTree(dir: string)
      modifies this
      ensures State() == FileSystem.TreeRemoved(old(State()), dir)
      ensures keywordFile == old(keywordFile)
    {
      dirs := set x | x in dirs && !InTree(x, dir);
      files := map p | p in files && !InTree(p, dir) :: files[p];
    }

    /** `dict_num_files`: every directory directly inside the download directory
        with the number of files directly inside it. */
    method ListDirCounts() returns (listing: seq<DirCount>)
      ensures IsListing(listing, State(), config.downloadPath)
    {
      var d := State();
      var all := SubDirs(d, config.downloadPath);
      var rest := all;
      ghost var seen: set<string> := {};
      listing := [];
      while rest != {}
        invariant rest <= all && seen == all - rest
        invariant PartialListing(listing, seen, d)
        decreases |rest|
      {
        var dir :| dir in rest;
        ListingSnoc(listing, seen, d, dir);
        listing := listing + [DirCount(dir, FileCount(d, dir))];
        seen := seen + {dir};
        rest := rest - {dir};
      }
      ListingComplete(listing, d, config.downloadPath);
    }

    /** `imbalance_check`: list the counts, flag the directories below half the
        average, and remove them when there is at least one and the answer to
        the prompt is `y`. */
    method ImbalanceCheck(answer: string) returns (listing: seq<DirCount>, tooSmall: seq<DirCount>, removed: bool)
      modifies this
      ensures IsListing(listing, old(State()), config.downloadPath)
      ensures tooSmall == Flagged(listing)
      ensures removed <==> |tooSmall| >= 1 && answer == "y"
      ensures State() == if removed then TreesRemoved(old(State()), DirsOf(tooSmall)) else old(State())
      ensures keywordFile == old(keywordFile)
    {
      listing := ListDirCounts();
      tooSmall := FindTooSmall(listing);
      removed := false;
      if |tooSmall| >= 1 && answer == "y" {
        var i := 0;
        while i < |tooSmall|
          invariant 0 <= i <= |tooSmall|
          invariant State() == TreesRemoved(old(State()), DirsOf(tooSmall[..i]))
          invariant keywordFile == old(keywordFile)
        {
          RemoveTree(tooSmall[i].dir);
          assert DirsOf(tooSmall[..i + 1]) == DirsOf(tooSmall[..i]) + [tooSmall[i].dir] by {
            assert tooSmall[..i + 1][..i] == tooSmall[..i];
          }
          TreesRemovedSnoc(old(State()), DirsOf(tooSmall[..i]), tooSmall[i].dir);
          i := i + 1;
        }
        assert tooSmall[..|tooSmall|] == tooSmall;
        removed := true;
      }
    }

    /** `do_crawling`: load and re-save the keywords, plan the tasks, run them,
        then check the balance of the result. */
    method DoCrawling(collect: Collector, answer: string)
      returns (keywords: seq<string>, tasks: seq<Task>, listing: seq<DirCount>, tooSmall: seq<DirCount>, removed: bool)
      modifies this
      ensures keywords == Keywords.GetKeywords(old(keywordFile))
      ensures keywordFile == Keywords.Serialize(keywords)
      ensures tasks == Planned(config, old(dirs) + old(files).Keys, keywords)
      ensures var crawled := Dispatch.TasksRun(old(State()), config, tasks, collect);
        && IsListing(listing, crawled, config.downloadPath)
        && tooSmall == Flagged(listing)
        && (removed <==> |tooSmall| >= 1 && answer == "y")
        && State() == if removed then TreesRemoved(crawled, DirsOf(tooSmall)) else crawled
    {
      keywords := LoadKeywords();
      tasks := PlanTasks(keywords);
      RunTasks(tasks, collect);
      listing, tooSmall, removed := ImbalanceCheck(answer);
    }
  }

  /** The tasks after one more keyword. */
  lemma PlannedStep(c: Config, existing: set<string>, keywords: seq<string>, i: nat)
    requires i < |keywords|
    ensures Planned(c, existing, keywords[..i + 1]) ==
      Planned(c, existing, keywords[..i]) +
      (if Skipped(c, existing, keywords[i]) then [] else TasksFor(keywords[i], SourceCodes(c)))
  {
    assert keywords[..i + 1][..i] == keywords[..i];
  }

  /** A partial listing of all the subdirectories is a listing. */
  lemma ListingComplete(es: seq<DirCount>, d: Disk, root: string)
    requires PartialListing(es, SubDirs(d, root), d)
    ensures IsListing(es, d, root)
  {
  }

  lemma UnionUpdate<K, V>(a: map<K, V>, w: map<K, V>, k: K, v: V)
    ensures (a + w)[k := v] == a + w[k := v]
  {
  }

  /** `es` lists the directories of `seen` once each, with their file counts on `d`. */
  ghost predicate PartialListing(es: seq<DirCount>, seen: set<string>, d: Disk)
  {
    && (forall i, j :: 0 <= i < j < |es| ==> es[i].dir != es[j].dir)
    && seen == (set i | 0 <= i < |es| :: es[i].dir)
    && (forall i :: 0 <= i < |es| ==> es[i].count == FileCount(d, es[i].dir))
  }

  /** Listing one more directory keeps the listing partial. */
  lemma ListingSnoc(es: seq<DirCount>, seen: set<string>, d: Disk, dir: string)
    requires PartialListing(es, seen, d) && dir !in seen
    ensures PartialListing(es + [DirCount(dir, FileCount(d, dir))], seen + {dir}, d)
  {
    var l := es + [DirCount(dir, FileCount(d, dir))];
    assert l[|es|].dir == dir;
    forall i | 0 <= i < |es|
      ensures l[i] == es[i] && es[i].dir in seen
    {
    }
    assert (set i | 0 <= i < |l| :: l[i].dir) == seen + {dir};
  }
}
