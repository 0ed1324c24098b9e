/** What one task does: `download_from_site` picks the collector for the site
    code, and `download_images` makes the keyword's directory and saves the links
    it gets. Collecting links drives a browser; here it is a parameter. */
module Dispatch {
  import opened Wrappers
  import opened Sites
  import opened Naming
  import opened Download
  import opened FileSystem
  import opened Planning

  /** The four collectors of `CollectLinks`. */
  datatype CollectMethod = CollectGoogle | CollectNaver | CollectGoogleFull | CollectNaverFull

  /** One call `collect.<collector>(keyword, add_url)`. */
  datatype CollectRequest = CollectRequest(collector: CollectMethod, keyword: string, addUrl: Option<string>)

  /** What a collector call does: the links it returns, each with what fetching
      it will do, or `None` when the call raises. */
  type Collector = CollectRequest -> Option<seq<Link>>

  /** The suffix passed to the collector: the face-search suffix in face mode,
      the empty string otherwise. */
  function AddUrl(face: bool, code: int): (r: Option<string>)
    ensures !face ==> r == Some("")
    ensures face ==> r == Some(GOOGLE_FACE)
  {
    if face then GetFaceUrl(code) else Some("")
  }

  /** The collector call `download_from_site` makes for a site code; `None` for a
      code that is none of the four, which collects no links at all. */
  function Request(face: bool, keyword: string, code: int): (r: Option<CollectRequest>)
    ensures r.None? <==> !IsSiteCode(code)
    ensures r.Some? ==> r.value.keyword == keyword && r.value.addUrl == AddUrl(face, code)
    ensures r.Some? ==> (r.value.collector == CollectGoogleFull || r.value.collector == CollectNaverFull <==>
                         code == GOOGLE_FULL || code == NAVER_FULL)
    ensures r.Some? ==> (r.value.collector == CollectGoogle || r.value.collector == CollectGoogleFull <==>
                         GetText(code) == Some("google"))
  {
    var addUrl := AddUrl(face, code);
    if code == GOOGLE then Some(CollectRequest(CollectGoogle, keyword, addUrl))
    else if code == NAVER then Some(CollectRequest(CollectNaver, keyword, addUrl))
    else if code == GOOGLE_FULL then Some(CollectRequest(CollectGoogleFull, keyword, addUrl))
    else if code == NAVER_FULL then Some(CollectRequest(CollectNaverFull, keyword, addUrl))
    else None
  }

  /** The links a task downloads: none for an unknown code; the collector's
      answer otherwise, `None` when it raises. */
  function TaskLinks(c: Config, t: Task, collect: Collector): (r: Option<seq<Link>>)
    ensures !IsSiteCode(t.code) ==> r == Some([])
    ensures IsSiteCode(t.code) ==> r == collect(Request(c.face, t.keyword, t.code).value)
  {
    match Request(c.face, t.keyword, t.code)
    case None => Some([])
    case Some(request) => collect(request)
  }

  /** `download_images`: make the keyword's directory, then save every link that
      is fetched and saved under its own numbered file. */
  function ImagesDownloaded(d: Disk, downloadPath: string, keyword: string, links: seq<Link>, siteName: string): Disk
  {
    var made := DirMade(d, KeywordDir(downloadPath, keyword));
    made.(files := made.files + ImageWrites(downloadPath, keyword, siteName, links))
  }

  /** `download_from_site` for one task; a collector that raises leaves the disk
      as it was. */
  function RunTask(d: Disk, c: Config, t: Task, collect: Collector): Disk
  {
    match TaskLinks(c, t, collect)
    case None => d
    case Some(links) => ImagesDownloaded(d, c.downloadPath, t.keyword, links, SiteName(t.code))
  }

  /** The files a task writes. */
  function TaskWrites(c: Config, t: Task, collect: Collector): map<string, Bytes>
  {
    match TaskLinks(c, t, collect)
    case None => map[]
    case Some(links) => ImageWrites(c.downloadPath, t.keyword, SiteName(t.code), links)
  }

  /** A task leaves every file outside its writes as it was, adds exactly its
      writes, and only ever adds directories, all of them on the path to its
      keyword's directory. A collector that raises changes nothing; an unknown
      code writes no file but still makes the directory. */
  lemma RunTaskEffect(d: Disk, c: Config, t: Task, collect: Collector)
    ensures RunTask(d, c, t, collect).files == d.files + TaskWrites(c, t, collect)
    ensures d.dirs <= RunTask(d, c, t, collect).dirs
    ensures forall x :: x in RunTask(d, c, t, collect).dirs - d.dirs ==> InTree(KeywordDir(c.downloadPath, t.keyword), x)
    ensures TaskLinks(c, t, collect).None? ==> RunTask(d, c, t, collect) == d
    ensures TaskLinks(c, t, collect).Some? ==> Exists(RunTask(d, c, t, collect), KeywordDir(c.downloadPath, t.keyword))
    ensures !IsSiteCode(t.code) ==> TaskWrites(c, t, collect) == map[]
  {
    if !IsSiteCode(t.code) {
      assert ImageWrites(c.downloadPath, t.keyword, SiteName(t.code), []) == map[];
    }
  }

  // ---------------------------------------------------------------------------
  // tasks run one after another
  // ---------------------------------------------------------------------------

  /** A step that one task takes on the disk. */
  type Step = (Disk, Task) -> Disk

  /** The steps of `tasks`, in order. */
  function Steps(d: Disk, step: Step, tasks: seq<Task>): Disk
  {
    if |tasks| == 0 then d else step(Steps(d, step, tasks[..|tasks| - 1]), tasks[|tasks| - 1])
  }

  /** The files of `tasks` put together, later ones last. */
  function Union(writes: Task -> map<string, Bytes>, tasks: seq<Task>): map<string, Bytes>
  {
    if |tasks| == 0 then map[]
    else Union(writes, tasks[..|tasks| - 1]) + writes(tasks[|tasks| - 1])
  }

  /** When each step adds its task's files and removes no directory, the steps
      together add the union of the files. */
  lemma {:induction false} StepsFiles(d: Disk, step: Step, writes: Task -> map<string, Bytes>, tasks: seq<Task>)
    requires forall e: Disk, t :: step(e, t).files == e.files + writes(t)
    requires forall e: Disk, t :: e.dirs <= step(e, t).dirs
    ensures Steps(d, step, tasks).files == d.files + Union(writes, tasks)
    ensures d.dirs <= Steps(d, step, tasks).dirs
  {
    if |tasks| > 0 {
      var init := tasks[..|tasks| - 1];
      StepsFiles(d, step, writes, init);
      UnionAssociative(d.files, Union(writes, init), writes(tasks[|tasks| - 1]));
    }
  }

  lemma UnionAssociative<K, V>(a: map<K, V>, b: map<K, V>, c: map<K, V>)
    ensures (a + b) + c == a + (b + c)
  {
  }

  /** `all` is the files of `tasks` put together in any order: every file a task
      writes is in `all` with what that task wrote, and every file of `all` was
      written by some task. */
  ghost predicate OrderFree(all: map<string, Bytes>, writes: Task -> map<string, Bytes>, tasks: seq<Task>)
  {
    && (forall i, p :: 0 <= i < |tasks| && p in writes(tasks[i]) ==> p in all && all[p] == writes(tasks[i])[p])
    && (forall p :: p in all ==> exists i :: 0 <= i < |tasks| && p in writes(tasks[i]))
  }

  /** When the tasks' files are pairwise disjoint, every file of the union holds
      what its one task wrote, whatever the order. */
  lemma {:induction false} UnionOrderFree(writes: Task -> map<string, Bytes>, tasks: seq<Task>)
    requires forall i, j :: 0 <= i < j < |tasks| ==> writes(tasks[i]).Keys !! writes(tasks[j]).Keys
    ensures OrderFree(Union(writes, tasks), writes, tasks)
  {
    if |tasks| > 0 {
      var n := |tasks| - 1;
      var init := tasks[..n];
      var last := writes(tasks[n]);
      var prev := Union(writes, init);
      assert Union(writes, tasks) == prev + last;
      assert forall i :: 0 <= i < n ==> init[i] == tasks[i];
      UnionOrderFree(writes, init);
      forall i, p | 0 <= i < |tasks| && p in writes(tasks[i])
        ensures p in prev + last && (prev + last)[p] == writes(tasks[i])[p]
      {
        if i < n {
          assert p in writes(init[i]);
          assert writes(tasks[i]).Keys !! last.Keys;
          assert p !in last;
        }
      }
      forall p | p in prev + last
        ensures exists i :: 0 <= i < |tasks| && p in writes(tasks[i])
      {
        if p in prev {
          var i :| 0 <= i < n && p in writes(init[i]);
          assert p in writes(tasks[i]);
        } else {
          assert p in writes(tasks[n]);
        }
      }
    }
  }

  function TaskStep(c: Config, collect: Collector): Step
  {
    (d: Disk, t: Task) => RunTask(d, c, t, collect)
  }

  function TaskWriter(c: Config, collect: Collector): Task -> map<string, Bytes>
  {
    (t: Task) => TaskWrites(c, t, collect)
  }

  /** The tasks run one after another. */
  function TasksRun(d: Disk, c: Config, tasks: seq<Task>, collect: Collector): Disk
  {
    Steps(d, TaskStep(c, collect), tasks)
  }

  /** The files all the tasks write together. */
  function RunWrites(c: Config, tasks: seq<Task>, collect: Collector): map<string, Bytes>
  {
    Union(TaskWriter(c, collect), tasks)
  }

  /** Running the tasks adds their files to the disk and removes no directory. */
  lemma TasksRunFiles(d: Disk, c: Config, tasks: seq<Task>, collect: Collector)
    ensures TasksRun(d, c, tasks, collect).files == d.files + RunWrites(c, tasks, collect)
    ensures d.dirs <= TasksRun(d, c, tasks, collect).dirs
  {
    var step := TaskStep(c, collect);
    var writes := TaskWriter(c, collect);
    forall e: Disk, t: Task
      ensures step(e, t).files == e.files + writes(t)
      ensures e.dirs <= step(e, t).dirs
    {
      RunTaskEffect(e, c, t, collect);
    }
    StepsFiles(d, step, writes, tasks);
  }

  /** Tasks with different keyword or site name write disjoint files. */
  lemma TaskWritesDisjoint(c: Config, t1: Task, t2: Task, collect: Collector)
    requires t1.keyword != t2.keyword || SiteName(t1.code) != SiteName(t2.code)
    ensures TaskWrites(c, t1, collect).Keys !! TaskWrites(c, t2, collect).Keys
  {
    match (TaskLinks(c, t1, collect), TaskLinks(c, t2, collect))
    case (Some(l1), Some(l2)) =>
      ImageWritesDisjoint(c.downloadPath, t1.keyword, SiteName(t1.code), l1, t2.keyword, SiteName(t2.code), l2);
    case _ =>
  }

  /** The tasks' files do not depend on the order they run in: when no two tasks
      share keyword and site name, every file written holds what its one task
      wrote, which is what lets the tasks run side by side in a pool. */
  lemma RunWritesOrderFree(c: Config, tasks: seq<Task>, collect: Collector)
    requires DistinctTargets(tasks)
    ensures OrderFree(RunWrites(c, tasks, collect), TaskWriter(c, collect), tasks)
  {
    ApartTasksWriteApart(c, tasks, collect);
    UnionOrderFree(TaskWriter(c, collect), tasks);
  }

  lemma ApartTasksWriteApart(c: Config, tasks: seq<Task>, collect: Collector)
    requires DistinctTargets(tasks)
    ensures forall i, j :: 0 <= i < j < |tasks| ==>
      TaskWriter(c, collect)(tasks[i]).Keys !! TaskWriter(c, collect)(tasks[j]).Keys
  {
    forall i, j | 0 <= i < j < |tasks|
      ensures TaskWriter(c, collect)(tasks[i]).Keys !! TaskWriter(c, collect)(tasks[j]).Keys
    {
      TaskWritesDisjoint(c, tasks[i], tasks[j], collect);
    }
  }

  /** The tasks `do_crawling` plans never collide, so the pool's order is
      irrelevant. */
  lemma PlannedTasksOrderFree(c: Config, existing: set<string>, keywords: seq<string>, collect: Collector)
    requires forall i, j :: 0 <= i < j < |keywords| ==> keywords[i] != keywords[j]
    ensures OrderFree(RunWrites(c, Planned(c, existing, keywords), collect), TaskWriter(c, collect), Planned(c, existing, keywords))
  {
    PlannedDistinct(c, existing, keywords);
    RunWritesOrderFree(c, Planned(c, existing, keywords), collect);
  }

  /** After a task whose links were collected, its keyword's directory holds at
      least one file per saved link. */
  lemma SavedFilesAreCounted(d: Disk, c: Config, t: Task, collect: Collector)
    requires TaskLinks(c, t, collect).Some?
    ensures var links := TaskLinks(c, t, collect).value;
      FileCount(RunTask(d, c, t, collect), KeywordDir(c.downloadPath, t.keyword)) >= CountSaved(links)
  {
    var links := TaskLinks(c, t, collect).value;
    var dir := KeywordDir(c.downloadPath, t.keyword);
    var w := ImageWrites(c.downloadPath, t.keyword, SiteName(t.code), links);
    var after := RunTask(d, c, t, collect);
    RunTaskEffect(d, c, t, collect);
    FailureIsolation(c.downloadPath, t.keyword, SiteName(t.code), links);
    ImageWritesFromSavedLinks(c.downloadPath, t.keyword, SiteName(t.code), links);
    forall p | p in w
      ensures p in after.files && ChildOf(p, dir)
    {
      var i :| 0 <= i < |links| && links[i].outcome.Saved? && p == FileFor(c.downloadPath, t.keyword, SiteName(t.code), i, links[i].url);
      ExtensionIsImageType(links[i].url);
      ImagePathIsChild(c.downloadPath, t.keyword, SiteName(t.code), i, GetExtensionFromLink(links[i].url, DEFAULT_EXT));
    }
    assert w.Keys <= set p | p in after.files && ChildOf(p, dir);
    SubsetCard(w.Keys, set p | p in after.files && ChildOf(p, dir));
  }

  lemma SubsetCard<T>(a: set<T>, b: set<T>)
    requires a <= b
    ensures |a| <= |b|
  {
    assert b == a + (b - a);
  }
}
